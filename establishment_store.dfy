/**
 * The in-memory part of `write_establishment_to_json_file` of
 * manage_establishments.py: lower-case every string value of the new record
 * and append it to the loaded list of establishments.
 */
module EstablishmentStore {
  import opened PyStr
  import opened Records

  function LowerValue(v: Json): Json {
    if v.JString? then JString(Lower(v.str)) else v
  }

  /** `{key: value.lower() if isinstance(value, str) else value for key, value in new_data.items()}`. */
  function Lowercased(rec: Record): (r: Record)
    ensures r.Keys == rec.Keys
    ensures forall k <- rec.Keys :: rec[k].JString? <==> r[k].JString?
    ensures forall k <- rec.Keys :: rec[k].JString? ==> r[k].str == Lower(rec[k].str)
    ensures forall k <- rec.Keys :: !rec[k].JString? ==> r[k] == rec[k]
  {
    map k | k in rec :: LowerValue(rec[k])
  }

  /** No string value of a normalised record holds an upper-case letter. */
  lemma LowercasedNoUpper(rec: Record)
    ensures forall k <- Lowercased(rec).Keys :: Lowercased(rec)[k].JString? ==>
      forall i :: 0 <= i < |Lowercased(rec)[k].str| ==> !IsUpper(Lowercased(rec)[k].str[i])
  {
  }

  /** Normalising twice is normalising once. */
  lemma LowercasedIdempotent(rec: Record)
    ensures Lowercased(Lowercased(rec)) == Lowercased(rec)
  {
    var once := Lowercased(rec);
    forall k | k in rec
      ensures Lowercased(once)[k] == once[k]
    {
      if rec[k].JString? {
        LowerIdempotent(rec[k].str);
      }
    }
  }

  /** The list loaded from `stores.json`. */
  class Store {
    var data: seq<Record>

    constructor (initial: seq<Record>)
      ensures data == initial
    {
      data := initial;
    }

    /** Lower-case the string values of `newData` and append the result to the list. */
    method WriteEstablishment(newData: Record)
      modifies this
      ensures data == old(data) + [Lowercased(newData)]
      ensures |data| == |old(data)| + 1 && data[..|old(data)|] == old(data)
    {
      var normalised := map key | key in newData :: if newData[key].JString? then JString(Lower(newData[key].str)) else newData[key];
      assert normalised == Lowercased(newData);
      data := data + [normalised];
    }
  }
}
