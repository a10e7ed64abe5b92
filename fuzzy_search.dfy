/**
 * `fuzzy_search` of get_establishments.py: score every record of the catalog
 * against the query, keep those scoring above 70, and rank them by score,
 * highest first, with a stable sort.
 */
module FuzzySearch {
  import opened Wrappers
  import opened PyStr
  import opened Records

  /** A similarity score, the range of `fuzz.token_set_ratio`. */
  type Percent = x: int | 0 <= x <= 100

  /**
   * `fuzz.token_set_ratio`, a foreign library function: the model knows only
   * that it is a pure function into 0..100.
   */
  type Ratio = (string, string) -> Percent

  /** A record is a match when its score is strictly above this. */
  const Threshold: int := 70

  /** What `doc[field].lower()` raises: a `KeyError` or an `AttributeError`. */
  datatype SearchError = MissingField(field: string) | NotText(field: string)

  /** An entry of `matches`: a record and its score. */
  datatype ScoredMatch = ScoredMatch(doc: Record, score: int)

  predicate HasText(doc: Record, field: string) {
    field in doc && doc[field].JString?
  }

  /** The three searched fields are present and hold strings. */
  predicate WellFormed(doc: Record) {
    HasText(doc, "name") && HasText(doc, "description") && HasText(doc, "cuisine")
  }

  function FieldError(doc: Record, field: string): Option<SearchError> {
    if field !in doc then Some(MissingField(field))
    else if !doc[field].JString? then Some(NotText(field))
    else None
  }

  /**
   * The exception scoring `doc` raises: that of the first of name,
   * description and cuisine, in this order, that is missing or not a string.
   */
  function RecordError(doc: Record): (e: Option<SearchError>)
    ensures e.None? <==> WellFormed(doc)
    ensures e.Some? ==> e.value.field in {"name", "description", "cuisine"} && !HasText(doc, e.value.field)
    ensures e.Some? ==> (e.value.MissingField? <==> e.value.field !in doc)
    ensures e.Some? && e.value.field != "name" ==> HasText(doc, "name")
    ensures e.Some? && e.value.field == "cuisine" ==> HasText(doc, "description")
  {
    if FieldError(doc, "name").Some? then FieldError(doc, "name")
    else if FieldError(doc, "description").Some? then FieldError(doc, "description")
    else FieldError(doc, "cuisine")
  }

  function Text(doc: Record, field: string): string
    requires HasText(doc, field)
  {
    doc[field].str
  }

  function Max(a: int, b: int): int {
    if a >= b then a else b
  }

  /**
   * The score of a record: the best `token_set_ratio` of the lower-cased
   * query against its lower-cased name, description and cuisine.
   */
  function Score(ratio: Ratio, query: string, doc: Record): (s: Percent)
    requires WellFormed(doc)
    ensures s >= ratio(Lower(query), Lower(Text(doc, "name")))
    ensures s >= ratio(Lower(query), Lower(Text(doc, "description")))
    ensures s >= ratio(Lower(query), Lower(Text(doc, "cuisine")))
    ensures || s == ratio(Lower(query), Lower(Text(doc, "name")))
            || s == ratio(Lower(query), Lower(Text(doc, "description")))
            || s == ratio(Lower(query), Lower(Text(doc, "cuisine")))
  {
    var q := Lower(query);
    Max(Max(ratio(q, Lower(Text(doc, "name"))), ratio(q, Lower(Text(doc, "description")))),
        ratio(q, Lower(Text(doc, "cuisine"))))
  }

  predicate AllWellFormed(docs: seq<Record>) {
    forall d <- docs :: WellFormed(d)
  }

  /** The exception the scan of `docs` raises: that of its first malformed record. */
  function FirstError(docs: seq<Record>): (e: Option<SearchError>)
    ensures e.None? <==> AllWellFormed(docs)
  {
    if docs == [] then None
    else
      var init := docs[..|docs| - 1];
      assert docs == init + [docs[|docs| - 1]];
      var e := FirstError(init);
      if e.Some? then e else RecordError(docs[|docs| - 1])
  }

  /** The record at `i` is the first malformed one: the scan raises its exception. */
  lemma {:induction false} FirstErrorAt(docs: seq<Record>, i: nat)
    requires i < |docs| && AllWellFormed(docs[..i]) && !WellFormed(docs[i])
    ensures FirstError(docs) == RecordError(docs[i])
  {
    var n := |docs| - 1;
    var init := docs[..n];
    if i == n {
      assert init == docs[..i];
    } else {
      assert init[..i] == docs[..i] && init[i] == docs[i];
      FirstErrorAt(init, i);
    }
  }

  /** The list `matches` that the loop over `docs` builds, in catalog order. */
  function Candidates(ratio: Ratio, query: string, docs: seq<Record>): seq<ScoredMatch>
    requires AllWellFormed(docs)
  {
    if docs == [] then []
    else
      var init := docs[..|docs| - 1];
      assert forall d <- init :: d in docs;
      var d := docs[|docs| - 1];
      var s := Score(ratio, query, d);
      Candidates(ratio, query, init) + (if s > Threshold then [ScoredMatch(d, s)] else [])
  }

  /** Every entry of `ms` is a record of `catalog` with its own score, above the threshold. */
  predicate Eligible(ratio: Ratio, query: string, catalog: seq<Record>, ms: seq<ScoredMatch>) {
    forall m <- ms :: m.doc in catalog && WellFormed(m.doc)
      && m.score == Score(ratio, query, m.doc) && m.score > Threshold
  }

  /** `sorted(ms, key=score)` restricted to inserting `m` after a sorted `sorted`. */
  function Insert(sorted: seq<ScoredMatch>, m: ScoredMatch): seq<ScoredMatch> {
    if sorted == [] || sorted[|sorted| - 1].score >= m.score then sorted + [m]
    else Insert(sorted[..|sorted| - 1], m) + [sorted[|sorted| - 1]]
  }

  /**
   * `sorted(ms, key=lambda x: x[1], reverse=True)`: a stable sort by score,
   * highest first, written as an insertion sort.
   */
  function SortByScore(ms: seq<ScoredMatch>): seq<ScoredMatch> {
    if ms == [] then [] else Insert(SortByScore(ms[..|ms| - 1]), ms[|ms| - 1])
  }

  /** `[match[0] for match in ms]`. */
  function Docs(ms: seq<ScoredMatch>): seq<Record> {
    seq(|ms|, k requires 0 <= k < |ms| => ms[k].doc)
  }

  /** The ranked records `fuzzy_search` returns for a well-formed catalog. */
  function Ranked(ratio: Ratio, catalog: seq<Record>, query: string): seq<Record>
    requires AllWellFormed(catalog)
  {
    Docs(SortByScore(Candidates(ratio, query, catalog)))
  }

  /** `fuzzy_search(query)` over `catalog`: the ranked records, or the exception it raises. */
  function FuzzySearchSpec(ratio: Ratio, catalog: seq<Record>, query: string): (r: Result<seq<Record>, SearchError>)
    ensures r.Ok? <==> AllWellFormed(catalog)
  {
    var e := FirstError(catalog);
    if e.Some? then Err(e.value) else Ok(Ranked(ratio, catalog, query))
  }

  /** The loop of `fuzzy_search`, then the sort and the projection onto the records. */
  method Search(ratio: Ratio, catalog: seq<Record>, query: string) returns (r: Result<seq<Record>, SearchError>)
    ensures r == FuzzySearchSpec(ratio, catalog, query)
  {
    var matches: seq<ScoredMatch> := [];
    for i := 0 to |catalog|
      invariant AllWellFormed(catalog[..i])
      invariant matches == Candidates(ratio, query, catalog[..i])
    {
      var doc := catalog[i];
      var e := RecordError(doc);
      if e.Some? {
        FirstErrorAt(catalog, i);
        return Err(e.value);
      }
      var score := Score(ratio, query, doc);
      assert catalog[..i + 1][..i] == catalog[..i];
      assert catalog[..i + 1] == catalog[..i] + [doc];
      if score > Threshold {
        matches := matches + [ScoredMatch(doc, score)];
      }
    }
    assert catalog[..|catalog|] == catalog;
    r := Ok(Docs(SortByScore(matches)));
  }

  // ---------------------------------------------------------------------
  // The sort: a permutation, descending by score, stable among equal scores.

  predicate SortedDesc(ms: seq<ScoredMatch>) {
    forall a, b :: 0 <= a < b < |ms| ==> ms[a].score >= ms[b].score
  }

  /** The entries of `ms` with score `v`, in their order in `ms`. */
  function FilterScore(ms: seq<ScoredMatch>, v: int): seq<ScoredMatch> {
    if ms == [] then []
    else FilterScore(ms[..|ms| - 1], v) + (if ms[|ms| - 1].score == v then [ms[|ms| - 1]] else [])
  }

  lemma {:induction false} InsertPerm(sorted: seq<ScoredMatch>, m: ScoredMatch)
    ensures multiset(Insert(sorted, m)) == multiset(sorted) + multiset{m}
  {
    if sorted != [] && sorted[|sorted| - 1].score < m.score {
      var n := |sorted| - 1;
      InsertPerm(sorted[..n], m);
      assert sorted == sorted[..n] + [sorted[n]];
    }
  }

  lemma {:induction false} SortPerm(ms: seq<ScoredMatch>)
    ensures multiset(SortByScore(ms)) == multiset(ms)
  {
    if ms != [] {
      var n := |ms| - 1;
      SortPerm(ms[..n]);
      InsertPerm(SortByScore(ms[..n]), ms[n]);
      assert ms == ms[..n] + [ms[n]];
    }
  }

  /** Inserting adds `m` and nothing else. */
  lemma InsertMembers(sorted: seq<ScoredMatch>, m: ScoredMatch, x: ScoredMatch)
    requires x in Insert(sorted, m)
    ensures x in sorted || x == m
  {
    InsertPerm(sorted, m);
    assert x in multiset(Insert(sorted, m));
  }

  lemma SortedSnoc(ms: seq<ScoredMatch>, last: ScoredMatch)
    requires SortedDesc(ms) && forall x <- ms :: x.score >= last.score
    ensures SortedDesc(ms + [last])
  {
    var r := ms + [last];
    forall a, b | 0 <= a < b < |r|
      ensures r[a].score >= r[b].score
    {
      if b == |ms| {
        assert r[a] in ms;
      }
    }
  }

  lemma {:induction false} InsertSorted(sorted: seq<ScoredMatch>, m: ScoredMatch)
    requires SortedDesc(sorted)
    ensures SortedDesc(Insert(sorted, m))
  {
    if sorted == [] || sorted[|sorted| - 1].score >= m.score {
      SortedSnoc(sorted, m);
    } else {
      var n := |sorted| - 1;
      var init, last := sorted[..n], sorted[n];
      InsertSorted(init, m);
      var ins := Insert(init, m);
      forall x | x in ins
        ensures x.score >= last.score
      {
        InsertMembers(init, m, x);
        if x != m {
          var k :| 0 <= k < n && init[k] == x;
          assert sorted[k] == x;
        }
      }
      SortedSnoc(ins, last);
    }
  }

  lemma {:induction false} SortSorted(ms: seq<ScoredMatch>)
    ensures SortedDesc(SortByScore(ms))
  {
    if ms != [] {
      SortSorted(ms[..|ms| - 1]);
      InsertSorted(SortByScore(ms[..|ms| - 1]), ms[|ms| - 1]);
    }
  }

  lemma {:induction false} FilterScoreAppend(a: seq<ScoredMatch>, b: seq<ScoredMatch>, v: int)
    ensures FilterScore(a + b, v) == FilterScore(a, v) + FilterScore(b, v)
  {
    if b != [] {
      var n := |b| - 1;
      FilterScoreAppend(a, b[..n], v);
      assert (a + b)[..|a + b| - 1] == a + b[..n];
    } else {
      assert a + b == a;
    }
  }

  lemma {:induction false} InsertStable(sorted: seq<ScoredMatch>, m: ScoredMatch, v: int)
    ensures FilterScore(Insert(sorted, m), v) == FilterScore(sorted, v) + FilterScore([m], v)
  {
    if sorted == [] || sorted[|sorted| - 1].score >= m.score {
      FilterScoreAppend(sorted, [m], v);
    } else {
      var n := |sorted| - 1;
      var init, last := sorted[..n], sorted[n];
      InsertStable(init, m, v);
      FilterScoreAppend(Insert(init, m), [last], v);
      FilterScoreAppend(init, [last], v);
      assert sorted == init + [last];
      assert FilterScore([m], v) == [] || FilterScore([last], v) == [];
    }
  }

  /** Records of equal score keep their relative order: Python's sort is stable. */
  lemma {:induction false} SortStable(ms: seq<ScoredMatch>, v: int)
    ensures FilterScore(SortByScore(ms), v) == FilterScore(ms, v)
  {
    if ms != [] {
      var n := |ms| - 1;
      SortStable(ms[..n], v);
      InsertStable(SortByScore(ms[..n]), ms[n], v);
      FilterScoreAppend(ms[..n], [ms[n]], v);
      assert ms == ms[..n] + [ms[n]];
    }
  }

  // ---------------------------------------------------------------------
  // From entries to records.

  lemma DocsAppend(a: seq<ScoredMatch>, b: seq<ScoredMatch>)
    ensures Docs(a + b) == Docs(a) + Docs(b)
  {
    assert forall k :: 0 <= k < |a + b| ==> Docs(a + b)[k] == (Docs(a) + Docs(b))[k];
  }

  lemma {:induction false} DocsInsertPerm(sorted: seq<ScoredMatch>, m: ScoredMatch)
    ensures multiset(Docs(Insert(sorted, m))) == multiset(Docs(sorted)) + multiset{m.doc}
  {
    if sorted == [] || sorted[|sorted| - 1].score >= m.score {
      DocsAppend(sorted, [m]);
    } else {
      var n := |sorted| - 1;
      DocsInsertPerm(sorted[..n], m);
      DocsAppend(Insert(sorted[..n], m), [sorted[n]]);
      DocsAppend(sorted[..n], [sorted[n]]);
      assert sorted == sorted[..n] + [sorted[n]];
    }
  }

  lemma {:induction false} DocsSortPerm(ms: seq<ScoredMatch>)
    ensures multiset(Docs(SortByScore(ms))) == multiset(Docs(ms))
  {
    if ms != [] {
      var n := |ms| - 1;
      DocsSortPerm(ms[..n]);
      DocsInsertPerm(SortByScore(ms[..n]), ms[n]);
      DocsAppend(ms[..n], [ms[n]]);
      assert ms == ms[..n] + [ms[n]];
    }
  }

  /** The well-formed records of `docs` whose score is `v`, in catalog order. */
  function WithScore(ratio: Ratio, query: string, docs: seq<Record>, v: int): seq<Record> {
    if docs == [] then []
    else
      var d := docs[|docs| - 1];
      WithScore(ratio, query, docs[..|docs| - 1], v)
        + (if WellFormed(d) && Score(ratio, query, d) == v then [d] else [])
  }

  lemma {:induction false} DocsFilter(ratio: Ratio, query: string, catalog: seq<Record>, ms: seq<ScoredMatch>, v: int)
    requires Eligible(ratio, query, catalog, ms)
    ensures Docs(FilterScore(ms, v)) == WithScore(ratio, query, Docs(ms), v)
  {
    if ms != [] {
      var n := |ms| - 1;
      DocsFilter(ratio, query, catalog, ms[..n], v);
      DocsAppend(FilterScore(ms[..n], v), if ms[n].score == v then [ms[n]] else []);
      DocsAppend(ms[..n], [ms[n]]);
      assert ms == ms[..n] + [ms[n]];
      assert Docs(ms)[..n] == Docs(ms[..n]);
      assert ms[n] in ms;
    }
  }

  lemma {:induction false} CandidatesEligible(ratio: Ratio, query: string, docs: seq<Record>)
    requires AllWellFormed(docs)
    ensures Eligible(ratio, query, docs, Candidates(ratio, query, docs))
  {
    if docs != [] {
      var n := |docs| - 1;
      assert forall d <- docs[..n] :: d in docs;
      CandidatesEligible(ratio, query, docs[..n]);
      assert docs[n] in docs;
    }
  }

  lemma EligiblePerm(ratio: Ratio, query: string, catalog: seq<Record>, a: seq<ScoredMatch>, b: seq<ScoredMatch>)
    requires multiset(a) == multiset(b) && Eligible(ratio, query, catalog, b)
    ensures Eligible(ratio, query, catalog, a)
  {
    forall m | m in a
      ensures m in b
    {
      assert m in multiset(a);
    }
  }

  /** The entries the last record of `docs` adds to `matches`. */
  function LastMatch(ratio: Ratio, query: string, docs: seq<Record>): seq<ScoredMatch>
    requires docs != [] && WellFormed(docs[|docs| - 1])
  {
    var d := docs[|docs| - 1];
    var s := Score(ratio, query, d);
    if s > Threshold then [ScoredMatch(d, s)] else []
  }

  lemma CandidatesSnoc(ratio: Ratio, query: string, docs: seq<Record>)
    requires docs != [] && AllWellFormed(docs)
    ensures AllWellFormed(docs[..|docs| - 1]) && WellFormed(docs[|docs| - 1])
    ensures Candidates(ratio, query, docs)
         == Candidates(ratio, query, docs[..|docs| - 1]) + LastMatch(ratio, query, docs)
  {
    assert forall x <- docs[..|docs| - 1] :: x in docs;
    assert docs[|docs| - 1] in docs;
  }

  lemma {:induction false} CandidatesCount(ratio: Ratio, query: string, docs: seq<Record>, d: Record)
    requires AllWellFormed(docs)
    ensures multiset(Docs(Candidates(ratio, query, docs)))[d]
         == if d in docs && Score(ratio, query, d) > Threshold then multiset(docs)[d] else 0
  {
    if docs == [] {
      assert Docs([]) == [];
    } else {
      var n := |docs| - 1;
      var init, last := docs[..n], docs[n];
      CandidatesSnoc(ratio, query, docs);
      CandidatesCount(ratio, query, init, d);
      var extra := LastMatch(ratio, query, docs);
      var c := Candidates(ratio, query, init);
      DocsAppend(c, extra);
      assert multiset(Docs(Candidates(ratio, query, docs))) == multiset(Docs(c)) + multiset(Docs(extra));
      assert docs == init + [last];
      assert multiset(docs)[d] == multiset(init)[d] + (if d == last then 1 else 0);
      if d == last {
        assert d in docs;
      } else {
        assert multiset(Docs(extra))[d] == 0;
        assert d in docs <==> d in init;
      }
    }
  }

  lemma FilterLastMatch(ratio: Ratio, query: string, docs: seq<Record>, v: int)
    requires docs != [] && WellFormed(docs[|docs| - 1])
    ensures var d := docs[|docs| - 1];
      Docs(FilterScore(LastMatch(ratio, query, docs), v))
        == if Score(ratio, query, d) > Threshold && Score(ratio, query, d) == v then [d] else []
  {
    var m := LastMatch(ratio, query, docs);
    if m != [] {
      assert [m[0]][..0] == [];
    }
  }

  lemma {:induction false} CandidatesFilter(ratio: Ratio, query: string, docs: seq<Record>, v: int)
    requires AllWellFormed(docs)
    ensures Docs(FilterScore(Candidates(ratio, query, docs), v))
         == if v > Threshold then WithScore(ratio, query, docs, v) else []
  {
    if docs != [] {
      var n := |docs| - 1;
      var init := docs[..n];
      CandidatesSnoc(ratio, query, docs);
      CandidatesFilter(ratio, query, init, v);
      var c := Candidates(ratio, query, init);
      var extra := LastMatch(ratio, query, docs);
      FilterScoreAppend(c, extra, v);
      DocsAppend(FilterScore(c, v), FilterScore(extra, v));
      FilterLastMatch(ratio, query, docs, v);
    } else {
      assert Docs([]) == [];
    }
  }

  // ---------------------------------------------------------------------
  // What `fuzzy_search` promises about its result.

  /** Every returned record comes from the catalog and scores above 70. */
  lemma SearchOnlyAboveThreshold(ratio: Ratio, catalog: seq<Record>, query: string)
    requires AllWellFormed(catalog)
    ensures var out := Ranked(ratio, catalog, query);
      forall k :: 0 <= k < |out| ==> out[k] in catalog && Score(ratio, query, out[k]) > Threshold
  {
    var c := Candidates(ratio, query, catalog);
    CandidatesEligible(ratio, query, catalog);
    SortPerm(c);
    EligiblePerm(ratio, query, catalog, SortByScore(c), c);
    var sorted := SortByScore(c);
    forall k | 0 <= k < |sorted|
      ensures sorted[k].doc in catalog && Score(ratio, query, sorted[k].doc) > Threshold
    {
      assert sorted[k] in sorted;
    }
  }

  /**
   * Each record of the catalog that scores above 70 is returned exactly as
   * many times as it occurs in the catalog, and no other record is.
   */
  lemma SearchKeepsEveryMatch(ratio: Ratio, catalog: seq<Record>, query: string, d: Record)
    requires AllWellFormed(catalog)
    ensures multiset(Ranked(ratio, catalog, query))[d]
         == if d in catalog && Score(ratio, query, d) > Threshold then multiset(catalog)[d] else 0
  {
    DocsSortPerm(Candidates(ratio, query, catalog));
    CandidatesCount(ratio, query, catalog, d);
  }

  /** The records come highest score first. */
  lemma SearchOrdered(ratio: Ratio, catalog: seq<Record>, query: string)
    requires AllWellFormed(catalog)
    ensures var out := Ranked(ratio, catalog, query);
      forall a, b :: 0 <= a < b < |out| ==>
        WellFormed(out[a]) && WellFormed(out[b]) && Score(ratio, query, out[a]) >= Score(ratio, query, out[b])
  {
    var c := Candidates(ratio, query, catalog);
    CandidatesEligible(ratio, query, catalog);
    SortPerm(c);
    SortSorted(c);
    EligiblePerm(ratio, query, catalog, SortByScore(c), c);
    var sorted := SortByScore(c);
    forall a, b | 0 <= a < b < |sorted|
      ensures WellFormed(sorted[a].doc) && WellFormed(sorted[b].doc)
        && Score(ratio, query, sorted[a].doc) >= Score(ratio, query, sorted[b].doc)
    {
      assert sorted[a] in sorted && sorted[b] in sorted;
    }
  }

  /**
   * Records of one score appear in the result in their catalog order: for a
   * score above 70 exactly the catalog's records of that score, otherwise none.
   */
  lemma SearchStable(ratio: Ratio, catalog: seq<Record>, query: string, v: int)
    requires AllWellFormed(catalog)
    ensures WithScore(ratio, query, Ranked(ratio, catalog, query), v)
         == if v > Threshold then WithScore(ratio, query, catalog, v) else []
  {
    var c := Candidates(ratio, query, catalog);
    CandidatesEligible(ratio, query, catalog);
    SortPerm(c);
    EligiblePerm(ratio, query, catalog, SortByScore(c), c);
    DocsFilter(ratio, query, catalog, SortByScore(c), v);
    SortStable(c, v);
    CandidatesFilter(ratio, query, catalog, v);
  }
}
