/**
 * `get_establishments` of get_establishments.py: search the catalog for the
 * user's query, fall back to the generated alternatives when it finds
 * nothing, and render the first three records as a numbered list.
 */
module EstablishmentSearch {
  import opened Wrappers
  import opened PyStr
  import opened Records
  import opened FuzzySearch
  import opened Alternatives

  // ---------------------------------------------------------------------
  // The fallback loop.

  /**
   * The index of the first alternative from `from` on whose search finds a
   * record, or `|alternatives|`.
   */
  function FirstHitFrom(ratio: Ratio, catalog: seq<Record>, alternatives: seq<string>, from: nat): (k: nat)
    requires AllWellFormed(catalog) && from <= |alternatives|
    ensures from <= k <= |alternatives|
    ensures k < |alternatives| ==> Ranked(ratio, catalog, alternatives[k]) != []
    ensures forall i :: from <= i < k ==> Ranked(ratio, catalog, alternatives[i]) == []
    decreases |alternatives| - from
  {
    if from == |alternatives| || Ranked(ratio, catalog, alternatives[from]) != [] then from
    else FirstHitFrom(ratio, catalog, alternatives, from + 1)
  }

  function FirstHit(ratio: Ratio, catalog: seq<Record>, alternatives: seq<string>): nat
    requires AllWellFormed(catalog)
  {
    FirstHitFrom(ratio, catalog, alternatives, 0)
  }

  /** The records `results` holds after the fallback loop, for a well-formed catalog. */
  function FallbackResult(ratio: Ratio, catalog: seq<Record>, query: string, alternatives: seq<string>): (r: seq<Record>)
    requires AllWellFormed(catalog)
    ensures Ranked(ratio, catalog, query) != [] ==> r == Ranked(ratio, catalog, query)
    ensures Ranked(ratio, catalog, query) == [] ==>
      (r == [] <==> forall a <- alternatives :: Ranked(ratio, catalog, a) == [])
    ensures Ranked(ratio, catalog, query) == [] && r != [] ==>
      exists k :: 0 <= k < |alternatives| && r == Ranked(ratio, catalog, alternatives[k])
        && forall i :: 0 <= i < k ==> Ranked(ratio, catalog, alternatives[i]) == []
  {
    var direct := Ranked(ratio, catalog, query);
    if direct != [] then direct
    else
      var k := FirstHit(ratio, catalog, alternatives);
      if k < |alternatives| then Ranked(ratio, catalog, alternatives[k])
      else
        assert forall a <- alternatives :: Ranked(ratio, catalog, a) == [] by {
          forall a | a in alternatives
            ensures Ranked(ratio, catalog, a) == []
          {
            var i :| 0 <= i < |alternatives| && alternatives[i] == a;
          }
        }
        []
  }

  /** The queries searched, in order: the user's, then the alternatives up to the first hit. */
  function Tried(ratio: Ratio, catalog: seq<Record>, query: string, alternatives: seq<string>): seq<string>
    requires AllWellFormed(catalog)
  {
    if Ranked(ratio, catalog, query) != [] then [query]
    else
      var k := FirstHit(ratio, catalog, alternatives);
      [query] + alternatives[..if k < |alternatives| then k + 1 else k]
  }

  /** The loop over the alternatives: search each in turn, stop at the first that finds a record. */
  method TryAlternatives(ratio: Ratio, catalog: seq<Record>, alternatives: seq<string>)
    returns (results: seq<Record>, tried: seq<string>)
    requires AllWellFormed(catalog)
    ensures var k := FirstHit(ratio, catalog, alternatives);
      && results == (if k < |alternatives| then Ranked(ratio, catalog, alternatives[k]) else [])
      && tried == alternatives[..if k < |alternatives| then k + 1 else k]
  {
    results := [];
    tried := [];
    for i := 0 to |alternatives|
      invariant results == []
      invariant tried == alternatives[..i]
      invariant forall p :: 0 <= p < i ==> Ranked(ratio, catalog, alternatives[p]) == []
    {
      var found := Search(ratio, catalog, alternatives[i]);
      results := found.value;
      tried := tried + [alternatives[i]];
      assert alternatives[..i + 1] == alternatives[..i] + [alternatives[i]];
      if |results| > 0 {
        assert FirstHit(ratio, catalog, alternatives) == i;
        return;
      }
    }
    assert alternatives[..|alternatives|] == alternatives;
  }

  /**
   * Search for the query; when that finds nothing, generate the alternatives
   * and search them in turn. Also returns the alternatives generated (none
   * when the direct search succeeds) and the queries searched.
   */
  method SearchWithFallback(ratio: Ratio, sc: SpellChecker, catalog: seq<Record>, query: string)
    returns (results: Result<seq<Record>, SearchError>, alternatives: seq<string>, tried: seq<string>)
    ensures results.Err? <==> !AllWellFormed(catalog)
    ensures results.Err? ==> Some(results.error) == FirstError(catalog) && alternatives == [] && tried == [query]
    ensures results.Ok? ==> results.value == FallbackResult(ratio, catalog, query, alternatives)
    ensures results.Ok? ==> tried == Tried(ratio, catalog, query, alternatives)
    ensures results.Ok? && Ranked(ratio, catalog, query) != [] ==> alternatives == []
    ensures results.Ok? && Ranked(ratio, catalog, query) == [] ==> AlternativesFor(sc, query, alternatives)
  {
    alternatives := [];
    tried := [query];
    results := Search(ratio, catalog, query);
    if results.Ok? && |results.value| == 0 {
      alternatives := GenerateAlternatives(sc, query);
      var found, searched := TryAlternatives(ratio, catalog, alternatives);
      results := Ok(found);
      tried := tried + searched;
    }
  }

  // ---------------------------------------------------------------------
  // The formatter.

  /** Only the first three results are shown. */
  const MaxShown: nat := 3

  function Min(a: nat, b: nat): nat {
    if a <= b then a else b
  }

  /** `f"{number}. {name} ({cuisine}): {description} "`, an entry without its newline. */
  function Heading(number: nat, doc: Record): string
    requires WellFormed(doc)
  {
    DecimalString(number) + ". " + Text(doc, "name") + " (" + Text(doc, "cuisine") + "): "
      + Text(doc, "description") + " "
  }

  /** `formatted_result` for the record shown as entry `number`. */
  function Entry(number: nat, doc: Record): string
    requires WellFormed(doc)
  {
    Heading(number, doc) + "\n"
  }

  /** The entries for `docs`, numbered from `first` on. */
  function Numbered(docs: seq<Record>, first: nat): seq<string>
    requires AllWellFormed(docs)
  {
    seq(|docs|, k requires 0 <= k < |docs| => assert docs[k] in docs; Entry(first + k, docs[k]))
  }

  /** `final_string`: the first three records as entries numbered from 1, joined by newlines. */
  function Render(results: seq<Record>): string
    requires AllWellFormed(results)
  {
    var shown := results[..Min(MaxShown, |results|)];
    assert forall d <- shown :: d in results;
    Join("\n", Numbered(shown, 1))
  }

  /** Format the first three records as numbered entries and join them with newlines. */
  method FormatResults(results: seq<Record>) returns (finalString: string)
    requires AllWellFormed(results)
    ensures finalString == Render(results)
  {
    var formatted: seq<string> := [];
    for i := 0 to |results|
      invariant i <= MaxShown
      invariant AllWellFormed(results[..i])
      invariant formatted == Numbered(results[..i], 1)
    {
      if i >= MaxShown {
        break;
      }
      assert results[i] in results;
      formatted := formatted + [Entry(i + 1, results[i])];
      assert results[..i + 1] == results[..i] + [results[i]];
    }
    finalString := Join("\n", formatted);
  }

  /** The lines of the rendered text: each entry, then an empty line. */
  function ShownLines(docs: seq<Record>, first: nat): seq<string>
    requires AllWellFormed(docs)
  {
    if docs == [] then []
    else
      assert forall d <- docs[1..] :: d in docs;
      [Heading(first, docs[0]), ""] + ShownLines(docs[1..], first + 1)
  }

  lemma JoinNewlineStep(h: string, es: seq<string>, lines: seq<string>)
    requires |es| >= 1 && |lines| >= 1 && Join("\n", es) == Join("\n", lines)
    ensures Join("\n", [h + "\n"] + es) == Join("\n", [h, ""] + lines)
  {
    calc {
      Join("\n", [h + "\n"] + es);
      == { JoinCons("\n", h + "\n", es); }
      h + "\n" + "\n" + Join("\n", lines);
      == { JoinCons("\n", "", lines); }
      h + "\n" + Join("\n", [""] + lines);
      == { JoinCons("\n", h, [""] + lines); }
      Join("\n", [h] + ([""] + lines));
      == { assert [h, ""] + lines == [h] + ([""] + lines); }
      Join("\n", [h, ""] + lines);
    }
  }

  lemma {:induction false} JoinNumbered(docs: seq<Record>, first: nat)
    requires docs != [] && AllWellFormed(docs)
    ensures |ShownLines(docs, first)| >= 2
    ensures Join("\n", Numbered(docs, first)) == Join("\n", ShownLines(docs, first))
  {
    assert docs[0] in docs;
    var h := Heading(first, docs[0]);
    if |docs| == 1 {
      assert Numbered(docs, first) == [h + "\n"];
      assert ShownLines(docs, first) == [h, ""];
    } else {
      var rest := docs[1..];
      assert forall d <- rest :: d in docs;
      JoinNumbered(rest, first + 1);
      assert Numbered(docs, first) == [h + "\n"] + Numbered(rest, first + 1);
      JoinNewlineStep(h, Numbered(rest, first + 1), ShownLines(rest, first + 1));
    }
  }

  predicate NoNewline(doc: Record)
    requires WellFormed(doc)
  {
    '\n' !in Text(doc, "name") && '\n' !in Text(doc, "cuisine") && '\n' !in Text(doc, "description")
  }

  lemma {:induction false} ShownLinesNoNewline(docs: seq<Record>, first: nat)
    requires AllWellFormed(docs) && forall d <- docs :: NoNewline(d)
    ensures forall line <- ShownLines(docs, first) :: '\n' !in line
  {
    if docs != [] {
      assert forall d <- docs[1..] :: d in docs;
      ShownLinesNoNewline(docs[1..], first + 1);
      assert docs[0] in docs;
      assert '\n' !in DecimalString(first);
    }
  }

  /**
   * Read back line by line, the text holds the shown records in order, each
   * entry `"k. name (cuisine): description "` followed by an empty line.
   */
  lemma RenderLines(results: seq<Record>)
    requires results != [] && AllWellFormed(results)
    requires forall d <- results[..Min(MaxShown, |results|)] :: NoNewline(d)
    ensures var shown := results[..Min(MaxShown, |results|)];
      AllWellFormed(shown) && SplitOn(Render(results), "\n") == ShownLines(shown, 1)
  {
    var shown := results[..Min(MaxShown, |results|)];
    assert forall d <- shown :: d in results;
    JoinNumbered(shown, 1);
    ShownLinesNoNewline(shown, 1);
    SplitOnJoin("\n", ShownLines(shown, 1));
  }

  /** Records after the third never reach the text. */
  lemma RenderTruncates(results: seq<Record>)
    requires AllWellFormed(results) && |results| > MaxShown
    ensures AllWellFormed(results[..MaxShown])
    ensures Render(results) == Render(results[..MaxShown])
  {
    assert forall d <- results[..MaxShown] :: d in results;
    assert results[..MaxShown][..MaxShown] == results[..MaxShown];
  }

  /** No results give the empty text. */
  lemma RenderEmpty()
    ensures Render([]) == ""
  {
  }

  // ---------------------------------------------------------------------
  // The whole function.

  /**
   * `get_establishments(user_input)` over a loaded catalog: the rendered
   * fallback result, or the exception the first search raises.
   */
  method GetEstablishments(ratio: Ratio, sc: SpellChecker, catalog: seq<Record>, userInput: string)
    returns (r: Result<string, SearchError>, alternatives: seq<string>)
    ensures r.Err? <==> !AllWellFormed(catalog)
    ensures r.Err? ==> Some(r.error) == FirstError(catalog)
    ensures r.Ok? ==> (AllWellFormed(FallbackResult(ratio, catalog, userInput, alternatives))
      && r.value == Render(FallbackResult(ratio, catalog, userInput, alternatives)))
    ensures r.Ok? && Ranked(ratio, catalog, userInput) == [] ==> AlternativesFor(sc, userInput, alternatives)
  {
    var results, tried;
    results, alternatives, tried := SearchWithFallback(ratio, sc, catalog, userInput);
    if results.Err? {
      return Err(results.error), alternatives;
    }
    ResultsWellFormed(ratio, catalog, userInput, alternatives);
    var text := FormatResults(results.value);
    r := Ok(text);
  }

  /** Every record the search returns can be formatted. */
  lemma ResultsWellFormed(ratio: Ratio, catalog: seq<Record>, query: string, alternatives: seq<string>)
    requires AllWellFormed(catalog)
    ensures AllWellFormed(FallbackResult(ratio, catalog, query, alternatives))
  {
    var r := FallbackResult(ratio, catalog, query, alternatives);
    forall d | d in r
      ensures WellFormed(d)
    {
      var k :| 0 <= k < |r| && r[k] == d;
      if Ranked(ratio, catalog, query) != [] {
        SearchOnlyAboveThreshold(ratio, catalog, query);
      } else {
        var h := FirstHit(ratio, catalog, alternatives);
        SearchOnlyAboveThreshold(ratio, catalog, alternatives[h]);
      }
    }
  }
}
