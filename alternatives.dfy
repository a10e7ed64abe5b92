/**
 * `generate_alternatives` of get_establishments.py: the queries tried when
 * the user's own query finds nothing. First every query obtained by deleting
 * one contiguous run of words, then spelling-corrected variants of those.
 */
module Alternatives {
  import opened PyStr

  /**
   * The `SpellChecker` instance, a foreign library: `unknown` gives the set of
   * words it does not know, `correction` its most likely correction.
   */
  datatype SpellChecker = SpellChecker(unknown: seq<string> -> set<string>, correction: string -> string)

  /** `' '.join(words[:i] + words[j:])`: the query without words i..j-1. */
  function Deletion(words: seq<string>, i: nat, j: nat): string
    requires i < j <= |words|
  {
    Join(" ", words[..i] + words[j..])
  }

  /** The alternatives the inner loop appends for `i`, from `j == from` on. */
  function DeletionRow(words: seq<string>, i: nat, from: nat): seq<string>
    requires i < from <= |words| + 1
    decreases |words| + 1 - from
  {
    if from == |words| + 1 then [] else [Deletion(words, i, from)] + DeletionRow(words, i, from + 1)
  }

  /** The alternatives the outer loop appends from `i == from` on. */
  function DeletionsFrom(words: seq<string>, from: nat): seq<string>
    requires from <= |words|
    decreases |words| - from
  {
    if from == |words| then [] else DeletionRow(words, from, from + 1) + DeletionsFrom(words, from + 1)
  }

  /** The list `alternatives` after the nested loop: all `i < j`, `i` then `j` ascending. */
  function Deletions(words: seq<string>): seq<string> {
    DeletionsFrom(words, 0)
  }

  /** The inner loop of the deletion stage: append the alternatives for one `i`. */
  method AppendRow(words: seq<string>, i: nat, acc: seq<string>) returns (alternatives: seq<string>)
    requires i < |words|
    ensures alternatives == acc + DeletionRow(words, i, i + 1)
  {
    alternatives := acc;
    for j := i + 1 to |words| + 1
      invariant alternatives + DeletionRow(words, i, j) == acc + DeletionRow(words, i, i + 1)
    {
      var alternative := Deletion(words, i, j);
      assert DeletionRow(words, i, j) == [alternative] + DeletionRow(words, i, j + 1);
      alternatives := alternatives + [alternative];
    }
  }

  /** The nested loop building the deletion list. */
  method DeletionAlternatives(words: seq<string>) returns (alternatives: seq<string>)
    ensures alternatives == Deletions(words)
  {
    alternatives := [];
    for i := 0 to |words|
      invariant alternatives + DeletionsFrom(words, i) == Deletions(words)
    {
      assert DeletionsFrom(words, i) == DeletionRow(words, i, i + 1) + DeletionsFrom(words, i + 1);
      alternatives := AppendRow(words, i, alternatives);
    }
  }

  // ---------------------------------------------------------------------
  // Shape of the deletion list.

  lemma {:induction false} DeletionRowLength(words: seq<string>, i: nat, from: nat)
    requires i < from <= |words| + 1
    ensures |DeletionRow(words, i, from)| == |words| + 1 - from
    decreases |words| + 1 - from
  {
    if from <= |words| {
      DeletionRowLength(words, i, from + 1);
    }
  }

  lemma {:induction false} DeletionsFromLength(words: seq<string>, from: nat)
    requires from <= |words|
    ensures 2 * |DeletionsFrom(words, from)| == (|words| - from) * (|words| - from + 1)
    decreases |words| - from
  {
    if from < |words| {
      DeletionsFromLength(words, from + 1);
      DeletionsFromStep(words, from);
      TriangleStep(|words| - from, |DeletionsFrom(words, from)|, |DeletionsFrom(words, from + 1)|);
    }
  }

  lemma DeletionsFromStep(words: seq<string>, from: nat)
    requires from < |words|
    ensures |DeletionsFrom(words, from)| == |words| - from + |DeletionsFrom(words, from + 1)|
  {
    DeletionRowLength(words, from, from + 1);
  }

  /** The step of the triangular-number identity behind `DeletionCount`. */
  lemma TriangleStep(m: int, total: int, rest: int)
    requires total == m + rest && 2 * rest == (m - 1) * m
    ensures 2 * total == m * (m + 1)
  {
    assert (m - 1) * m + 2 * m == m * (m + 1);
  }

  /** N words give N*(N+1)/2 deletion alternatives. */
  lemma DeletionCount(words: seq<string>)
    ensures 2 * |Deletions(words)| == |words| * (|words| + 1)
  {
    DeletionsFromLength(words, 0);
  }

  /** The index in the deletion list where the alternatives for `i` begin. */
  function RowStart(n: nat, i: nat): nat
    requires i <= n
  {
    if i == 0 then 0 else RowStart(n, i - 1) + (n - (i - 1))
  }

  /** The index in the deletion list of the alternative for `(i, j)`. */
  function Position(n: nat, i: nat, j: nat): nat
    requires i < j <= n
  {
    RowStart(n, i) + (j - i - 1)
  }

  lemma {:induction false} DeletionRowAt(words: seq<string>, i: nat, from: nat, j: nat)
    requires i < from <= j <= |words|
    ensures j - from < |DeletionRow(words, i, from)|
    ensures DeletionRow(words, i, from)[j - from] == Deletion(words, i, j)
    decreases j - from
  {
    if from < j {
      DeletionRowAt(words, i, from + 1, j);
    }
  }

  lemma DeletionsFromAtRow(words: seq<string>, i: nat, j: nat)
    requires i < j <= |words|
    ensures Position(|words|, i, j) - RowStart(|words|, i) == j - i - 1 < |DeletionsFrom(words, i)|
    ensures DeletionsFrom(words, i)[j - i - 1] == Deletion(words, i, j)
  {
    var row := DeletionRow(words, i, i + 1);
    assert DeletionsFrom(words, i) == row + DeletionsFrom(words, i + 1);
    DeletionRowAt(words, i, i + 1, j);
  }

  /** The alternatives the outer loop has appended before `i == upto`. */
  function DeletionsBefore(words: seq<string>, upto: nat): seq<string>
    requires upto <= |words|
  {
    if upto == 0 then [] else DeletionsBefore(words, upto - 1) + DeletionRow(words, upto - 1, upto)
  }

  lemma {:induction false} DeletionsSplit(words: seq<string>, upto: nat)
    requires upto <= |words|
    ensures DeletionsBefore(words, upto) + DeletionsFrom(words, upto) == Deletions(words)
    ensures |DeletionsBefore(words, upto)| == RowStart(|words|, upto)
  {
    if upto > 0 {
      DeletionsSplit(words, upto - 1);
      DeletionRowLength(words, upto - 1, upto);
      var before, row, rest := DeletionsBefore(words, upto - 1), DeletionRow(words, upto - 1, upto), DeletionsFrom(words, upto);
      AppendAssoc(before, row, rest);
      calc {
        DeletionsBefore(words, upto) + rest;
        before + row + rest;
        before + (row + rest);
        before + DeletionsFrom(words, upto - 1);
      }
    }
  }

  lemma AppendAssoc<T>(a: seq<T>, b: seq<T>, c: seq<T>)
    ensures a + b + c == a + (b + c)
  {
  }

  lemma {:induction false} RowStartMono(n: nat, a: nat, b: nat)
    requires a <= b <= n
    ensures RowStart(n, a) + (b - a) <= RowStart(n, b)
    decreases b - a
  {
    if a < b {
      RowStartMono(n, a, b - 1);
    }
  }

  /** The alternative for `(i, j)` sits at `Position(N, i, j)`. */
  lemma DeletionAt(words: seq<string>, i: nat, j: nat)
    requires i < j <= |words|
    ensures Position(|words|, i, j) < |Deletions(words)|
    ensures Deletions(words)[Position(|words|, i, j)] == Deletion(words, i, j)
  {
    DeletionsSplit(words, i);
    DeletionsFromAtRow(words, i, j);
    var before, rest := DeletionsBefore(words, i), DeletionsFrom(words, i);
    AppendIndex(before, rest, j - i - 1);
    assert Position(|words|, i, j) == |before| + (j - i - 1);
  }

  lemma AppendIndex<T>(a: seq<T>, b: seq<T>, k: nat)
    requires k < |b|
    ensures |a| + k < |a + b| && (a + b)[|a| + k] == b[k]
  {
  }

  /** Positions follow `i` ascending, then `j` ascending. */
  lemma DeletionOrder(n: nat, i: nat, j: nat, i': nat, j': nat)
    requires i < j <= n && i' < j' <= n
    requires i < i' || (i == i' && j < j')
    ensures Position(n, i, j) < Position(n, i', j')
  {
    if i < i' {
      RowStartMono(n, i + 1, i');
    }
  }

  /** Below row `upto`, every index lies in some row `i`. */
  lemma {:induction false} RowOf(n: nat, upto: nat, k: nat) returns (i: nat)
    requires upto <= n && k < RowStart(n, upto)
    ensures i < upto && RowStart(n, i) <= k < RowStart(n, i) + (n - i)
    decreases upto
  {
    if k >= RowStart(n, upto - 1) {
      i := upto - 1;
    } else {
      i := RowOf(n, upto - 1, k);
    }
  }

  /** Every index of the deletion list is the position of some `(i, j)`. */
  lemma DeletionIndex(words: seq<string>, k: nat)
    requires k < |Deletions(words)|
    ensures exists i, j :: 0 <= i < j <= |words| && Position(|words|, i, j) == k
  {
    var n := |words|;
    DeletionsSplit(words, n);
    assert DeletionsFrom(words, n) == [];
    var i := RowOf(n, n, k);
    var j := i + 1 + (k - RowStart(n, i));
    assert Position(n, i, j) == k;
  }

  lemma {:induction false} DeletionRowMembers(words: seq<string>, i: nat, from: nat, x: string)
    requires i < from <= |words| + 1 && x in DeletionRow(words, i, from)
    ensures exists j :: from <= j <= |words| && x == Deletion(words, i, j)
    decreases |words| + 1 - from
  {
    if x != Deletion(words, i, from) {
      DeletionRowMembers(words, i, from + 1, x);
    }
  }

  lemma {:induction false} DeletionsFromMembers(words: seq<string>, from: nat, x: string)
    requires from <= |words| && x in DeletionsFrom(words, from)
    ensures exists i, j :: from <= i < j <= |words| && x == Deletion(words, i, j)
    decreases |words| - from
  {
    if x in DeletionRow(words, from, from + 1) {
      DeletionRowMembers(words, from, from + 1, x);
    } else {
      DeletionsFromMembers(words, from + 1, x);
    }
  }

  /** Nothing else is in the deletion list. */
  lemma DeletionMembers(words: seq<string>, x: string)
    requires x in Deletions(words)
    ensures exists i, j :: 0 <= i < j <= |words| && x == Deletion(words, i, j)
  {
    DeletionsFromMembers(words, 0, x);
  }

  /** Every deletion alternative has `j - i` words fewer than the query. */
  lemma DeletionFewerWords(query: string, i: nat, j: nat)
    requires i < j <= |Split(query)|
    ensures |Split(Deletion(Split(query), i, j))| == |Split(query)| - (j - i) < |Split(query)|
  {
    var words := Split(query);
    SplitYieldsWords(query);
    var kept := words[..i] + words[j..];
    forall w | w in kept
      ensures IsWord(w)
    {
      var k :| 0 <= k < |kept| && kept[k] == w;
      if k < i {
        assert w == words[k];
      } else {
        assert w == words[k - i + j];
      }
    }
    SplitJoin(kept);
  }

  /** Deleting every word leaves the empty query, the N-th alternative. */
  lemma DeleteAll(words: seq<string>)
    requires |words| > 0
    ensures |words| - 1 < |Deletions(words)|
    ensures Deletions(words)[|words| - 1] == ""
  {
    DeletionAt(words, 0, |words|);
    assert words[..0] + words[|words|..] == [];
  }

  /** A query without words has no alternatives at all. */
  lemma NoWordsNoDeletions(query: string)
    requires Split(query) == []
    ensures Deletions(Split(query)) == []
  {
  }

  lemma DeletionExample()
    ensures Deletions(["a", "b", "c"]) == ["b c", "c", "", "a c", "a", "a b"]
  {
    var w := ["a", "b", "c"];
    assert w[..0] + w[1..] == ["b", "c"];
    assert w[..0] + w[2..] == ["c"];
    assert w[..0] + w[3..] == [];
    assert w[..1] + w[2..] == ["a", "c"];
    assert w[..1] + w[3..] == ["a"];
    assert w[..2] + w[3..] == ["a", "b"];
    assert ["a", "b"][1..] == ["b"] && ["a", "c"][1..] == ["c"] && ["b", "c"][1..] == ["c"];
    assert Deletion(w, 2, 3) == "a b" && Deletion(w, 1, 2) == "a c" && Deletion(w, 0, 1) == "b c";
    assert DeletionRow(w, 2, 3) == ["a b"];
    assert DeletionRow(w, 1, 2) == ["a c", "a"];
    assert DeletionRow(w, 0, 1) == ["b c", "c", ""];
    assert DeletionsFrom(w, 2) == ["a b"];
  }

  // ---------------------------------------------------------------------
  // Spelling-corrected alternatives.

  /**
   * `word` is among the words `unknown` reports for `alternative`, and `c` is
   * one of the whitespace-separated words of its correction.
   */
  predicate Corrects(sc: SpellChecker, alternative: string, word: string, c: string) {
    word in sc.unknown(Split(alternative)) && c in Split(sc.correction(word))
  }

  /** `x` is `alternative.replace(word, c)` for some alternative, unknown word and correction. */
  ghost predicate IsCorrection(sc: SpellChecker, deletions: seq<string>, x: string) {
    exists a, w, c :: a in deletions && Corrects(sc, a, w, c) && x == Replace(a, w, c)
  }

  /** Every entry of `spelling` is a correction that is not a deletion alternative. */
  ghost predicate SpellingSound(sc: SpellChecker, deletions: seq<string>, spelling: seq<string>) {
    forall x <- spelling :: x !in deletions && IsCorrection(sc, deletions, x)
  }

  /** Every correction of an alternative in `from` is a deletion alternative or in `spelling`. */
  ghost predicate SpellingCovers(sc: SpellChecker, from: seq<string>, deletions: seq<string>, spelling: seq<string>) {
    forall a, w, c :: a in from && Corrects(sc, a, w, c) ==>
      Replace(a, w, c) in deletions || Replace(a, w, c) in spelling
  }

  /**
   * `spelling` is a valid `spell_alternatives` for `deletions`, whatever the
   * iteration order of the sets `unknown` returns: exactly the corrections,
   * none of them a deletion alternative.
   */
  ghost predicate SpellingPart(sc: SpellChecker, deletions: seq<string>, spelling: seq<string>) {
    SpellingSound(sc, deletions, spelling) && SpellingCovers(sc, deletions, deletions, spelling)
  }

  lemma SoundAppend(sc: SpellChecker, deletions: seq<string>, a: seq<string>, b: seq<string>)
    requires SpellingSound(sc, deletions, a) && SpellingSound(sc, deletions, b)
    ensures SpellingSound(sc, deletions, a + b)
  {
    forall x | x in a + b
      ensures x !in deletions && IsCorrection(sc, deletions, x)
    {
      if x !in a {
        assert x in b;
      }
    }
  }

  lemma CoversAppend(sc: SpellChecker, from: seq<string>, more: seq<string>, deletions: seq<string>, a: seq<string>, b: seq<string>)
    requires SpellingCovers(sc, from, deletions, a) && SpellingCovers(sc, more, deletions, b)
    ensures SpellingCovers(sc, from + more, deletions, a + b)
  {
    forall x, w, c | x in from + more && Corrects(sc, x, w, c)
      ensures Replace(x, w, c) in deletions || Replace(x, w, c) in a + b
    {
      if x !in from {
        assert x in more;
      }
    }
  }

  /** The innermost loop: one unknown word of one alternative, every word of its correction. */
  method WordCorrections(sc: SpellChecker, alternatives: seq<string>, alternative: string, word: string)
    returns (added: seq<string>)
    requires alternative in alternatives && word in sc.unknown(Split(alternative))
    ensures SpellingSound(sc, alternatives, added)
    ensures forall c :: c in Split(sc.correction(word)) ==>
      Replace(alternative, word, c) in alternatives || Replace(alternative, word, c) in added
  {
    added := [];
    var corrections := Split(sc.correction(word));
    for m := 0 to |corrections|
      invariant SpellingSound(sc, alternatives, added)
      invariant forall c :: c in corrections[..m] ==>
        Replace(alternative, word, c) in alternatives || Replace(alternative, word, c) in added
    {
      var correction := corrections[m];
      var corrected := Replace(alternative, word, correction);
      assert Corrects(sc, alternative, word, correction);
      if corrected !in alternatives {
        added := added + [corrected];
      }
      assert corrections[..m + 1] == corrections[..m] + [correction];
    }
    assert corrections[..|corrections|] == corrections;
  }

  /** The middle loop: every word `unknown` reports for one alternative, in set order. */
  method AlternativeCorrections(sc: SpellChecker, alternatives: seq<string>, alternative: string)
    returns (added: seq<string>)
    requires alternative in alternatives
    ensures SpellingSound(sc, alternatives, added)
    ensures SpellingCovers(sc, [alternative], alternatives, added)
  {
    added := [];
    var misspelled := sc.unknown(Split(alternative));
    var pending := misspelled;
    while pending != {}
      invariant pending <= misspelled
      invariant SpellingSound(sc, alternatives, added)
      invariant forall w, c :: w in misspelled - pending && Corrects(sc, alternative, w, c) ==>
        Replace(alternative, w, c) in alternatives || Replace(alternative, w, c) in added
      decreases pending
    {
      var word :| word in pending;
      var more := WordCorrections(sc, alternatives, alternative, word);
      SoundAppend(sc, alternatives, added, more);
      added := added + more;
      pending := pending - {word};
    }
  }

  /** The second half of `generate_alternatives`: the outer loop over the deletion list. */
  method SpellingAlternatives(sc: SpellChecker, alternatives: seq<string>) returns (spelling: seq<string>)
    ensures SpellingPart(sc, alternatives, spelling)
  {
    spelling := [];
    for k := 0 to |alternatives|
      invariant SpellingSound(sc, alternatives, spelling)
      invariant SpellingCovers(sc, alternatives[..k], alternatives, spelling)
    {
      var alternative := alternatives[k];
      var more := AlternativeCorrections(sc, alternatives, alternative);
      SoundAppend(sc, alternatives, spelling, more);
      CoversAppend(sc, alternatives[..k], [alternative], alternatives, spelling, more);
      spelling := spelling + more;
      assert alternatives[..k + 1] == alternatives[..k] + [alternative];
    }
    assert alternatives[..|alternatives|] == alternatives;
  }

  /** What `generate_alternatives(query)` returns: the deletions, then the spelling part. */
  ghost predicate AlternativesFor(sc: SpellChecker, query: string, alternatives: seq<string>) {
    var deletions := Deletions(Split(query));
    |deletions| <= |alternatives| && alternatives[..|deletions|] == deletions
      && SpellingPart(sc, deletions, alternatives[|deletions|..])
  }

  /** A query without words has no alternatives at all: no deletions and so no corrections. */
  lemma NoWordsNoAlternatives(sc: SpellChecker, query: string, alternatives: seq<string>)
    requires Split(query) == [] && AlternativesFor(sc, query, alternatives)
    ensures alternatives == []
  {
    NoWordsNoDeletions(query);
    assert alternatives == alternatives[0..];
    if alternatives != [] {
      CorrectionHasSource(sc, [], alternatives, alternatives[0]);
    }
  }

  /** Every entry of a sound spelling part is a correction of some other, deletion, alternative. */
  lemma CorrectionHasSource(sc: SpellChecker, deletions: seq<string>, spelling: seq<string>, x: string)
    requires SpellingSound(sc, deletions, spelling) && x in spelling
    ensures exists a, w, c :: a in deletions && a != x && Corrects(sc, a, w, c) && x == Replace(a, w, c)
  {
  }

  method GenerateAlternatives(sc: SpellChecker, query: string) returns (alternatives: seq<string>)
    ensures AlternativesFor(sc, query, alternatives)
  {
    var words := Split(query);
    var deletions := DeletionAlternatives(words);
    var spelling := SpellingAlternatives(sc, deletions);
    alternatives := deletions + spelling;
    assert alternatives[..|deletions|] == deletions;
    assert alternatives[|deletions|..] == spelling;
  }
}
