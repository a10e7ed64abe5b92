/**
 * The Python `str` built-ins the establishment search relies on:
 * `lower`, `split()`, `split(sep)`, `strip`, `join`, `replace`, `in` and `str(int)`.
 */
module PyStr {
  import opened Wrappers

  /** The characters for which Python's `str.isspace` holds; `split()` and `strip()` break on these. */
  predicate IsSpace(c: char) {
    || c == ' ' || '\t' <= c <= '\r' || '\U{1C}' <= c <= '\U{1F}'
    || c == '\U{85}' || c == '\U{A0}' || c == '\U{1680}' || '\U{2000}' <= c <= '\U{200A}'
    || c == '\U{2028}' || c == '\U{2029}' || c == '\U{202F}' || c == '\U{205F}' || c == '\U{3000}'
  }

  /** The argument of `strip`: none (whitespace) or a string of characters to remove. */
  datatype StripChars = Whitespace | Chars(chars: set<char>)

  predicate Strips(cs: StripChars, c: char) {
    match cs
    case Whitespace => IsSpace(c)
    case Chars(chars) => c in chars
  }

  predicate IsUpper(c: char) { 'A' <= c <= 'Z' }

  function LowerChar(c: char): char {
    if IsUpper(c) then (c as int + 32) as char else c
  }

  /** `s.lower()`, for the ASCII letters. */
  function Lower(s: string): (r: string)
    ensures |r| == |s|
    ensures forall k :: 0 <= k < |s| ==> !IsUpper(r[k])
    ensures forall k :: 0 <= k < |s| && !IsUpper(s[k]) ==> r[k] == s[k]
    ensures forall k :: 0 <= k < |s| && IsUpper(s[k]) ==> r[k] as int == s[k] as int + 32
  {
    seq(|s|, k requires 0 <= k < |s| => LowerChar(s[k]))
  }

  lemma {:induction false} LowerIdempotent(s: string)
    ensures Lower(Lower(s)) == Lower(s)
  {
  }

  /** The number of leading characters of `s` that belong to `cs`. */
  function LeadCount(s: string, cs: StripChars): (n: nat)
    ensures n <= |s|
    ensures n < |s| ==> !Strips(cs, s[n])
  {
    if s == [] || !Strips(cs, s[0]) then 0 else 1 + LeadCount(s[1..], cs)
  }

  lemma {:induction false} LeadCountStrips(s: string, cs: StripChars)
    ensures forall k :: 0 <= k < LeadCount(s, cs) ==> Strips(cs, s[k])
  {
    if s != [] && Strips(cs, s[0]) {
      LeadCountStrips(s[1..], cs);
    }
  }

  /** The number of trailing characters of `s` that belong to `cs`. */
  function TrailCount(s: string, cs: StripChars): (n: nat)
    ensures n <= |s|
    ensures n < |s| ==> !Strips(cs, s[|s| - 1 - n])
  {
    if s == [] || !Strips(cs, s[|s| - 1]) then 0 else 1 + TrailCount(s[..|s| - 1], cs)
  }

  lemma {:induction false} TrailCountStrips(s: string, cs: StripChars)
    ensures forall k :: |s| - TrailCount(s, cs) <= k < |s| ==> Strips(cs, s[k])
  {
    if s != [] && Strips(cs, s[|s| - 1]) {
      TrailCountStrips(s[..|s| - 1], cs);
    }
  }

  /**
   * `s.strip(chars)`: the slice of `s` left once every leading and trailing
   * character of `cs` is removed.
   */
  function Strip(s: string, cs: StripChars): (r: string)
    ensures |r| <= |s|
    ensures r == [] || (!Strips(cs, r[0]) && !Strips(cs, r[|r| - 1]))
  {
    var i := LeadCount(s, cs);
    var j := |s| - TrailCount(s[i..], cs);
    StripBounds(s, cs);
    assert s[i..j] == [] || (s[i..j][0] == s[i] && s[i..j][j - i - 1] == s[j - 1]);
    s[i..j]
  }

  /** `Strip` removes exactly a run of characters of `cs` at each end. */
  lemma StripSlice(s: string, cs: StripChars)
    ensures exists i, j :: (0 <= i <= j <= |s| && Strip(s, cs) == s[i..j]
      && (forall k :: 0 <= k < i ==> Strips(cs, s[k]))
      && (forall k :: j <= k < |s| ==> Strips(cs, s[k])))
  {
    var i := LeadCount(s, cs);
    var j := |s| - TrailCount(s[i..], cs);
    StripBounds(s, cs);
    assert Strip(s, cs) == s[i..j];
  }

  /** The bounds of the slice `Strip` keeps. */
  lemma StripRange(s: string, cs: StripChars) returns (i: nat, j: nat)
    ensures i <= j <= |s| && Strip(s, cs) == s[i..j]
  {
    i := LeadCount(s, cs);
    j := |s| - TrailCount(s[i..], cs);
  }

  /** The slice `Strip` keeps: the stripped characters lie outside it, kept ones at its ends. */
  lemma StripBounds(s: string, cs: StripChars)
    ensures var i := LeadCount(s, cs); var j := |s| - TrailCount(s[i..], cs);
      && i <= j <= |s|
      && (forall k :: 0 <= k < i ==> Strips(cs, s[k]))
      && (forall k :: j <= k < |s| ==> Strips(cs, s[k]))
      && (i < j ==> !Strips(cs, s[i]) && !Strips(cs, s[j - 1]))
  {
    var i := LeadCount(s, cs);
    var t := s[i..];
    var j := |s| - TrailCount(t, cs);
    LeadCountStrips(s, cs);
    TrailCountStrips(t, cs);
    forall k | j <= k < |s|
      ensures Strips(cs, s[k])
    {
      assert s[k] == t[k - i];
    }
    if i < j {
      assert s[j - 1] == t[|t| - 1 - TrailCount(t, cs)];
    }
  }

  /** A word as `split()` produces it: non-empty, without whitespace. */
  predicate IsWord(w: string) {
    w != [] && forall k :: 0 <= k < |w| ==> !IsSpace(w[k])
  }

  /** The number of leading non-whitespace characters of `s`. */
  function WordRun(s: string): (n: nat)
    ensures n <= |s|
    ensures n < |s| ==> IsSpace(s[n])
  {
    if s == [] || IsSpace(s[0]) then 0 else 1 + WordRun(s[1..])
  }

  lemma {:induction false} WordRunNoSpace(s: string)
    ensures forall k :: 0 <= k < WordRun(s) ==> !IsSpace(s[k])
  {
    if s != [] && !IsSpace(s[0]) {
      WordRunNoSpace(s[1..]);
    }
  }

  /** `s.split()`: the maximal runs of non-whitespace characters of `s`, in order. */
  function Split(s: string): seq<string>
    decreases |s|
  {
    if s == [] then []
    else if IsSpace(s[0]) then Split(s[1..])
    else
      var n := WordRun(s);
      [s[..n]] + Split(s[n..])
  }

  /** `sep.join(xs)`. */
  function Join(sep: string, xs: seq<string>): string {
    if |xs| == 0 then "" else if |xs| == 1 then xs[0] else xs[0] + sep + Join(sep, xs[1..])
  }

  /** Every piece `split()` returns is a word. */
  lemma {:induction false} SplitYieldsWords(s: string)
    ensures forall k :: 0 <= k < |Split(s)| ==> IsWord(Split(s)[k])
    decreases |s|
  {
    if s == [] {
    } else if IsSpace(s[0]) {
      SplitYieldsWords(s[1..]);
    } else {
      var n := WordRun(s);
      WordRunNoSpace(s);
      assert forall k :: 0 <= k < n ==> s[..n][k] == s[k];
      SplitYieldsWords(s[n..]);
    }
  }

  /** A leading space never changes what `split()` returns. */
  lemma {:induction false} SplitSpacePrefix(s: string)
    ensures Split([' '] + s) == Split(s)
  {
    assert ([' '] + s)[1..] == s;
  }

  /** A whitespace-free word is a single word. */
  lemma {:induction false} WordRunOfWord(w: string, rest: string)
    requires IsWord(w)
    requires rest == [] || IsSpace(rest[0])
    ensures WordRun(w + rest) == |w|
  {
    var s := w + rest;
    WordRunNoSpace(s);
    assert forall k :: 0 <= k < |w| ==> s[k] == w[k];
    assert |w| < |s| ==> s[|w|] == rest[0];
  }

  /** `split()` undoes `' '.join` of words. */
  lemma {:induction false} SplitJoin(words: seq<string>)
    requires forall w <- words :: IsWord(w)
    ensures Split(Join(" ", words)) == words
  {
    if |words| == 1 {
      var w := words[0];
      assert w in words && IsWord(w);
      WordRunOfWord(w, []);
      assert w + [] == w;
      assert w[..|w|] == w;
      assert w[|w|..] == [];
    } else if |words| > 1 {
      var w := words[0];
      assert w in words && IsWord(w);
      var j := Join(" ", words[1..]);
      var s := w + " " + j;
      assert s == w + ([' '] + j);
      assert s[0] == w[0];
      WordRunOfWord(w, [' '] + j);
      assert s[..|w|] == w;
      assert s[|w|..] == [' '] + j;
      SplitSpacePrefix(j);
      assert forall x <- words[1..] :: x in words;
      SplitJoin(words[1..]);
    }
  }

  /** `sub` occurs in `s` at position `k`. */
  predicate OccursAt(s: string, sub: string, k: nat) {
    k + |sub| <= |s| && s[k..k + |sub|] == sub
  }

  /** The first position at or after `i` where `sub` occurs in `s`. */
  function FindFrom(s: string, sub: string, i: nat): (r: Option<nat>)
    ensures r.Some? ==> i <= r.value && OccursAt(s, sub, r.value)
    ensures forall k: nat :: i <= k && (r.None? || k < r.value) ==> !OccursAt(s, sub, k)
    decreases |s| - i
  {
    if i + |sub| > |s| then None
    else if s[i..i + |sub|] == sub then Some(i)
    else FindFrom(s, sub, i + 1)
  }

  /** The first position where `sub` occurs in `s`: the search behind `sub in s`. */
  function Find(s: string, sub: string): Option<nat> {
    FindFrom(s, sub, 0)
  }

  /** `sub in s`. */
  predicate Contains(s: string, sub: string) {
    Find(s, sub).Some?
  }

  /** `s.split(sep)` for a non-empty separator. */
  function SplitOn(s: string, sep: string): (pieces: seq<string>)
    requires sep != []
    ensures |pieces| >= 1
    decreases |s|
  {
    var f := Find(s, sep);
    if f.None? then [s] else [s[..f.value]] + SplitOn(s[f.value + |sep|..], sep)
  }

  /** `s.split(sep)[-1]`. */
  function LastPiece(s: string, sep: string): string
    requires sep != []
  {
    var pieces := SplitOn(s, sep);
    pieces[|pieces| - 1]
  }

  /**
   * The last piece of `s.split(sep)` is the text after the last occurrence of
   * `sep`, or all of `s` when `sep` does not occur.
   */
  lemma {:induction false} LastPieceFollowsLastSeparator(s: string, sep: string)
    requires sep != []
    ensures var p := LastPiece(s, sep);
      && |p| <= |s| && s[|s| - |p|..] == p
      && !Contains(p, sep)
      && (!Contains(s, sep) ==> p == s)
      && (Contains(s, sep) ==> |p| + |sep| <= |s| && s[|s| - |p| - |sep|..|s| - |p|] == sep)
  {
    LastPieceIsSuffix(s, sep);
    if Contains(s, sep) {
      LastPieceAfterSeparator(s, sep);
    }
  }

  lemma {:induction false} LastPieceIsSuffix(s: string, sep: string)
    requires sep != []
    ensures |LastPiece(s, sep)| <= |s|
    ensures s[|s| - |LastPiece(s, sep)|..] == LastPiece(s, sep)
    ensures !Contains(LastPiece(s, sep), sep)
    ensures !Contains(s, sep) ==> LastPiece(s, sep) == s
    decreases |s|
  {
    var f := Find(s, sep);
    if f.Some? {
      var m := f.value + |sep|;
      var rest := s[m..];
      LastPieceStep(s, sep);
      LastPieceIsSuffix(rest, sep);
      SuffixOfSuffix(s, m, |LastPiece(rest, sep)|);
    }
  }

  lemma {:induction false} LastPieceAfterSeparator(s: string, sep: string)
    requires sep != [] && Contains(s, sep)
    ensures |LastPiece(s, sep)| + |sep| <= |s|
    ensures s[|s| - |LastPiece(s, sep)| - |sep|..|s| - |LastPiece(s, sep)|] == sep
    decreases |s|
  {
    var k := Find(s, sep).value;
    var m := k + |sep|;
    var rest := s[m..];
    LastPieceStep(s, sep);
    var p := LastPiece(rest, sep);
    LastPieceIsSuffix(rest, sep);
    if Contains(rest, sep) {
      LastPieceAfterSeparator(rest, sep);
      InnerSlice(s, m, |rest| - |p| - |sep|, |rest| - |p|);
    } else {
      assert OccursAt(s, sep, k);
    }
  }

  lemma LastPieceStep(s: string, sep: string)
    requires sep != [] && Find(s, sep).Some?
    ensures LastPiece(s, sep) == LastPiece(s[Find(s, sep).value + |sep|..], sep)
  {
    var k := Find(s, sep).value;
    assert SplitOn(s, sep) == [s[..k]] + SplitOn(s[k + |sep|..], sep);
  }

  lemma SuffixOfSuffix(s: string, m: nat, n: nat)
    requires m <= |s| && n <= |s| - m
    ensures s[|s| - n..] == s[m..][|s| - m - n..]
  {
  }

  lemma InnerSlice(s: string, m: nat, i: nat, j: nat)
    requires m <= |s| && i <= j <= |s| - m
    ensures s[m + i..m + j] == s[m..][i..j]
  {
  }

  /** `s.replace(pattern, replacement)`: every non-overlapping occurrence, left to right. */
  function Replace(s: string, pattern: string, replacement: string): string {
    if pattern == [] then Interleave(s, replacement) else ReplaceAll(s, pattern, replacement)
  }

  /** `s.replace(pattern, replacement)` for a non-empty pattern. */
  function ReplaceAll(s: string, pattern: string, replacement: string): string
    requires pattern != []
    decreases |s|
  {
    var f := Find(s, pattern);
    if f.None? then s
    else s[..f.value] + replacement + ReplaceAll(s[f.value + |pattern|..], pattern, replacement)
  }

  /** `s.replace("", r)`: `r` before every character of `s` and at its end. */
  function Interleave(s: string, r: string): string {
    if s == [] then r else r + [s[0]] + Interleave(s[1..], r)
  }

  /** Replacing a non-empty pattern is splitting on it and joining with the replacement. */
  lemma {:induction false} ReplaceIsSplitJoin(s: string, pattern: string, replacement: string)
    requires pattern != []
    ensures Replace(s, pattern, replacement) == Join(replacement, SplitOn(s, pattern))
  {
    ReplaceAllIsSplitJoin(s, pattern, replacement);
  }

  lemma {:induction false} ReplaceAllIsSplitJoin(s: string, pattern: string, replacement: string)
    requires pattern != []
    ensures ReplaceAll(s, pattern, replacement) == Join(replacement, SplitOn(s, pattern))
    decreases |s|
  {
    var f := Find(s, pattern);
    if f.Some? {
      var k := f.value;
      var rest := s[k + |pattern|..];
      SplitOnAt(s, pattern, k);
      ReplaceAllIsSplitJoin(rest, pattern, replacement);
      JoinCons(replacement, s[..k], SplitOn(rest, pattern));
    } else {
      assert SplitOn(s, pattern) == [s];
    }
  }

  lemma SplitOnAt(s: string, pattern: string, k: nat)
    requires pattern != [] && Find(s, pattern) == Some(k)
    ensures k + |pattern| <= |s|
    ensures SplitOn(s, pattern) == [s[..k]] + SplitOn(s[k + |pattern|..], pattern)
  {
  }

  lemma {:induction false} JoinCons(sep: string, x: string, xs: seq<string>)
    requires |xs| >= 1
    ensures Join(sep, [x] + xs) == x + sep + Join(sep, xs)
  {
    assert ([x] + xs)[1..] == xs;
  }

  /** Splitting on a separator whose first character no element contains undoes the join. */
  lemma {:induction false} SplitOnJoin(sep: string, xs: seq<string>)
    requires sep != [] && |xs| >= 1
    requires forall x <- xs :: sep[0] !in x
    ensures SplitOn(Join(sep, xs), sep) == xs
  {
    var x := xs[0];
    NoSeparatorNoFind(x, sep);
    if |xs| > 1 {
      var j := Join(sep, xs[1..]);
      var s := x + sep + j;
      assert xs == [x] + xs[1..];
      assert Join(sep, xs) == s;
      assert s == x + (sep + j);
      FindAfterFree(x, sep + j, sep);
      assert s[..|x|] == x;
      assert s[|x| + |sep|..] == j;
      assert forall y <- xs[1..] :: y in xs;
      SplitOnJoin(sep, xs[1..]);
      assert SplitOn(s, sep) == [x] + SplitOn(j, sep);
    }
  }

  lemma NoSeparatorNoFind(x: string, sep: string)
    requires sep != [] && sep[0] !in x
    ensures Find(x, sep).None?
  {
    forall k: nat ensures !OccursAt(x, sep, k) {
      if k + |sep| <= |x| {
        assert x[k] in x;
        assert x[k..k + |sep|][0] == x[k];
      }
    }
  }

  lemma FindAfterFree(x: string, t: string, sep: string)
    requires sep != [] && sep[0] !in x
    requires |sep| <= |t| && t[..|sep|] == sep
    ensures Find(x + t, sep) == Some(|x|)
  {
    var s := x + t;
    assert s[|x|..|x| + |sep|] == sep;
    assert OccursAt(s, sep, |x|);
    forall k: nat | k < |x| ensures !OccursAt(s, sep, k) {
      if k + |sep| <= |s| {
        assert s[k..k + |sep|][0] == x[k];
        assert x[k] in x;
      }
    }
  }

  function Digit(d: nat): char
    requires d < 10
  {
    ('0' as int + d) as char
  }

  /** `str(n)`: the decimal numeral of `n`, without leading zeros. */
  function DecimalString(n: nat): (r: string)
    ensures r != []
    ensures forall k :: 0 <= k < |r| ==> '0' <= r[k] <= '9'
    ensures |r| > 1 ==> r[0] != '0'
  {
    if n < 10 then [Digit(n)] else DecimalString(n / 10) + [Digit(n % 10)]
  }

  /** The value of a numeral of decimal digits. */
  function DecimalValue(s: string): nat
    requires forall k :: 0 <= k < |s| ==> '0' <= s[k] <= '9'
  {
    if s == [] then 0 else 10 * DecimalValue(s[..|s| - 1]) + (s[|s| - 1] as int - '0' as int)
  }

  lemma {:induction false} DecimalRoundTrip(n: nat)
    ensures DecimalValue(DecimalString(n)) == n
  {
    if n >= 10 {
      var r := DecimalString(n);
      assert r[..|r| - 1] == DecimalString(n / 10);
      DecimalRoundTrip(n / 10);
    }
  }
}
