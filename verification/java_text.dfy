/** The few java.lang.String operations the scraper relies on, with their
    Java semantics written out: `indexOf` (both overloads), `replace` on
    character sequences, `trim`, `split(",")` and `String.join`.

    Java strings are sequences of UTF-16 code units; here a string is a
    sequence of Dafny chars. Every pattern the scraper searches for is ASCII,
    so indices agree on payloads without supplementary characters. */
module JavaText {

  /** `pat` occurs in `s` starting at index `k`. */
  predicate OccursAt(s: string, pat: string, k: int) {
    0 <= k && k + |pat| <= |s| && s[k..k + |pat|] == pat
  }

  /** `prefix` is a leading piece of `s`. */
  predicate StartsWith(s: string, prefix: string) {
    |prefix| <= |s| && s[..|prefix|] == prefix
  }

  /** `suffix` is a trailing piece of `s`. */
  predicate EndsWith(s: string, suffix: string) {
    |suffix| <= |s| && s[|s| - |suffix|..] == suffix
  }

  /** `k` is the first occurrence of `pat` in `s` at or after `from`. */
  predicate IsFirstOccurrence(s: string, pat: string, from: nat, k: int) {
    from <= k && OccursAt(s, pat, k) && forall j :: from <= j < k ==> !OccursAt(s, pat, j)
  }

  /** `k` is the first index at or after `from` holding `c`. */
  predicate IsFirstChar(s: string, c: char, from: nat, k: int) {
    from <= k < |s| && s[k] == c && forall j :: from <= j < k ==> s[j] != c
  }

  /** Java's `s.indexOf(pat, from)` for a non-empty `pat`: the first
      occurrence at or after `from`, or -1. */
  function IndexOf(s: string, pat: string, from: nat): (r: int)
    requires |pat| > 0
    ensures r == -1 || IsFirstOccurrence(s, pat, from, r)
    ensures r == -1 <==> forall k :: from <= k ==> !OccursAt(s, pat, k)
    decreases |s| - from
  {
    if from + |pat| > |s| then -1
    else if s[from..from + |pat|] == pat then from
    else IndexOf(s, pat, from + 1)
  }

  /** Java's `s.indexOf(c, from)`: the first index at or after `from`
      holding `c`, or -1. */
  function IndexOfChar(s: string, c: char, from: nat): (r: int)
    ensures r == -1 || IsFirstChar(s, c, from, r)
    ensures r == -1 <==> forall k :: from <= k < |s| ==> s[k] != c
    decreases |s| - from
  {
    if from >= |s| then -1
    else if s[from] == c then from
    else IndexOfChar(s, c, from + 1)
  }

  /** `w` sits in `s` from index `i`, character by character. */
  predicate HoldsAt(s: string, i: nat, w: string) {
    i + |w| <= |s| && forall k :: 0 <= k < |w| ==> s[i + k] == w[k]
  }

  /** Text `a + b` in place is `a` in place followed by `b` in place. */
  lemma HoldsAtSplit(s: string, i: nat, a: string, b: string)
    requires HoldsAt(s, i, a + b)
    ensures HoldsAt(s, i, a) && HoldsAt(s, i + |a|, b)
  {
    forall k | 0 <= k < |a|
      ensures s[i + k] == a[k]
    {
      assert (a + b)[k] == a[k];
    }
    forall k | 0 <= k < |b|
      ensures s[i + |a| + k] == b[k]
    {
      assert (a + b)[|a| + k] == b[k];
    }
  }

  /** A slice equal to a concatenation splits into slices equal to its parts. */
  lemma SliceSplit(s: string, i: nat, a: string, b: string)
    requires i + |a| + |b| <= |s| && s[i..i + |a| + |b|] == a + b
    ensures s[i..i + |a|] == a && s[i + |a|..i + |a| + |b|] == b
  {
    var w := s[i..i + |a| + |b|];
    assert w[..|a|] == a;
    assert w[|a|..] == b;
    assert s[i..i + |a|] == w[..|a|];
    assert s[i + |a|..i + |a| + |b|] == w[|a|..];
  }

  lemma FirstCharUnique(s: string, c: char, from: nat, k1: int, k2: int)
    requires IsFirstChar(s, c, from, k1) && IsFirstChar(s, c, from, k2)
    ensures k1 == k2
  {
  }

  lemma FirstOccurrenceUnique(s: string, pat: string, from: nat, k1: int, k2: int)
    requires IsFirstOccurrence(s, pat, from, k1) && IsFirstOccurrence(s, pat, from, k2)
    ensures k1 == k2
  {
  }

  /** Java's `s.replace(pat, rep)`: scans left to right and replaces every
      non-overlapping occurrence of `pat`, resuming after each match. */
  function ReplaceAll(s: string, pat: string, rep: string): string
    requires |pat| > 0
    decreases |s|
  {
    if |s| < |pat| then s
    else if s[..|pat|] == pat then rep + ReplaceAll(s[|pat|..], pat, rep)
    else [s[0]] + ReplaceAll(s[1..], pat, rep)
  }

  /** A pattern with a character that never appears leaves the text unchanged. */
  lemma {:induction false} ReplaceAllAbsent(s: string, pat: string, rep: string, i: nat)
    requires i < |pat| && pat[i] !in s
    ensures ReplaceAll(s, pat, rep) == s
    decreases |s|
  {
    if |s| >= |pat| {
      assert s[..|pat|][i] == s[i];
      ReplaceAllAbsent(s[1..], pat, rep, i);
      assert [s[0]] + s[1..] == s;
    }
  }

  /** Replacing a single character distributes over concatenation. */
  lemma {:induction false} ReplaceCharConcat(a: string, b: string, c: char, rep: string)
    ensures ReplaceAll(a + b, [c], rep) == ReplaceAll(a, [c], rep) + ReplaceAll(b, [c], rep)
    decreases |a|
  {
    if a == [] {
      assert a + b == b;
    } else {
      var ab := a + b;
      assert ab[1..] == a[1..] + b;
      assert ab[..1] == [a[0]] && a[..1] == [a[0]];
      ReplaceCharConcat(a[1..], b, c, rep);
      if a[0] == c {
        assert ab[1..] == ab[|[c]|..];
      }
    }
  }

  /** Characters Java's `trim` removes: every char at or below U+0020. */
  predicate IsTrimmable(c: char) {
    c <= ' '
  }

  /** `Character.isWhitespace` on one UTF-16 code unit: the Unicode space,
      line and paragraph separators other than the no-break spaces, plus
      the ASCII controls TAB to CR and FS to US. */
  predicate IsJavaWhitespace(c: char) {
    || '\t' <= c <= '\r'
    || '\U{1C}' <= c <= '\U{1F}'
    || c == ' '
    || c == '\U{1680}'
    || '\U{2000}' <= c <= '\U{2006}'
    || '\U{2008}' <= c <= '\U{200A}'
    || c == '\U{2028}' || c == '\U{2029}'
    || c == '\U{205F}'
    || c == '\U{3000}'
  }

  /** The number of blocks of ten decimal digits (general category Nd) in
      the Basic Multilingual Plane: the set of Unicode 15.0, unchanged in
      the BMP since Unicode 7.0. */
  const DigitBlocks: nat := 37

  /** The code point of the zero of the `i`-th digit block. */
  function DigitZero(i: nat): int
    requires i < DigitBlocks
  {
    match i
    case 0 => 0x0030
    case 1 => 0x0660
    case 2 => 0x06F0
    case 3 => 0x07C0
    case 4 => 0x0966
    case 5 => 0x09E6
    case 6 => 0x0A66
    case 7 => 0x0AE6
    case 8 => 0x0B66
    case 9 => 0x0BE6
    case 10 => 0x0C66
    case 11 => 0x0CE6
    case 12 => 0x0D66
    case 13 => 0x0DE6
    case 14 => 0x0E50
    case 15 => 0x0ED0
    case 16 => 0x0F20
    case 17 => 0x1040
    case 18 => 0x1090
    case 19 => 0x17E0
    case 20 => 0x1810
    case 21 => 0x1946
    case 22 => 0x19D0
    case 23 => 0x1A80
    case 24 => 0x1A90
    case 25 => 0x1B50
    case 26 => 0x1BB0
    case 27 => 0x1C40
    case 28 => 0x1C50
    case 29 => 0xA620
    case 30 => 0xA8D0
    case 31 => 0xA900
    case 32 => 0xA9D0
    case 33 => 0xA9F0
    case 34 => 0xAA50
    case 35 => 0xABF0
    case _ => 0xFF10
  }

  /** `c` is a digit of one of the blocks from the `i`-th on. */
  predicate InDigitBlock(c: char, i: nat)
    decreases DigitBlocks - i
  {
    i < DigitBlocks && (DigitZero(i) <= c as int <= DigitZero(i) + 9 || InDigitBlock(c, i + 1))
  }

  /** `Character.isDigit` on one UTF-16 code unit. */
  predicate IsJavaDigit(c: char) {
    InDigitBlock(c, 0)
  }

  /** No digit block holds a whitespace character. */
  lemma {:induction false} DigitBlockNotWhitespace(c: char, i: nat)
    requires InDigitBlock(c, i)
    ensures !IsJavaWhitespace(c)
    decreases DigitBlocks - i
  {
    if !(DigitZero(i) <= c as int <= DigitZero(i) + 9) {
      DigitBlockNotWhitespace(c, i + 1);
    }
  }

  /** Digits and whitespace are disjoint. */
  lemma DigitIsNotWhitespace(c: char)
    requires IsJavaDigit(c)
    ensures !IsJavaWhitespace(c)
  {
    DigitBlockNotWhitespace(c, 0);
  }

  /** Java's first `trim` loop: the index of the first non-trimmable
      character at or after `i`, or the length. */
  function TrimStartIndex(s: string, i: nat): (st: nat)
    requires i <= |s|
    ensures i <= st <= |s|
    ensures forall k :: i <= k < st ==> IsTrimmable(s[k])
    ensures st == |s| || !IsTrimmable(s[st])
    decreases |s| - i
  {
    if i < |s| && IsTrimmable(s[i]) then TrimStartIndex(s, i + 1) else i
  }

  /** Java's second `trim` loop: moves `len` down past trimmable characters,
      never below `st`. */
  function TrimEndIndex(s: string, st: nat, len: nat): (e: nat)
    requires st <= len <= |s|
    ensures st <= e <= len
    ensures forall k :: e <= k < len ==> IsTrimmable(s[k])
    ensures e == st || !IsTrimmable(s[e - 1])
    decreases len
  {
    if st < len && IsTrimmable(s[len - 1]) then TrimEndIndex(s, st, len - 1) else len
  }

  /** `r` is the piece of `s` starting at `i`, and everything around it is
      trimmable. */
  predicate IsTrimmedAt(s: string, r: string, i: int) {
    0 <= i <= |s| - |r| && r == s[i..i + |r|]
    && (forall k :: 0 <= k < i ==> IsTrimmable(s[k]))
    && (forall k :: i + |r| <= k < |s| ==> IsTrimmable(s[k]))
  }

  /** Java's `s.trim()`: the piece of `s` between the leading and trailing
      runs of trimmable characters, with no trimmable character at either
      end. */
  function Trim(s: string): (r: string)
    ensures IsTrimmedAt(s, r, TrimStartIndex(s, 0))
    ensures r == [] || (!IsTrimmable(r[0]) && !IsTrimmable(r[|r| - 1]))
  {
    var st := TrimStartIndex(s, 0);
    s[st..TrimEndIndex(s, st, |s|)]
  }

  /** A string with no trimmable character at either end is its own trim. */
  lemma TrimKeepsTrimmed(s: string)
    requires s == [] || (!IsTrimmable(s[0]) && !IsTrimmable(s[|s| - 1]))
    ensures Trim(s) == s
  {
  }

  /** Every character of `s` from index `from` on is `c` (vacuously true
      when nothing is left). */
  predicate OnlyCharFrom(s: string, c: char, from: nat) {
    forall k :: from <= k < |s| ==> s[k] == c
  }

  /** The pieces of `s[from..]` between occurrences of `c`, empty pieces
      included; each search resumes after the previous separator. */
  function SplitPieces(s: string, c: char, from: nat): (r: seq<string>)
    requires from <= |s|
    ensures |r| >= 1
    decreases |s| - from
  {
    var i := IndexOfChar(s, c, from);
    if i < 0 then [s[from..]] else [s[from..i]] + SplitPieces(s, c, i + 1)
  }

  /** Removes the trailing empty strings of a list. */
  function DropTrailingEmpty(xs: seq<string>): (r: seq<string>)
    ensures |r| <= |xs| && r == xs[..|r|]
    ensures r == [] || r[|r| - 1] != []
    ensures forall k :: |r| <= k < |xs| ==> xs[k] == []
    decreases |xs|
  {
    if xs != [] && xs[|xs| - 1] == [] then DropTrailingEmpty(xs[..|xs| - 1]) else xs
  }

  /** Java's `s.split(String.valueOf(c))` for a non-regex character `c`:
      without any `c` the whole string (even an empty one) is the only
      piece; otherwise the pieces, with trailing empty ones dropped. */
  function JavaSplit(s: string, c: char): (r: seq<string>)
  {
    if IndexOfChar(s, c, 0) < 0 then [s] else DropTrailingEmpty(SplitPieces(s, c, 0))
  }

  /** Dropping trailing empties keeps every list position up to a non-empty
      element. */
  lemma DropTrailingKeeps(xs: seq<string>, k: nat)
    requires k < |xs| && xs[k] != []
    ensures |DropTrailingEmpty(xs)| > k
  {
  }

  /** When every element from position `n` on is empty, at most `n` remain. */
  lemma DropTrailingBound(xs: seq<string>, n: nat)
    requires forall k :: n <= k < |xs| ==> xs[k] == []
    ensures |DropTrailingEmpty(xs)| <= n
  {
    var r := DropTrailingEmpty(xs);
    if |r| > n {
      assert r[|r| - 1] == xs[|r| - 1];
    }
  }

  /** A text made only of separators splits into empty pieces. */
  lemma {:induction false} PiecesOfSeparators(s: string, c: char, from: nat)
    requires from <= |s| && OnlyCharFrom(s, c, from)
    ensures forall k :: 0 <= k < |SplitPieces(s, c, from)| ==> SplitPieces(s, c, from)[k] == []
    decreases |s| - from
  {
    var i := IndexOfChar(s, c, from);
    if i >= 0 {
      assert i == from;
      PiecesOfSeparators(s, c, i + 1);
    } else {
      assert from == |s|;
    }
  }

  /** A character other than the separator at `m` lands in a non-empty piece. */
  lemma {:induction false} PieceHolding(s: string, c: char, from: nat, m: nat) returns (k: nat)
    requires from <= m < |s| && s[m] != c
    ensures k < |SplitPieces(s, c, from)| && SplitPieces(s, c, from)[k] != []
    decreases |s| - from
  {
    var i := IndexOfChar(s, c, from);
    if i < 0 {
      k := 0;
      assert s[from..][m - from] == s[m];
    } else if m < i {
      k := 0;
      assert s[from..i][m - from] == s[m];
    } else {
      assert m != i;
      var k' := PieceHolding(s, c, i + 1, m);
      k := k' + 1;
    }
  }

  /** The first piece runs up to the first separator, or to the end. */
  lemma FirstPiece(s: string, c: char, from: nat, m: nat)
    requires from <= m <= |s| && forall k :: from <= k < m ==> s[k] != c
    requires m == |s| || s[m] == c
    ensures SplitPieces(s, c, from)[0] == s[from..m]
  {
    var i := IndexOfChar(s, c, from);
    if i >= 0 {
      assert i == m;
    }
  }

  /** Dropping trailing empties from a list with a head: the head survives
      when the list has a non-empty element, and a second element survives
      when the tail has one. */
  lemma DropTrailingCons(x: string, tail: seq<string>, k: nat)
    requires k < |[x] + tail| && ([x] + tail)[k] != []
    ensures |DropTrailingEmpty([x] + tail)| > 0 && DropTrailingEmpty([x] + tail)[0] == x
    ensures k > 0 ==> |DropTrailingEmpty([x] + tail)| > 1 && DropTrailingEmpty([x] + tail)[1] == tail[0]
  {
    DropTrailingKeeps([x] + tail, k);
  }

  /** `split` at a first separator `i`: the text before it, then the pieces
      after it, with trailing empty ones dropped. */
  lemma SplitAtFirst(s: string, c: char, i: nat)
    requires IsFirstChar(s, c, 0, i)
    ensures SplitPieces(s, c, 0) == [s[..i]] + SplitPieces(s, c, i + 1)
    ensures JavaSplit(s, c) == DropTrailingEmpty(SplitPieces(s, c, 0))
  {
    assert IndexOfChar(s, c, 0) == i;
    assert s[0..i] == s[..i];
  }

  /** The pieces after `from` are all empty exactly when only separators
      follow. */
  lemma PiecesAllEmpty(s: string, c: char, from: nat)
    requires from <= |s|
    ensures OnlyCharFrom(s, c, from) <==>
      forall k :: 0 <= k < |SplitPieces(s, c, from)| ==> SplitPieces(s, c, from)[k] == []
  {
    if OnlyCharFrom(s, c, from) {
      PiecesOfSeparators(s, c, from);
    } else {
      var m :| from <= m < |s| && s[m] != c;
      var k := PieceHolding(s, c, from, m);
    }
  }

  /** Dropping trailing empties from a list whose head or tail holds a
      non-empty element: the head stays first, and a second element remains
      exactly when the tail holds a non-empty element. */
  lemma DropTrailingParts(x: string, tail: seq<string>, k0: nat)
    requires k0 < |[x] + tail| && ([x] + tail)[k0] != []
    ensures |DropTrailingEmpty([x] + tail)| > 0 && DropTrailingEmpty([x] + tail)[0] == x
    ensures |DropTrailingEmpty([x] + tail)| > 1 <==> !(forall k :: 0 <= k < |tail| ==> tail[k] == [])
    ensures |DropTrailingEmpty([x] + tail)| > 1 ==> DropTrailingEmpty([x] + tail)[1] == tail[0]
  {
    DropTrailingCons(x, tail, k0);
    if forall k :: 0 <= k < |tail| ==> tail[k] == [] {
      DropTrailingBound([x] + tail, 1);
    } else {
      var k1 :| 0 <= k1 < |tail| && tail[k1] != [];
      DropTrailingCons(x, tail, k1 + 1);
    }
  }

  /** What `split` yields for a text with a first separator at `i` and some
      other character at `m`: a first part running up to `i`, and a second
      part exactly when something other than separators follows `i`. */
  lemma SplitParts(s: string, c: char, i: nat, m: nat)
    requires IsFirstChar(s, c, 0, i)
    requires m < |s| && s[m] != c
    ensures |JavaSplit(s, c)| > 0 && JavaSplit(s, c)[0] == s[..i]
    ensures |JavaSplit(s, c)| > 1 <==> !OnlyCharFrom(s, c, i + 1)
    ensures |JavaSplit(s, c)| > 1 ==> JavaSplit(s, c)[1] == SplitPieces(s, c, i + 1)[0]
  {
    SplitAtFirst(s, c, i);
    var k0 := PieceHolding(s, c, 0, m);
    PiecesAllEmpty(s, c, i + 1);
    DropTrailingParts(s[..i], SplitPieces(s, c, i + 1), k0);
  }

  /** Java's `String.join(sep, xs)`. */
  function Join(sep: string, xs: seq<string>): string
    decreases |xs|
  {
    if |xs| == 0 then ""
    else if |xs| == 1 then xs[0]
    else xs[0] + sep + Join(sep, xs[1..])
  }

  /** Joining one more element appends the separator and that element. */
  lemma {:induction false} JoinSnoc(sep: string, xs: seq<string>, x: string)
    requires |xs| > 0
    ensures Join(sep, xs + [x]) == Join(sep, xs) + sep + x
    decreases |xs|
  {
    if |xs| == 1 {
      assert xs + [x] == [xs[0], x];
      assert [xs[0], x][1..] == [x];
    } else {
      assert (xs + [x])[1..] == xs[1..] + [x];
      JoinSnoc(sep, xs[1..], x);
    }
  }

  /** Every element of the list appears verbatim in the joined string. */
  lemma {:induction false} JoinContains(sep: string, xs: seq<string>, i: nat)
    requires i < |xs|
    ensures exists k :: OccursAt(Join(sep, xs), xs[i], k)
    decreases |xs|
  {
    var j := Join(sep, xs);
    if |xs| == 1 {
      assert OccursAt(j, xs[i], 0);
    } else if i == 0 {
      assert j[..|xs[0]|] == xs[0];
      assert OccursAt(j, xs[i], 0);
    } else {
      JoinContains(sep, xs[1..], i - 1);
      var rest := Join(sep, xs[1..]);
      var k :| OccursAt(rest, xs[1..][i - 1], k);
      var off := |xs[0]| + |sep|;
      assert j == xs[0] + sep + rest;
      assert j[off + k..off + k + |xs[i]|] == rest[k..k + |xs[i]|];
      assert OccursAt(j, xs[i], off + k);
    }
  }
}
