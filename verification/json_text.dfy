/** The hand-rolled JSON string handling of ScraperService: finding the end
    of a string literal, and the two `replace` chains used to escape search
    text and to decode extracted values. */
module JsonText {
  import opened Wrappers
  import opened JavaText

  /** Length of the run of backslashes immediately before index `i`, not
      looking back past `start` (where the scan began). */
  function BackslashRun(s: string, start: nat, i: nat): nat
    decreases i
  {
    if i <= start || i > |s| then 0
    else if s[i - 1] == '\\' then BackslashRun(s, start, i - 1) + 1
    else 0
  }

  /** The character at `i` is escaped: an odd number of backslashes precede
      it within the scanned text. */
  predicate Escaped(s: string, start: nat, i: nat) {
    BackslashRun(s, start, i) % 2 == 1
  }

  /** A double quote at `i` that no backslash escapes. */
  predicate UnescapedQuote(s: string, start: nat, i: int) {
    start <= i < |s| && s[i] == '"' && !Escaped(s, start, i)
  }

  /** `e` is the first unescaped quote at or after `start`: the closing quote
      of a string literal whose contents begin at `start`. */
  predicate IsStringEnd(s: string, start: nat, e: int) {
    UnescapedQuote(s, start, e) && forall j :: start <= j < e ==> !UnescapedQuote(s, start, j)
  }

  /** The `for` loop of findStringEnd from index `i` on, `escaped` being the
      flag the loop carries into that iteration. */
  function ScanStringEnd(s: string, start: nat, i: nat, escaped: bool): (r: int)
    requires start <= i
    requires escaped == Escaped(s, start, i)
    ensures r == -1 || (i <= r && UnescapedQuote(s, start, r))
    ensures forall j :: i <= j < (if r == -1 then |s| else r) ==> !UnescapedQuote(s, start, j)
    decreases |s| - i
  {
    if i >= |s| then -1
    else if escaped then ScanStringEnd(s, start, i + 1, false)
    else if s[i] == '\\' then ScanStringEnd(s, start, i + 1, true)
    else if s[i] == '"' then i
    else ScanStringEnd(s, start, i + 1, false)
  }

  /** findStringEnd: the index of the first unescaped `"` at or after
      `start`, or -1 when the literal is never closed. */
  function FindStringEnd(s: string, start: nat): (r: int)
    ensures r == -1 || IsStringEnd(s, start, r)
    ensures r == -1 <==> forall j :: start <= j < |s| ==> !UnescapedQuote(s, start, j)
  {
    ScanStringEnd(s, start, start, false)
  }

  /** escapeJson: backslashes doubled first, then quotes backslash-escaped. */
  function EscapeJson(s: string): string {
    ReplaceAll(ReplaceAll(s, "\\", "\\\\"), "\"", "\\\"")
  }

  /** unescapeJson: five whole-string passes, in this order. An escaped
      newline or tab becomes a space; `\uXXXX`, `\b`, `\f` and `\r` are left
      as they are. */
  function UnescapeJson(s: string): string {
    var s1 := ReplaceAll(s, "\\\"", "\"");
    var s2 := ReplaceAll(s1, "\\/", "/");
    var s3 := ReplaceAll(s2, "\\n", " ");
    var s4 := ReplaceAll(s3, "\\t", " ");
    ReplaceAll(s4, "\\\\", "\\")
  }

  /** Reference escaping of one character. */
  function EscapeChar(c: char): string {
    if c == '\\' || c == '"' then ['\\', c] else [c]
  }

  /** Reference escaping, one character at a time. */
  function EscapeChars(t: string): string
    decreases |t|
  {
    if t == [] then [] else EscapeChar(t[0]) + EscapeChars(t[1..])
  }

  /** The two whole-string passes of escapeJson escape each character
      independently. */
  lemma {:induction false} EscapeJsonIsCharwise(t: string)
    ensures EscapeJson(t) == EscapeChars(t)
    decreases |t|
  {
    if t != [] {
      var c := t[0];
      var rest := t[1..];
      assert t == [c] + rest;
      ReplaceCharConcat([c], rest, '\\', "\\\\");
      var b1 := ReplaceAll([c], "\\", "\\\\");
      assert b1 == (if c == '\\' then "\\\\" else [c]);
      ReplaceCharConcat(b1, ReplaceAll(rest, "\\", "\\\\"), '"', "\\\"");
      if c == '\\' {
        assert ReplaceAll(b1, "\"", "\\\"") == "\\\\" by {
          assert b1 == ['\\'] + ['\\'];
          ReplaceAllAbsent(b1, "\"", "\\\"", 0);
        }
      } else {
        assert ReplaceAll(b1, "\"", "\\\"") == EscapeChar(c);
      }
      EscapeJsonIsCharwise(rest);
    }
  }

  /** Scanning across a backslash pair that begins unescaped skips both
      characters and ends unescaped unless the second one is a backslash. */
  lemma ScanBackslashPair(s: string, start: nat, i: nat)
    requires start <= i && i + 2 <= |s| && s[i] == '\\'
    requires !Escaped(s, start, i)
    ensures Escaped(s, start, i + 1)
    ensures BackslashRun(s, start, i + 2) == (if s[i + 1] == '\\' then BackslashRun(s, start, i) + 2 else 0)
    ensures ScanStringEnd(s, start, i, false) == ScanStringEnd(s, start, i + 2, false)
  {
    assert BackslashRun(s, start, i + 1) == BackslashRun(s, start, i) + 1;
    assert ScanStringEnd(s, start, i, false) == ScanStringEnd(s, start, i + 1, true);
  }

  /** Scanning across the escaped form of one character that begins
      unescaped finds no closing quote and ends unescaped. */
  lemma ScanChunk(s: string, start: nat, i: nat, c: char)
    requires start <= i && HoldsAt(s, i, EscapeChar(c))
    requires !Escaped(s, start, i)
    ensures !Escaped(s, start, i + |EscapeChar(c)|)
    ensures ScanStringEnd(s, start, i, false) == ScanStringEnd(s, start, i + |EscapeChar(c)|, false)
  {
    var e := EscapeChar(c);
    assert s[i + 0] == e[0];
    if c == '\\' || c == '"' {
      assert s[i + 1] == e[1] == c;
      ScanBackslashPair(s, start, i);
    } else {
      assert BackslashRun(s, start, i + 1) == 0;
    }
  }

  lemma EscapeCharsCons(t: string)
    requires t != []
    ensures EscapeChars(t) == EscapeChar(t[0]) + EscapeChars(t[1..])
  {
  }

  /** Scanning across an escaped text that begins unescaped finds no closing
      quote and ends unescaped. */
  lemma {:induction false} ScanSkipsEscaped(s: string, start: nat, i: nat, t: string)
    requires start <= i && HoldsAt(s, i, EscapeChars(t))
    requires !Escaped(s, start, i)
    ensures !Escaped(s, start, i + |EscapeChars(t)|)
    ensures ScanStringEnd(s, start, i, false) == ScanStringEnd(s, start, i + |EscapeChars(t)|, false)
    decreases |t|
  {
    if t != [] {
      EscapeCharsCons(t);
      HoldsAtSplit(s, i, EscapeChar(t[0]), EscapeChars(t[1..]));
      ScanChunk(s, start, i, t[0]);
      ScanSkipsEscaped(s, start, i + |EscapeChar(t[0])|, t[1..]);
    }
  }

  /** Text passed through escapeJson and followed by a quote closes exactly at
      that quote: the embedded text cannot end its string literal early. */
  lemma EscapedTextClosesAtEnd(pre: string, t: string, post: string)
    ensures FindStringEnd(pre + EscapeJson(t) + "\"" + post, |pre|) == |pre| + |EscapeJson(t)|
  {
    var e := EscapeJson(t);
    var s := pre + e + "\"" + post;
    EscapeJsonIsCharwise(t);
    assert HoldsAt(s, |pre|, e) by {
      forall k | 0 <= k < |e|
        ensures s[|pre| + k] == e[k]
      {
      }
    }
    ScanSkipsEscaped(s, |pre|, |pre|, t);
    assert s[|pre| + |e|] == '"';
  }

  /** Escaping only quotes, as escapeJson does to text without backslashes. */
  function QuoteEscaped(t: string): string
    decreases |t|
  {
    if t == [] then [] else (if t[0] == '"' then "\\\"" else [t[0]]) + QuoteEscaped(t[1..])
  }

  lemma {:induction false} EscapeCharsWithoutBackslash(t: string)
    requires '\\' !in t
    ensures EscapeChars(t) == QuoteEscaped(t)
    decreases |t|
  {
    if t != [] {
      EscapeCharsWithoutBackslash(t[1..]);
    }
  }

  /** The first pass of unescapeJson undoes quote escaping. */
  lemma {:induction false} UnquotePass(t: string)
    requires '\\' !in t
    ensures ReplaceAll(QuoteEscaped(t), "\\\"", "\"") == t
    decreases |t|
  {
    if t != [] {
      var q := QuoteEscaped(t);
      var rest := QuoteEscaped(t[1..]);
      UnquotePass(t[1..]);
      if t[0] == '"' {
        assert q == "\\\"" + rest;
        assert q[..2] == "\\\"" && q[2..] == rest;
      } else {
        assert q == [t[0]] + rest;
        assert q[1..] == rest;
        if |q| >= 2 {
          assert q[..2][0] == t[0];
        }
      }
      assert [t[0]] + t[1..] == t;
    }
  }

  /** On text without backslashes, unescapeJson inverts escapeJson. */
  lemma UnescapeInvertsEscapeWithoutBackslash(t: string)
    requires '\\' !in t
    ensures UnescapeJson(EscapeJson(t)) == t
  {
    EscapeJsonIsCharwise(t);
    EscapeCharsWithoutBackslash(t);
    UnquotePass(t);
    ReplaceAllAbsent(t, "\\/", "/", 0);
    ReplaceAllAbsent(t, "\\n", " ", 0);
    ReplaceAllAbsent(t, "\\t", " ", 0);
    ReplaceAllAbsent(t, "\\\\", "\\", 0);
  }

  /** With a backslash it need not: a backslash followed by `n` comes back as
      a backslash followed by a space. */
  lemma UnescapeDoesNotInvertEscape()
    ensures UnescapeJson(EscapeJson("\\n")) == "\\ "
  {
    var e := "\\\\n";
    EscapeJsonIsCharwise("\\n");
    assert EscapeJson("\\n") == e;
    ReplaceAllAbsent(e, "\\\"", "\"", 1);
    ReplaceAllAbsent(e, "\\/", "/", 1);
    assert e[..2] != "\\n";
    assert e[1..][..2] == "\\n";
    assert ReplaceAll(e, "\\n", " ") == "\\ ";
    ReplaceAllAbsent("\\ ", "\\t", " ", 1);
    assert ("\\ ")[..2] != "\\\\";
  }

  /** What the second character of an escape pair stands for, among the
      pairs unescapeJson knows: `\"`, `\/`, `\n` and `\t` (both shown as a
      space) and `\\`. */
  function EscapedMeaning(c: char): Option<char> {
    if c == '"' then Some('"')
    else if c == '/' then Some('/')
    else if c == 'n' || c == 't' then Some(' ')
    else if c == '\\' then Some('\\')
    else None
  }

  /** unescapeJson as intended: one left-to-right pass that reads each known
      escape pair as a unit, so a pair is never formed from the second
      character of an earlier one. A backslash that starts no known pair is
      kept as it is. */
  function UnescapeOnePass(s: string): (r: string)
    decreases |s|
  {
    if s == [] then []
    else if s[0] == '\\' && |s| >= 2 && EscapedMeaning(s[1]).Some? then
      [EscapedMeaning(s[1]).value] + UnescapeOnePass(s[2..])
    else [s[0]] + UnescapeOnePass(s[1..])
  }

  /** The one-pass decoder undoes the escaping of any text: every text
      survives the round trip through the request body format. */
  lemma {:induction false} UnescapeOnePassInvertsEscape(t: string)
    ensures UnescapeOnePass(EscapeJson(t)) == t
  {
    EscapeJsonIsCharwise(t);
    UnescapeOnePassInvertsChars(t);
  }

  lemma {:induction false} UnescapeOnePassInvertsChars(t: string)
    ensures UnescapeOnePass(EscapeChars(t)) == t
    decreases |t|
  {
    if t != [] {
      var e := EscapeChar(t[0]);
      var rest := EscapeChars(t[1..]);
      assert EscapeChars(t) == e + rest;
      UnescapeOnePassInvertsChars(t[1..]);
      if t[0] == '\\' || t[0] == '"' {
        assert (e + rest)[2..] == rest;
      } else {
        assert (e + rest)[1..] == rest;
      }
      assert [t[0]] + t[1..] == t;
    }
  }

  /** The JSON text `C:\\new` stands for `C:\new`, and the one-pass
      decoder reads it so: the backslash pair is one character, and the `n`
      after it is a letter. */
  lemma UnescapeOnePassReadsPairsOnce()
    ensures UnescapeOnePass("C:\\\\new") == "C:\\new"
  {
  }
}
