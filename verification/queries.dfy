/** The query texts ScraperService builds before calling out: the
    professor-name split, the search text embedded in the rating request,
    the rating request document itself, and the repository search query. */
module Queries {
  import opened JavaText
  import opened JsonText

  /** The rating provider's school identifier the request embeds. */
  const SchoolId: string := "U2Nob29sLTEwOTQ="

  /** A professor name split into the two parts the rating query uses. */
  datatype PersonName = PersonName(lastName: string, firstName: string)

  /** `professorName.split(",")`: the first piece trimmed is the last name,
      the second piece trimmed is the first name. When every piece is empty
      (a name made only of commas) Java's split yields no pieces at all and
      the whole name, trimmed, becomes the last name. */
  function NameParts(professorName: string): PersonName {
    var parts := JavaSplit(professorName, ',');
    var lastName := if |parts| > 0 then Trim(parts[0]) else Trim(professorName);
    var firstName := if |parts| > 1 then Trim(parts[1]) else "";
    PersonName(lastName, firstName)
  }

  /** A name without a comma is all last name. */
  lemma NamePartsWithoutComma(s: string)
    requires ',' !in s
    ensures NameParts(s) == PersonName(Trim(s), "")
  {
    assert IndexOfChar(s, ',', 0) < 0;
  }

  /** A name made only of commas is kept whole as the last name (trimming
      changes nothing, a comma not being trimmable). */
  lemma NamePartsOnlyCommas(s: string)
    requires s != [] && OnlyCharFrom(s, ',', 0)
    ensures NameParts(s) == PersonName(s, "")
  {
    assert s[0] == ',';
    PiecesOfSeparators(s, ',', 0);
    DropTrailingBound(SplitPieces(s, ',', 0), 0);
    TrimKeepsTrimmed(s);
  }

  /** With a comma at `i` (the first) and the next comma at `j` (or the end
      at `j`), and some character other than a comma at `m`, the last name
      is the trimmed text before `i` and the first name the trimmed text
      between `i` and `j` -- unless nothing but commas follows `i`, in which
      case the first name is empty. */
  lemma NamePartsAtComma(s: string, i: nat, j: nat, m: nat)
    requires i < j <= |s|
    requires IsFirstChar(s, ',', 0, i)
    requires forall k :: i < k < j ==> s[k] != ','
    requires j == |s| || s[j] == ','
    requires m < |s| && s[m] != ','
    ensures NameParts(s).lastName == Trim(s[..i])
    ensures NameParts(s).firstName == if OnlyCharFrom(s, ',', i + 1) then "" else Trim(s[i + 1..j])
  {
    SplitParts(s, ',', i, m);
    if !OnlyCharFrom(s, ',', i + 1) {
      FirstPiece(s, ',', i + 1, j);
    }
  }

  /** The search text sent to the rating provider: first name, a space, the
      last name, escaped for a JSON string literal. */
  function SearchText(professorName: string): string {
    var name := NameParts(professorName);
    EscapeJson(name.firstName + " " + name.lastName)
  }

  /** The request document up to and including the quote that opens the
      search text. */
  const RequestHead: string :=
    "{" +
    "\"operationName\":\"SearchTeacher\"," +
    "\"query\":\"query SearchTeacher($query: TeacherSearchQuery!) {\n" +
    "  newSearch {\n" +
    "    teachers(query: $query) {\n" +
    "      edges {\n" +
    "        node {\n" +
    "          firstName\n" +
    "          lastName\n" +
    "          avgRating\n" +
    "          numRatings\n" +
    "        }\n" +
    "      }\n" +
    "    }\n" +
    "  }\n" +
    "}\", " +
    "\"variables\":{" +
    "\"query\":{" +
    "\"text\":\""

  /** The request document after the search text, from its closing quote on. */
  function RequestTail(): string {
    "\"," +
    "\"schoolID\":\"" + EscapeJson(SchoolId) + "\"," +
    "\"fallback\":true" +
    "}" +
    "}" +
    "}"
  }

  /** The rating request document, with the search text embedded. */
  function RatingRequestBody(professorName: string): string {
    RequestHead + SearchText(professorName) + RequestTail()
  }

  /** Text passed through escapeJson between a document head ending in a
      quote and a tail starting with one sits in a string literal that opens
      right before it and closes right after it. */
  lemma EmbeddedLiteralIsClosed(head: string, t: string, tail: string)
    requires head != [] && head[|head| - 1] == '"'
    requires tail != [] && tail[0] == '"'
    ensures (head + EscapeJson(t) + tail)[|head| - 1] == '"'
    ensures FindStringEnd(head + EscapeJson(t) + tail, |head|) == |head| + |EscapeJson(t)|
  {
    var post := tail[1..];
    assert tail == "\"" + post;
    assert head + EscapeJson(t) + tail == head + EscapeJson(t) + "\"" + post;
    EscapedTextClosesAtEnd(head, t, post);
  }

  /** The search text's string literal in the request opens right before it
      and closes right after it, whatever the professor name holds. */
  lemma SearchTextLiteralIsClosed(professorName: string)
    ensures RatingRequestBody(professorName)[|RequestHead| - 1] == '"'
    ensures FindStringEnd(RatingRequestBody(professorName), |RequestHead|)
            == |RequestHead| + |SearchText(professorName)|
  {
    var name := NameParts(professorName);
    EmbeddedLiteralIsClosed(RequestHead, name.firstName + " " + name.lastName, RequestTail());
  }

  /** The fixed institution qualifier appended to the repository query. */
  const Qualifier: string := "UVA"

  /** The repository search text before trimming. */
  function RawGithubQuery(professorName: string, courseId: string): string {
    courseId + " " + professorName + " " + Qualifier
  }

  /** The repository search text: course, professor name and the fixed
      institution qualifier, trimmed. */
  function GithubQuery(professorName: string, courseId: string): string {
    Trim(RawGithubQuery(professorName, courseId))
  }

  /** Trimming only ever removes leading text from the repository query: it
      is a suffix of the untrimmed text, still ends with the qualifier and
      starts with a visible character. */
  lemma GithubQueryShape(professorName: string, courseId: string)
    ensures EndsWith(RawGithubQuery(professorName, courseId), GithubQuery(professorName, courseId))
    ensures EndsWith(GithubQuery(professorName, courseId), Qualifier)
    ensures !IsTrimmable(GithubQuery(professorName, courseId)[0])
  {
    TrimKeepsVisibleEnd(courseId + " " + professorName + " ", Qualifier);
  }

  /** A course id that starts with a visible character leaves the repository
      query untrimmed. */
  lemma GithubQueryUntrimmed(professorName: string, courseId: string)
    requires courseId != [] && !IsTrimmable(courseId[0])
    ensures GithubQuery(professorName, courseId) == RawGithubQuery(professorName, courseId)
  {
    var pre := courseId + " " + professorName + " ";
    assert pre[0] == courseId[0];
    TrimKeepsVisibleEnd(pre, Qualifier);
  }

  /** Trimming text whose tail from `m` on is visible removes only leading
      characters, and none from that tail. */
  lemma TrimVisibleTail(raw: string, m: nat)
    requires m < |raw| && forall k :: m <= k < |raw| ==> !IsTrimmable(raw[k])
    ensures TrimStartIndex(raw, 0) <= m
    ensures Trim(raw) == raw[TrimStartIndex(raw, 0)..]
  {
    var i := TrimStartIndex(raw, 0);
    assert !IsTrimmable(raw[m]);
    assert !IsTrimmable(raw[|raw| - 1]);
    assert TrimEndIndex(raw, i, |raw|) == |raw|;
  }

  /** Dropping a prefix leaves a suffix, and dropping a longer prefix
      leaves a suffix of that suffix. */
  lemma DropsAreSuffixes(s: string, i: nat, j: nat)
    requires i <= j <= |s|
    ensures EndsWith(s, s[i..])
    ensures EndsWith(s[i..], s[j..])
  {
    assert s[i..][j - i..] == s[j..];
  }

  /** Every character of a visible word stays visible after any prefix. */
  lemma VisibleWordTail(pre: string, word: string)
    requires forall k :: 0 <= k < |word| ==> !IsTrimmable(word[k])
    ensures forall k :: |pre| <= k < |pre + word| ==> !IsTrimmable((pre + word)[k])
    ensures (pre + word)[|pre|..] == word
  {
    forall k | |pre| <= k < |pre + word|
      ensures !IsTrimmable((pre + word)[k])
    {
      assert (pre + word)[k] == word[k - |pre|];
    }
  }

  /** Trimming text that ends with a visible word keeps that word whole, and
      keeps the whole text when it also starts visibly. */
  lemma TrimKeepsVisibleEnd(pre: string, word: string)
    requires word != [] && forall k :: 0 <= k < |word| ==> !IsTrimmable(word[k])
    ensures EndsWith(pre + word, Trim(pre + word))
    ensures EndsWith(Trim(pre + word), word)
    ensures Trim(pre + word) != [] && !IsTrimmable(Trim(pre + word)[0])
    ensures pre != [] && !IsTrimmable(pre[0]) ==> Trim(pre + word) == pre + word
  {
    var raw := pre + word;
    VisibleWordTail(pre, word);
    TrimVisibleTail(raw, |pre|);
    var i := TrimStartIndex(raw, 0);
    var t := Trim(raw);
    assert t == raw[i..];
    DropsAreSuffixes(raw, i, |pre|);
    assert t[0] == raw[i];
    if pre != [] && !IsTrimmable(pre[0]) {
      assert raw[0] == pre[0];
      assert i == 0;
    }
  }
}
