/** The scraper's string-scanning extraction from fetched response bodies:
    the first `avgRating` number of the rating response, the first three
    `title` values of the discussion search, the first three
    `full_name`/`html_url` pairs of the repository search, and the one-line
    summary built from the titles.

    The scans are stated for any key; the service uses them with the fixed
    keys below. Keeping the key a parameter keeps the proofs independent of
    its characters. */
module Extraction {
  import opened Wrappers
  import opened JavaText
  import opened JsonText

  const TitleKey: string := "\"title\""
  const FullNameKey: string := "\"full_name\""
  const HtmlUrlKey: string := "\"html_url\""
  const AvgRatingKey: string := "\"avgRating\""

  /** At most this many titles or repositories are collected. */
  const MaxResults: nat := 3

  /** Where one `"key": "value"` field sits in a body: the key's first
      character, the colon after it, the quote opening the value and the
      quote closing it. */
  datatype FieldSpan = FieldSpan(key: nat, colon: nat, open: nat, close: nat)

  /** `sp` is what the scanning steps find for `key` when searching from
      `from`: the first occurrence of the key, the first colon from the key
      on, the first quote after that colon, and the first unescaped quote
      after that. Nothing is required of the text in between. */
  predicate FieldAt(json: string, key: string, from: nat, sp: FieldSpan) {
    && IsFirstOccurrence(json, key, from, sp.key)
    && IsFirstChar(json, ':', sp.key, sp.colon)
    && IsFirstChar(json, '"', sp.colon + 1, sp.open)
    && IsStringEnd(json, sp.open + 1, sp.close)
  }

  /** A field's parts come in order, after the search start. */
  lemma FieldAtOrder(json: string, key: string, from: nat, sp: FieldSpan)
    requires FieldAt(json, key, from, sp)
    ensures from <= sp.key <= sp.colon < sp.open < sp.close < |json|
  {
  }

  /** The raw (still escaped) value text between the two quotes. */
  function FieldText(json: string, sp: FieldSpan): string
    requires sp.open < sp.close <= |json|
  {
    json[sp.open + 1..sp.close]
  }

  /** The scanning steps leave no choice: a field found from `from` is
      unique. */
  lemma FieldAtUnique(json: string, key: string, from: nat, a: FieldSpan, b: FieldSpan)
    requires FieldAt(json, key, from, a) && FieldAt(json, key, from, b)
    ensures a == b
  {
    FirstOccurrenceUnique(json, key, from, a.key, b.key);
    FirstCharUnique(json, ':', a.key, a.colon, b.colon);
    FirstCharUnique(json, '"', a.colon + 1, a.open, b.open);
  }

  /** A field in the place the scanning steps look is where each of the
      four searches lands. */
  lemma SearchesLandOnField(json: string, key: string, from: nat, sp: FieldSpan)
    requires |key| > 0 && FieldAt(json, key, from, sp)
    ensures IndexOf(json, key, from) == sp.key
    ensures IndexOfChar(json, ':', sp.key) == sp.colon
    ensures IndexOfChar(json, '"', sp.colon + 1) == sp.open
    ensures FindStringEnd(json, sp.open + 1) == sp.close
  {
    FirstOccurrenceUnique(json, key, from, IndexOf(json, key, from), sp.key);
    FirstCharUnique(json, ':', sp.key, IndexOfChar(json, ':', sp.key), sp.colon);
    FirstCharUnique(json, '"', sp.colon + 1, IndexOfChar(json, '"', sp.colon + 1), sp.open);
  }

  lemma SearchesLandOnEveryField(json: string, key: string, from: nat)
    requires |key| > 0
    ensures forall sp :: FieldAt(json, key, from, sp) ==> IndexOf(json, key, from) == sp.key
    ensures forall sp :: FieldAt(json, key, from, sp) ==> IndexOfChar(json, ':', sp.key) == sp.colon
    ensures forall sp :: FieldAt(json, key, from, sp) ==> IndexOfChar(json, '"', sp.colon + 1) == sp.open
    ensures forall sp :: FieldAt(json, key, from, sp) ==> FindStringEnd(json, sp.open + 1) == sp.close
  {
    forall sp | FieldAt(json, key, from, sp)
      ensures IndexOf(json, key, from) == sp.key
      ensures IndexOfChar(json, ':', sp.key) == sp.colon
      ensures IndexOfChar(json, '"', sp.colon + 1) == sp.open
      ensures FindStringEnd(json, sp.open + 1) == sp.close
    {
      SearchesLandOnField(json, key, from, sp);
    }
  }

  /** The four searches that locate one string field, giving up (None)
      at the first search that comes back -1. */
  function FindField(json: string, key: string, from: nat): (r: Option<FieldSpan>)
    requires |key| > 0
    ensures r.Some? ==> FieldAt(json, key, from, r.value)
    ensures r.None? ==> forall sp :: !FieldAt(json, key, from, sp)
  {
    SearchesLandOnEveryField(json, key, from);
    var k := IndexOf(json, key, from);
    if k < 0 then None
    else
      var colon := IndexOfChar(json, ':', k);
      if colon < 0 then None
      else
        var open := IndexOfChar(json, '"', colon + 1);
        if open < 0 then None
        else
          var close := FindStringEnd(json, open + 1);
          if close < 0 then None
          else Some(FieldSpan(k, colon, open, close))
  }

  /** Whenever a body holds a field in the place the scanning steps look,
      the search returns exactly that field. */
  lemma FindFieldFindsFirst(json: string, key: string, from: nat, sp: FieldSpan)
    requires |key| > 0 && FieldAt(json, key, from, sp)
    ensures FindField(json, key, from) == Some(sp)
  {
    var r := FindField(json, key, from);
    if r.Some? {
      FieldAtUnique(json, key, from, r.value, sp);
    }
  }

  /** A character the number scan accepts: a digit or a dot. */
  predicate IsNumberChar(c: char) {
    IsJavaDigit(c) || c == '.'
  }

  /** The number scan never accepts whitespace. */
  lemma NumberCharNotWhitespace(c: char)
    requires IsNumberChar(c)
    ensures !IsJavaWhitespace(c)
  {
    if c != '.' {
      DigitIsNotWhitespace(c);
    }
  }

  /** Where a number field sits: the key, the colon after it, and the
      half-open range of number characters that follow the colon after any
      whitespace. */
  datatype NumberSpan = NumberSpan(key: nat, colon: nat, start: nat, end: nat)

  /** `sp` is a non-empty number token found by the scanning steps: the
      first occurrence of the key, the first colon from there, whitespace,
      then a maximal run of number characters. */
  predicate NumberAt(body: string, key: string, sp: NumberSpan) {
    && IsFirstOccurrence(body, key, 0, sp.key)
    && IsFirstChar(body, ':', sp.key, sp.colon)
    && sp.colon < sp.start < sp.end <= |body|
    && (forall k :: sp.colon < k < sp.start ==> IsJavaWhitespace(body[k]))
    && (forall k :: sp.start <= k < sp.end ==> IsNumberChar(body[k]))
    && (sp.end == |body| || !IsNumberChar(body[sp.end]))
  }

  /** The first `while` loop: skip whitespace from `i`. */
  function SkipWhitespace(s: string, i: nat): (r: nat)
    requires i <= |s|
    ensures i <= r <= |s|
    ensures forall k :: i <= k < r ==> IsJavaWhitespace(s[k])
    ensures r == |s| || !IsJavaWhitespace(s[r])
    decreases |s| - i
  {
    if i < |s| && IsJavaWhitespace(s[i]) then SkipWhitespace(s, i + 1) else i
  }

  /** The second `while` loop: skip digits and dots from `i`. */
  function SkipNumber(s: string, i: nat): (r: nat)
    requires i <= |s|
    ensures i <= r <= |s|
    ensures forall k :: i <= k < r ==> IsNumberChar(s[k])
    ensures r == |s| || !IsNumberChar(s[r])
    decreases |s| - i
  {
    if i < |s| && IsNumberChar(s[i]) then SkipNumber(s, i + 1) else i
  }

  /** The rating scan, for key `"avgRating"`: the key, a colon, whitespace
      and a run of number characters. None in exactly three cases: the key
      is missing, no colon follows it, or the run is empty. */
  function LocateNumber(body: string, key: string): (r: Option<NumberSpan>)
    requires |key| > 0
    ensures r.Some? ==> NumberAt(body, key, r.value)
    ensures r.None? <==>
      || IndexOf(body, key, 0) < 0
      || IndexOfChar(body, ':', IndexOf(body, key, 0)) < 0
      || SkipNumber(body, SkipWhitespace(body, IndexOfChar(body, ':', IndexOf(body, key, 0)) + 1))
         == SkipWhitespace(body, IndexOfChar(body, ':', IndexOf(body, key, 0)) + 1)
  {
    var k := IndexOf(body, key, 0);
    if k < 0 then None
    else
      var colon := IndexOfChar(body, ':', k);
      if colon < 0 then None
      else
        var start := SkipWhitespace(body, colon + 1);
        var end := SkipNumber(body, start);
        if end == start then None
        else Some(NumberSpan(k, colon, start, end))
  }

  /** The scan has no choice: a number found in a body is unique. */
  lemma NumberAtUnique(body: string, key: string, a: NumberSpan, b: NumberSpan)
    requires NumberAt(body, key, a) && NumberAt(body, key, b)
    ensures a == b
  {
    FirstOccurrenceUnique(body, key, 0, a.key, b.key);
    FirstCharUnique(body, ':', a.key, a.colon, b.colon);
    NumberCharNotWhitespace(body[a.start]);
    NumberCharNotWhitespace(body[b.start]);
  }

  /** Any number in the expected place is the one the scan returns. */
  lemma LocateNumberComplete(body: string, key: string, sp: NumberSpan)
    requires |key| > 0 && NumberAt(body, key, sp)
    ensures LocateNumber(body, key) == Some(sp)
  {
    var r := LocateNumber(body, key);
    FirstOccurrenceUnique(body, key, 0, IndexOf(body, key, 0), sp.key);
    FirstCharUnique(body, ':', sp.key, IndexOfChar(body, ':', sp.key), sp.colon);
    var start := SkipWhitespace(body, sp.colon + 1);
    NumberCharNotWhitespace(body[sp.start]);
    assert start == sp.start;
    assert r.Some?;
    NumberAtUnique(body, key, r.value, sp);
  }

  /** Every number in the expected place is the one the scan returns. */
  lemma LocateNumberExact(body: string, key: string)
    requires |key| > 0
    ensures forall sp :: NumberAt(body, key, sp) ==> LocateNumber(body, key) == Some(sp)
  {
    forall sp | NumberAt(body, key, sp)
      ensures LocateNumber(body, key) == Some(sp)
    {
      LocateNumberComplete(body, key, sp);
    }
  }

  /** The number text the rating fetch hands to `Double.parseDouble`:
      digits and dots only, never empty; present exactly when a number sits
      in the expected place, and then that number. */
  function ExtractAvgRating(body: string): (r: Option<string>)
    ensures r.Some? ==> r.value != [] && forall k :: 0 <= k < |r.value| ==> IsNumberChar(r.value[k])
    ensures r.Some? <==> exists sp :: NumberAt(body, AvgRatingKey, sp)
    ensures forall sp :: NumberAt(body, AvgRatingKey, sp) ==> r == Some(body[sp.start..sp.end])
  {
    LocateNumberExact(body, AvgRatingKey);
    match LocateNumber(body, AvgRatingKey)
    case None => None
    case Some(sp) =>
      assert NumberAt(body, AvgRatingKey, sp);
      Some(body[sp.start..sp.end])
  }

  /** A digit run may mix scripts: an ASCII digit followed by ARABIC-INDIC
      DIGIT THREE is one number, which the parser then rejects. */
  lemma AvgRatingReadsAnyDecimalDigit()
    ensures ExtractAvgRating("\"avgRating\":4٣") == Some("4٣")
  {
    var body := "\"avgRating\":4٣";
    assert OccursAt(body, AvgRatingKey, 0);
    assert body[11] == ':';
    assert IsJavaDigit(body[12]) && IsJavaDigit(body[13]);
    assert NumberAt(body, AvgRatingKey, NumberSpan(0, 11, 12, 14));
    assert body[12..14] == "4٣";
  }

  /** The outcome of the rating fetch given the outcome of the request
      (Failed when the call threw) and a model of `Double.parseDouble`
      (None when it throws NumberFormatException). A body with no number
      in the expected place gives a null rating; a number that does not
      parse is an exception, like a failed call; otherwise the rating is
      the parsed number. */
  function RatingFromResponse(response: Fetch<string>, parse: string -> Option<real>): (r: Fetch<Option<real>>)
    ensures r == Ok(None) <==> response.Ok? && forall sp :: !NumberAt(response.value, AvgRatingKey, sp)
    ensures r.Failed? <==>
      || response.Failed?
      || (response.Ok? && exists sp :: NumberAt(response.value, AvgRatingKey, sp)
                                        && parse(response.value[sp.start..sp.end]).None?)
    ensures r.Ok? && r.value.Some? <==>
      response.Ok? && exists sp :: NumberAt(response.value, AvgRatingKey, sp)
                                   && parse(response.value[sp.start..sp.end]).Some?
    ensures r.Ok? && r.value.Some? ==>
      forall sp :: NumberAt(response.value, AvgRatingKey, sp) ==> r.value == parse(response.value[sp.start..sp.end])
  {
    match response
    case Failed => Failed
    case Ok(body) =>
      match ExtractAvgRating(body)
      case None => Ok(None)
      case Some(token) =>
        match parse(token)
        case None => Failed
        case Some(x) => Ok(Some(x))
  }

  /** Where the `k`-th search of a scan starts: the top of the body, then
      one past the closing quote of the previous field. */
  function Cursor(spans: seq<FieldSpan>, k: nat): nat
    requires k <= |spans|
  {
    if k == 0 then 0 else spans[k - 1].close + 1
  }

  /** `value` is the decoded value of the `key` field found from `from`. */
  predicate ValueAt(json: string, key: string, from: nat, sp: FieldSpan, value: string) {
    FieldAt(json, key, from, sp) && value == UnescapeJson(FieldText(json, sp))
  }

  /** What the value scan promises of its result and the spans it read:
      at most three values, the `k`-th found from the `k`-th cursor, and
      fewer than three only when no further field can be found. */
  ghost predicate ValuesScanned(json: string, key: string, values: seq<string>, spans: seq<FieldSpan>) {
    && |values| == |spans| <= MaxResults
    && (forall k {:trigger ValueAt(json, key, Cursor(spans, k), spans[k], values[k])} ::
          0 <= k < |spans| ==> ValueAt(json, key, Cursor(spans, k), spans[k], values[k]))
    && (|values| < MaxResults ==> forall sp :: !FieldAt(json, key, Cursor(spans, |spans|), sp))
  }

  /** Appending the value found at the cursor keeps every earlier value
      where it was found. */
  lemma ValuesSnoc(json: string, key: string, spans: seq<FieldSpan>, values: seq<string>, sp: FieldSpan, v: string)
    requires |values| == |spans|
    requires forall k {:trigger ValueAt(json, key, Cursor(spans, k), spans[k], values[k])} ::
      0 <= k < |spans| ==> ValueAt(json, key, Cursor(spans, k), spans[k], values[k])
    requires ValueAt(json, key, Cursor(spans, |spans|), sp, v)
    ensures forall k {:trigger ValueAt(json, key, Cursor(spans + [sp], k), (spans + [sp])[k], (values + [v])[k])} ::
      0 <= k < |spans| + 1 ==> ValueAt(json, key, Cursor(spans + [sp], k), (spans + [sp])[k], (values + [v])[k])
  {
    forall k | 0 <= k < |spans| + 1
      ensures ValueAt(json, key, Cursor(spans + [sp], k), (spans + [sp])[k], (values + [v])[k])
    {
      if k < |spans| {
        assert (spans + [sp])[k] == spans[k] && (values + [v])[k] == values[k];
        assert Cursor(spans + [sp], k) == Cursor(spans, k);
        assert ValueAt(json, key, Cursor(spans, k), spans[k], values[k]);
      } else {
        assert (spans + [sp])[k] == sp && (values + [v])[k] == v;
        assert Cursor(spans + [sp], k) == Cursor(spans, k);
      }
    }
  }

  /** Values found one after another come in body order: each key starts
      after the previous value's closing quote. */
  lemma ValuesInOrder(json: string, key: string, spans: seq<FieldSpan>, values: seq<string>)
    requires ValuesScanned(json, key, values, spans)
    ensures forall k :: 0 < k < |spans| ==> spans[k - 1].close < spans[k].key
  {
    forall k | 0 < k < |spans|
      ensures spans[k - 1].close < spans[k].key
    {
      assert ValueAt(json, key, Cursor(spans, k), spans[k], values[k]);
    }
  }

  /** The loop of the title scan, for any key: up to three string values,
      each searched for from just after the previous one, decoded with
      unescapeJson. */
  method ScanValues(json: string, key: string) returns (values: seq<string>, ghost spans: seq<FieldSpan>)
    requires |key| > 0
    ensures |values| <= MaxResults
    ensures ValuesScanned(json, key, values, spans)
  {
    values, spans := [], [];
    var from: nat := 0;
    while |values| < MaxResults
      invariant |values| == |spans| <= MaxResults
      invariant from == Cursor(spans, |spans|) && from <= |json|
      invariant forall k {:trigger ValueAt(json, key, Cursor(spans, k), spans[k], values[k])} ::
        0 <= k < |spans| ==> ValueAt(json, key, Cursor(spans, k), spans[k], values[k])
      decreases |json| - from
    {
      var found := FindField(json, key, from);
      if found.None? {
        break;
      }
      var sp := found.value;
      FieldAtOrder(json, key, from, sp);
      var value := UnescapeJson(json[sp.open + 1..sp.close]);
      ValuesSnoc(json, key, spans, values, sp, value);
      values := values + [value];
      spans := spans + [sp];
      from := sp.close + 1;
    }
  }

  /** Two values found from the same cursor are the same value. */
  lemma ValueAtUnique(json: string, key: string, from: nat, sp1: FieldSpan, v1: string, sp2: FieldSpan, v2: string)
    requires ValueAt(json, key, from, sp1, v1) && ValueAt(json, key, from, sp2, v2)
    ensures sp1 == sp2 && v1 == v2
  {
    FieldAtUnique(json, key, from, sp1, sp2);
  }

  /** What a scan says about its `k`-th cursor: a field was found there,
      or the scan stopped there because none can be. */
  lemma ValuesScannedAt(json: string, key: string, values: seq<string>, spans: seq<FieldSpan>, k: nat)
    requires ValuesScanned(json, key, values, spans) && k <= |spans|
    ensures k < |spans| ==> FieldAt(json, key, Cursor(spans, k), spans[k])
    ensures k == |spans| < MaxResults ==> forall sp :: !FieldAt(json, key, Cursor(spans, k), sp)
  {
    if k < |spans| {
      assert ValueAt(json, key, Cursor(spans, k), spans[k], values[k]);
    }
  }

  /** The scan's contract leaves no freedom: the body alone determines the
      values and where they were found. */
  lemma ValuesScannedUnique(json: string, key: string, v1: seq<string>, s1: seq<FieldSpan>, v2: seq<string>, s2: seq<FieldSpan>)
    requires ValuesScanned(json, key, v1, s1) && ValuesScanned(json, key, v2, s2)
    ensures s1 == s2 && v1 == v2
  {
    var m := if |s1| < |s2| then |s1| else |s2|;
    var k := 0;
    while k < m
      invariant k <= m
      invariant forall j :: 0 <= j < k ==> s1[j] == s2[j] && v1[j] == v2[j]
    {
      assert Cursor(s1, k) == Cursor(s2, k);
      assert ValueAt(json, key, Cursor(s1, k), s1[k], v1[k]);
      assert ValueAt(json, key, Cursor(s2, k), s2[k], v2[k]);
      ValueAtUnique(json, key, Cursor(s1, k), s1[k], v1[k], s2[k], v2[k]);
      k := k + 1;
    }
    assert Cursor(s1, m) == Cursor(s2, m);
    ValuesScannedAt(json, key, v1, s1, m);
    ValuesScannedAt(json, key, v2, s2, m);
    assert |s1| == |s2|;
  }

  /** The discussion-search scan: up to three `title` values. */
  method ExtractTitles(json: string) returns (titles: seq<string>, ghost spans: seq<FieldSpan>)
    ensures |titles| <= MaxResults
    ensures ValuesScanned(json, TitleKey, titles, spans)
    ensures forall k :: 0 < k < |spans| ==> spans[k - 1].close < spans[k].key
  {
    titles, spans := ScanValues(json, TitleKey);
    ValuesInOrder(json, TitleKey, spans, titles);
  }

  /** The separator between a repository's name and its address. */
  const RepoSeparator: string := " \U{2014} "

  /** `line` pairs the decoded name found from `from` with the decoded
      address found from that name's closing quote. */
  predicate PairAt(json: string, nameKey: string, urlKey: string, from: nat, name: FieldSpan, url: FieldSpan, line: string) {
    && FieldAt(json, nameKey, from, name)
    && FieldAt(json, urlKey, name.close, url)
    && line == UnescapeJson(FieldText(json, name)) + RepoSeparator + UnescapeJson(FieldText(json, url))
  }

  /** What the repository scan promises of its result and the spans it
      read: at most three lines, the `k`-th found from the `k`-th cursor,
      and fewer than three only when the next name, or its address, cannot
      be found. */
  ghost predicate PairsScanned(json: string, nameKey: string, urlKey: string,
                               lines: seq<string>, names: seq<FieldSpan>, urls: seq<FieldSpan>) {
    && |lines| == |names| == |urls| <= MaxResults
    && (forall k {:trigger PairAt(json, nameKey, urlKey, Cursor(urls, k), names[k], urls[k], lines[k])} ::
          0 <= k < |names| ==> PairAt(json, nameKey, urlKey, Cursor(urls, k), names[k], urls[k], lines[k]))
    && (|lines| < MaxResults ==>
          forall sp :: FieldAt(json, nameKey, Cursor(urls, |urls|), sp) ==>
            forall u :: !FieldAt(json, urlKey, sp.close, u))
  }

  /** Appending the pair found at the cursor keeps every earlier pair where
      it was found. */
  lemma PairsSnoc(json: string, nameKey: string, urlKey: string,
                  names: seq<FieldSpan>, urls: seq<FieldSpan>, lines: seq<string>,
                  ns: FieldSpan, us: FieldSpan, line: string)
    requires |lines| == |names| == |urls|
    requires forall k {:trigger PairAt(json, nameKey, urlKey, Cursor(urls, k), names[k], urls[k], lines[k])} ::
      0 <= k < |names| ==> PairAt(json, nameKey, urlKey, Cursor(urls, k), names[k], urls[k], lines[k])
    requires PairAt(json, nameKey, urlKey, Cursor(urls, |urls|), ns, us, line)
    ensures forall k {:trigger PairAt(json, nameKey, urlKey, Cursor(urls + [us], k), (names + [ns])[k], (urls + [us])[k], (lines + [line])[k])} ::
      0 <= k < |names| + 1 ==>
      PairAt(json, nameKey, urlKey, Cursor(urls + [us], k), (names + [ns])[k], (urls + [us])[k], (lines + [line])[k])
  {
    forall k | 0 <= k < |names| + 1
      ensures PairAt(json, nameKey, urlKey, Cursor(urls + [us], k), (names + [ns])[k], (urls + [us])[k], (lines + [line])[k])
    {
      if k < |names| {
        assert (names + [ns])[k] == names[k] && (urls + [us])[k] == urls[k] && (lines + [line])[k] == lines[k];
        assert Cursor(urls + [us], k) == Cursor(urls, k);
        assert PairAt(json, nameKey, urlKey, Cursor(urls, k), names[k], urls[k], lines[k]);
      } else {
        assert (names + [ns])[k] == ns && (urls + [us])[k] == us && (lines + [line])[k] == line;
        assert Cursor(urls + [us], k) == Cursor(urls, k);
      }
    }
  }

  /** Each address is found at or after its name's closing quote, and
      pairs found one after another come in body order. */
  lemma PairsInOrder(json: string, nameKey: string, urlKey: string,
                     lines: seq<string>, names: seq<FieldSpan>, urls: seq<FieldSpan>)
    requires PairsScanned(json, nameKey, urlKey, lines, names, urls)
    ensures forall k :: 0 <= k < |names| ==> names[k].close <= urls[k].key
    ensures forall k :: 0 < k < |names| ==> urls[k - 1].close < names[k].key
  {
    forall k | 0 <= k < |names|
      ensures names[k].close <= urls[k].key
      ensures k > 0 ==> urls[k - 1].close < names[k].key
    {
      assert PairAt(json, nameKey, urlKey, Cursor(urls, k), names[k], urls[k], lines[k]);
    }
  }

  /** When the name found from `from` has no address after it, no name
      found from `from` has one. */
  lemma NoAddressStops(json: string, nameKey: string, urlKey: string, from: nat, ns: FieldSpan)
    requires |urlKey| > 0
    requires FieldAt(json, nameKey, from, ns) && FindField(json, urlKey, ns.close).None?
    ensures forall sp :: FieldAt(json, nameKey, from, sp) ==> forall u :: !FieldAt(json, urlKey, sp.close, u)
  {
    forall sp | FieldAt(json, nameKey, from, sp)
      ensures forall u :: !FieldAt(json, urlKey, sp.close, u)
    {
      FieldAtUnique(json, nameKey, from, sp, ns);
    }
  }

  /** One round of the repository loop: the name searched for from
      `from`, and the address searched for from the name's closing quote.
      None when either search gives up, and then no name found from
      `from` has an address after it. */
  function FindPair(json: string, nameKey: string, urlKey: string, from: nat): (r: Option<(FieldSpan, FieldSpan)>)
    requires |nameKey| > 0 && |urlKey| > 0
    ensures r.Some? ==> FieldAt(json, nameKey, from, r.value.0) && FieldAt(json, urlKey, r.value.0.close, r.value.1)
    ensures r.None? ==> forall sp :: FieldAt(json, nameKey, from, sp) ==> forall u :: !FieldAt(json, urlKey, sp.close, u)
  {
    match FindField(json, nameKey, from)
    case None => None
    case Some(ns) =>
      match FindField(json, urlKey, ns.close)
      case None =>
        NoAddressStops(json, nameKey, urlKey, from, ns);
        None
      case Some(us) => Some((ns, us))
  }

  /** The loop of the repository scan, for any pair of keys: up to three
      names, each paired with the first address searched for from the
      name's closing quote on; the next name is searched for from just
      after that address. */
  method ScanPairs(json: string, nameKey: string, urlKey: string)
    returns (lines: seq<string>, ghost names: seq<FieldSpan>, ghost urls: seq<FieldSpan>)
    requires |nameKey| > 0 && |urlKey| > 0
    ensures |lines| <= MaxResults
    ensures PairsScanned(json, nameKey, urlKey, lines, names, urls)
  {
    lines, names, urls := [], [], [];
    var from: nat := 0;
    while |lines| < MaxResults
      invariant |lines| == |names| == |urls| <= MaxResults
      invariant from == Cursor(urls, |urls|) && from <= |json|
      invariant forall k {:trigger PairAt(json, nameKey, urlKey, Cursor(urls, k), names[k], urls[k], lines[k])} ::
        0 <= k < |names| ==> PairAt(json, nameKey, urlKey, Cursor(urls, k), names[k], urls[k], lines[k])
      decreases |json| - from
    {
      var found := FindPair(json, nameKey, urlKey, from);
      if found.None? {
        break;
      }
      var (ns, us) := found.value;
      FieldAtOrder(json, nameKey, from, ns);
      FieldAtOrder(json, urlKey, ns.close, us);
      var line := UnescapeJson(json[ns.open + 1..ns.close]) + RepoSeparator + UnescapeJson(json[us.open + 1..us.close]);
      PairsSnoc(json, nameKey, urlKey, names, urls, lines, ns, us, line);
      lines := lines + [line];
      names := names + [ns];
      urls := urls + [us];
      from := us.close + 1;
    }
  }

  /** Two lines found from the same cursor are the same line. */
  lemma PairAtUnique(json: string, nameKey: string, urlKey: string, from: nat,
                     n1: FieldSpan, u1: FieldSpan, r1: string, n2: FieldSpan, u2: FieldSpan, r2: string)
    requires PairAt(json, nameKey, urlKey, from, n1, u1, r1) && PairAt(json, nameKey, urlKey, from, n2, u2, r2)
    ensures n1 == n2 && u1 == u2 && r1 == r2
  {
    FieldAtUnique(json, nameKey, from, n1, n2);
    FieldAtUnique(json, urlKey, n1.close, u1, u2);
  }

  /** Two repository scans whose `k`-th cursors agree find the same `k`-th
      pair. */
  lemma PairsStep(json: string, nameKey: string, urlKey: string,
                  r1: seq<string>, n1: seq<FieldSpan>, u1: seq<FieldSpan>,
                  r2: seq<string>, n2: seq<FieldSpan>, u2: seq<FieldSpan>, k: nat)
    requires PairsScanned(json, nameKey, urlKey, r1, n1, u1) && PairsScanned(json, nameKey, urlKey, r2, n2, u2)
    requires k < |n1| && k < |n2| && Cursor(u1, k) == Cursor(u2, k)
    ensures n1[k] == n2[k] && u1[k] == u2[k] && r1[k] == r2[k]
  {
    assert PairAt(json, nameKey, urlKey, Cursor(u1, k), n1[k], u1[k], r1[k]);
    assert PairAt(json, nameKey, urlKey, Cursor(u2, k), n2[k], u2[k], r2[k]);
    PairAtUnique(json, nameKey, urlKey, Cursor(u1, k), n1[k], u1[k], r1[k], n2[k], u2[k], r2[k]);
  }

  /** Two repository scans of one body agree on their first `m` pairs. */
  lemma PairsAgreeUpTo(json: string, nameKey: string, urlKey: string,
                       r1: seq<string>, n1: seq<FieldSpan>, u1: seq<FieldSpan>,
                       r2: seq<string>, n2: seq<FieldSpan>, u2: seq<FieldSpan>, m: nat)
    requires PairsScanned(json, nameKey, urlKey, r1, n1, u1) && PairsScanned(json, nameKey, urlKey, r2, n2, u2)
    requires m <= |n1| && m <= |n2|
    ensures n1[..m] == n2[..m] && u1[..m] == u2[..m] && r1[..m] == r2[..m]
  {
    var k := 0;
    while k < m
      invariant k <= m
      invariant forall j :: 0 <= j < k ==> n1[j] == n2[j] && u1[j] == u2[j] && r1[j] == r2[j]
    {
      PairsStep(json, nameKey, urlKey, r1, n1, u1, r2, n2, u2, k);
      k := k + 1;
    }
  }

  /** What a repository scan says about its `k`-th cursor: a pair was
      found there, or the scan stopped there because none can be. */
  lemma PairsScannedAt(json: string, nameKey: string, urlKey: string,
                       lines: seq<string>, names: seq<FieldSpan>, urls: seq<FieldSpan>, k: nat)
    requires PairsScanned(json, nameKey, urlKey, lines, names, urls) && k <= |names|
    ensures k < |names| ==> FieldAt(json, nameKey, Cursor(urls, k), names[k]) && FieldAt(json, urlKey, names[k].close, urls[k])
    ensures k == |names| < MaxResults ==>
      forall sp :: FieldAt(json, nameKey, Cursor(urls, k), sp) ==> forall u :: !FieldAt(json, urlKey, sp.close, u)
  {
    if k < |names| {
      assert PairAt(json, nameKey, urlKey, Cursor(urls, k), names[k], urls[k], lines[k]);
    }
  }

  /** The repository scan's contract leaves no freedom: the body alone
      determines the lines and where their parts were found. */
  lemma PairsScannedUnique(json: string, nameKey: string, urlKey: string,
                           r1: seq<string>, n1: seq<FieldSpan>, u1: seq<FieldSpan>,
                           r2: seq<string>, n2: seq<FieldSpan>, u2: seq<FieldSpan>)
    requires PairsScanned(json, nameKey, urlKey, r1, n1, u1) && PairsScanned(json, nameKey, urlKey, r2, n2, u2)
    ensures n1 == n2 && u1 == u2 && r1 == r2
  {
    var m := if |n1| < |n2| then |n1| else |n2|;
    PairsAgreeUpTo(json, nameKey, urlKey, r1, n1, u1, r2, n2, u2, m);
    assert u1[..m] == u2[..m];
    assert Cursor(u1, m) == Cursor(u2, m);
    PairsScannedAt(json, nameKey, urlKey, r1, n1, u1, m);
    PairsScannedAt(json, nameKey, urlKey, r2, n2, u2, m);
    assert |n1| == |n2|;
    assert n1 == n1[..m] && n2 == n2[..m];
    assert u1 == u1[..m] && u2 == u2[..m];
    assert r1 == r1[..m] && r2 == r2[..m];
  }

  /** The repository-search scan: up to three `full_name`/`html_url`
      pairs, each written as name, em dash, address. */
  method ExtractRepos(json: string) returns (repos: seq<string>, ghost names: seq<FieldSpan>, ghost urls: seq<FieldSpan>)
    ensures |repos| <= MaxResults
    ensures PairsScanned(json, FullNameKey, HtmlUrlKey, repos, names, urls)
    ensures forall k :: 0 <= k < |names| ==> names[k].close <= urls[k].key
    ensures forall k :: 0 < k < |names| ==> urls[k - 1].close < names[k].key
  {
    repos, names, urls := ScanPairs(json, FullNameKey, HtmlUrlKey);
    PairsInOrder(json, FullNameKey, HtmlUrlKey, repos, names, urls);
  }

  const NoThreadsMessage: string := "No recent Reddit threads found."
  const TopThreadsPrefix: string := "Top threads: "
  const ThreadSeparator: string := " | "

  /** summarizeFromRedditTitles: a fixed message when there are no titles,
      otherwise the titles joined after a fixed prefix. */
  function SummarizeTitles(titles: seq<string>): (r: string)
    ensures |titles| == 0 <==> r == NoThreadsMessage
    ensures |titles| > 0 ==> StartsWith(r, TopThreadsPrefix) && r[|TopThreadsPrefix|..] == Join(ThreadSeparator, titles)
  {
    if |titles| == 0 then NoThreadsMessage
    else
      var r := TopThreadsPrefix + Join(ThreadSeparator, titles);
      assert r[0] != NoThreadsMessage[0];
      r
  }

  /** Every title appears verbatim in a summary. */
  lemma SummaryMentionsEveryTitle(titles: seq<string>, i: nat)
    requires i < |titles|
    ensures exists k :: OccursAt(SummarizeTitles(titles), titles[i], k)
  {
    var j := Join(ThreadSeparator, titles);
    var r := SummarizeTitles(titles);
    JoinContains(ThreadSeparator, titles, i);
    var k :| OccursAt(j, titles[i], k);
    var off := |TopThreadsPrefix|;
    assert r[off + k..off + k + |titles[i]|] == j[k..k + |titles[i]|];
    assert OccursAt(r, titles[i], off + k);
  }

  /** One more title extends a summary by the separator and that title. */
  lemma SummaryAppend(titles: seq<string>, t: string)
    requires |titles| > 0
    ensures SummarizeTitles(titles + [t]) == SummarizeTitles(titles) + ThreadSeparator + t
  {
    JoinSnoc(ThreadSeparator, titles, t);
  }
}
