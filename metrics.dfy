/**
 * The web backend (Web/index.php): the metrics endpoint address, the scan of
 * the Prometheus text exposition for `monitor_status{...} N` samples, the
 * label parsing of each sample, one record per sample, and the JSON result
 * shape for a successful or a failed fetch.
 */
module Metrics {
  import opened Wrappers
  import opened Text
  import Assoc

  // ---------- the endpoint ----------

  /** `rtrim($baseUrl, '/') . '/metrics'`. */
  function MetricsUrl(base: string): (url: string)
    ensures url == StripTrailing(base, '/') + "/metrics"
    ensures |url| >= 8 && url[|url| - 8..] == "/metrics"
  {
    var url := StripTrailing(base, '/') + "/metrics";
    assert url[|url| - 8..] == "/metrics";
    url
  }

  /** Trailing slashes on the base make no difference: the address has exactly one slash before `metrics`. */
  lemma {:induction false} MetricsUrlIgnoresTrailingSlashes(base: string, n: nat)
    ensures MetricsUrl(base + Slashes(n)) == MetricsUrl(base)
    decreases n
  {
    if n > 0 {
      assert base + Slashes(n) == (base + Slashes(n - 1)) + "/";
      assert (base + Slashes(n))[..|base + Slashes(n)| - 1] == base + Slashes(n - 1);
      MetricsUrlIgnoresTrailingSlashes(base, n - 1);
    } else {
      assert base + Slashes(0) == base;
    }
  }

  /** `n` slashes. */
  function Slashes(n: nat): (s: string)
    ensures |s| == n && forall k :: 0 <= k < n ==> s[k] == '/'
  {
    if n == 0 then "" else Slashes(n - 1) + "/"
  }

  // ---------- the regular expression `monitor_status\{(.*?)\} (\d+)` ----------

  const SamplePrefix: string := "monitor_status{"

  /** At the start of `u` stands `} ` followed by a digit: where the lazy label group may stop. */
  predicate ClosesAt(u: string, j: nat) {
    j + 2 < |u| && u[j] == '}' && u[j + 1] == ' ' && IsDigit(u[j + 2])
  }

  /** A prefix of a non-empty text is its first character followed by a prefix of the rest. */
  lemma ConsSlice(u: string, n: nat)
    requires u != [] && n < |u|
    ensures u[..n + 1] == [u[0]] + u[1..][..n]
  {
  }

  /**
   * The length of the lazy group `(.*?)` on the text `u` that follows the
   * prefix: the first position where `} ` and a digit follow, provided no
   * line break comes before it (`.` does not match a line break).
   */
  function LabelLen(u: string): (r: Option<nat>)
    ensures r.Some? ==> r.value <= |u| && ClosesAt(u, r.value) && '\n' !in u[..r.value]
    ensures r.Some? ==> forall j :: 0 <= j < r.value ==> !ClosesAt(u, j)
    ensures r.None? ==> forall j :: 0 <= j <= |u| && '\n' !in u[..j] ==> !ClosesAt(u, j)
    decreases |u|
  {
    if ClosesAt(u, 0) then Some(0)
    else if u == [] || u[0] == '\n' then None
    else
      match LabelLen(u[1..])
      case None =>
        assert forall j :: 1 <= j <= |u| && '\n' !in u[..j] ==> !ClosesAt(u, j) by {
          forall j | 1 <= j <= |u| && '\n' !in u[..j] ensures !ClosesAt(u, j) {
            ConsSlice(u, j - 1);
            assert ClosesAt(u, j) == ClosesAt(u[1..], j - 1);
          }
        }
        None
      case Some(l) =>
        ConsSlice(u, l);
        assert forall j :: 1 <= j <= l ==> ClosesAt(u, j) == ClosesAt(u[1..], j - 1);
        Some(l + 1)
  }

  /** The length of the greedy `(\d+)` run at the start of `u` (zero when there is no digit). */
  function DigitLen(u: string): (n: nat)
    ensures n <= |u| && AllDigits(u[..n])
    ensures n == |u| || !IsDigit(u[n])
    decreases |u|
  {
    if u != [] && IsDigit(u[0]) then
      var n := DigitLen(u[1..]) + 1;
      ConsSlice(u, n - 1);
      n
    else 0
  }

  /** One sample found by the scan: the label text and the digits after it. */
  datatype Sample = Sample(labels: string, digits: string)

  /** A sample matched at the very start of `t`, with the length of the match. */
  function SampleAt(t: string): (r: Option<(Sample, nat)>)
    ensures r.Some? ==> 0 < r.value.1 <= |t|
    ensures r.Some? ==> '\n' !in r.value.0.labels && r.value.0.digits != [] && AllDigits(r.value.0.digits)
  {
    if |t| >= |SamplePrefix| && t[..|SamplePrefix|] == SamplePrefix then
      var u := t[|SamplePrefix|..];
      match LabelLen(u)
      case None => None
      case Some(l) =>
        var rest := u[l + 2..];
        var d := DigitLen(rest);
        assert d >= 1 by { assert rest[0] == u[l + 2]; }
        Some((Sample(u[..l], rest[..d]), |SamplePrefix| + l + 2 + d))
    else None
  }

  /**
   * `preg_match_all` with that expression: at each position, a sample that
   * starts there is taken and the scan goes on after it; otherwise the scan
   * moves on by one character.
   */
  function Scan(t: string): (ss: seq<Sample>)
    ensures forall i :: 0 <= i < |ss| ==> '\n' !in ss[i].labels && ss[i].digits != [] && AllDigits(ss[i].digits)
    decreases |t|
  {
    if t == [] then []
    else
      match SampleAt(t)
      case Some((s, n)) => [s] + Scan(t[n..])
      case None => Scan(t[1..])
  }

  /** The exposition line of one sample. */
  function SampleLine(s: Sample): string {
    SamplePrefix + s.labels + "} " + s.digits + "\n"
  }

  /** The lines of the samples, one after the other. */
  function Exposition(ss: seq<Sample>): string
    decreases |ss|
  {
    if ss == [] then "" else SampleLine(ss[0]) + Exposition(ss[1..])
  }

  /** A sample whose line reads back as itself: labels on one line, without `}`, and a digit status. */
  predicate WellFormedSample(s: Sample) {
    '\n' !in s.labels && '}' !in s.labels && s.digits != [] && AllDigits(s.digits)
  }

  /** The lazy group stops exactly at the end of label text that has no `}` and no line break. */
  lemma {:induction false} LabelLenOfLine(l: string, rest: string)
    requires '\n' !in l && '}' !in l
    requires rest != [] && IsDigit(rest[0])
    ensures LabelLen(l + "} " + rest) == Some(|l|)
    decreases |l|
  {
    var u := l + "} " + rest;
    if l == [] {
      assert u[0] == '}' && u[1] == ' ' && u[2] == rest[0];
    } else {
      assert u[0] == l[0];
      assert !ClosesAt(u, 0);
      assert u[1..] == l[1..] + "} " + rest;
      LabelLenOfLine(l[1..], rest);
    }
  }

  /** The greedy digit run takes exactly the digits before a line break. */
  lemma {:induction false} DigitLenOfLine(d: string, rest: string)
    requires AllDigits(d)
    ensures DigitLen(d + "\n" + rest) == |d|
    decreases |d|
  {
    var u := d + "\n" + rest;
    if d != [] {
      assert u[0] == d[0];
      assert u[1..] == d[1..] + "\n" + rest;
      DigitLenOfLine(d[1..], rest);
    } else {
      assert u[0] == '\n';
    }
  }

  /** The pieces on either side of a separator are recovered by slicing. */
  lemma SliceAround(a: string, sep: string, b: string)
    ensures (a + sep + b)[..|a|] == a
    ensures (a + sep + b)[|a| + |sep|..] == b
  {
    assert (a + sep + b)[..|a|] == a;
    assert (a + sep + b)[|a| + |sep|..] == b;
  }

  /** The pieces of a sample's line, followed by more text, grouped after the first and after the second. */
  lemma Regroup(a: string, b: string, c: string, d: string, e: string, f: string)
    ensures a + b + c + d + e + f == a + (b + c + (d + e + f))
  {
  }

  /** After the prefix: the labels end the lazy group and the digits are the digit run. */
  lemma AfterPrefix(s: Sample, rest: string)
    requires WellFormedSample(s)
    ensures var u := s.labels + "} " + (s.digits + "\n" + rest); var l := |s.labels|;
      && LabelLen(u) == Some(l)
      && u[..l] == s.labels
      && DigitLen(u[l + 2..]) == |s.digits|
      && u[l + 2..][..|s.digits|] == s.digits
  {
    var tail := s.digits + "\n" + rest;
    LabelLenOfLine(s.labels, tail);
    SliceAround(s.labels, "} ", tail);
    DigitLenOfLine(s.digits, rest);
    SliceAround(s.digits, "\n", rest);
  }

  /** `a + b` sliced at the end of `a`. */
  lemma SliceAfter(a: string, b: string)
    ensures (a + b)[..|a|] == a && (a + b)[|a|..] == b
  {
    assert (a + b)[..|a|] == a;
  }

  /** The match at the start of the prefix followed by `u`, given where the groups of `u` end. */
  lemma SampleAtPrefix(u: string, l: nat, d: nat)
    requires LabelLen(u) == Some(l) && DigitLen(u[l + 2..]) == d
    ensures SampleAt(SamplePrefix + u) == Some((Sample(u[..l], u[l + 2..][..d]), |SamplePrefix| + l + 2 + d))
  {
    SliceAfter(SamplePrefix, u);
  }

  /** A sample's line, followed by anything, is matched at its start as that sample, up to its line break. */
  lemma SampleAtLine(s: Sample, rest: string)
    requires WellFormedSample(s)
    ensures SampleAt(SampleLine(s) + rest) == Some((s, |SampleLine(s)| - 1))
  {
    var u := s.labels + "} " + (s.digits + "\n" + rest);
    Regroup(SamplePrefix, s.labels, "} ", s.digits, "\n", rest);
    assert SampleLine(s) + rest == SamplePrefix + u;
    AfterPrefix(s, rest);
    SampleAtPrefix(u, |s.labels|, |s.digits|);
  }

  /** The scan of a sample's line followed by more text: that sample, then the scan of the rest. */
  lemma ScanLine(s: Sample, rest: string)
    requires WellFormedSample(s)
    ensures Scan(SampleLine(s) + rest) == [s] + Scan(rest)
  {
    var t := SampleLine(s) + rest;
    SampleAtLine(s, rest);
    var nl := t[|SampleLine(s)| - 1..];
    assert nl == "\n" + rest;
    assert nl[0] != SamplePrefix[0];
    assert SampleAt(nl) == None by {
      if |nl| >= |SamplePrefix| {
        assert nl[..|SamplePrefix|][0] == nl[0];
      }
    }
    assert nl[1..] == rest;
  }

  /** Scanning the exposition of well-formed samples gives back exactly those samples, in order. */
  lemma {:induction false} ScanExposition(ss: seq<Sample>)
    requires forall i :: 0 <= i < |ss| ==> WellFormedSample(ss[i])
    ensures Scan(Exposition(ss)) == ss
    decreases |ss|
  {
    if ss != [] {
      var tail := ss[1..];
      assert WellFormedSample(ss[0]);
      ScanLine(ss[0], Exposition(tail));
      assert forall i :: 0 <= i < |tail| ==> WellFormedSample(tail[i]) by {
        forall i | 0 <= i < |tail| ensures WellFormedSample(tail[i]) {
          assert tail[i] == ss[i + 1];
        }
      }
      ScanExposition(tail);
    }
  }

  /** The prefix starts at position `k` of `t`. */
  predicate PrefixAt(t: string, k: nat) {
    k + |SamplePrefix| <= |t| && t[k..k + |SamplePrefix|] == SamplePrefix
  }

  /** Text in which the prefix never starts at any position yields no sample. */
  lemma {:induction false} ScanWithoutPrefix(t: string)
    requires forall k: nat :: !PrefixAt(t, k)
    ensures Scan(t) == []
    decreases |t|
  {
    if t != [] {
      NoSampleWithoutPrefix(t);
      forall k: nat ensures !PrefixAt(t[1..], k) {
        PrefixAtShift(t, k);
      }
      ScanWithoutPrefix(t[1..]);
    }
  }

  /** Without the prefix at its start, no sample is matched at the start of a text. */
  lemma NoSampleWithoutPrefix(t: string)
    requires !PrefixAt(t, 0)
    ensures SampleAt(t) == None
  {
    if |t| >= |SamplePrefix| {
      assert t[0..|SamplePrefix|] == t[..|SamplePrefix|];
    }
  }

  /** The prefix at position `k` of the text without its first character is the prefix at `k + 1` of the text. */
  lemma PrefixAtShift(t: string, k: nat)
    requires t != []
    ensures PrefixAt(t[1..], k) == PrefixAt(t, k + 1)
  {
    if k + |SamplePrefix| <= |t[1..]| {
      assert t[1..][k..k + |SamplePrefix|] == t[k + 1..k + 1 + |SamplePrefix|];
    }
  }

  // ---------- labels ----------

  /** The characters PHP's `trim` removes by default: space, tab, line feed, carriage return, NUL and vertical tab. */
  const PhpTrimChars: set<char> := {' ', '\t', '\n', '\r', '\U{0000}', '\U{000B}'}

  /** `trim($v, '"')` strips double quotes only. */
  const QuoteChars: set<char> := {'"'}

  /**
   * One `key=value` part: `explode('=', $part)` must give exactly two pieces,
   * and then the key is trimmed of white space and the value of double quotes.
   */
  function LabelPair(part: string): Option<(string, string)> {
    var kv := Split(part, '=');
    if |kv| == 2 then Some((Trim(kv[0], PhpTrimChars), Trim(kv[1], QuoteChars))) else None
  }

  /** A part is kept exactly when it holds exactly one `=`; a kept key and value are trimmed. */
  lemma LabelPairKept(part: string)
    ensures LabelPair(part).Some? <==> Count('=', part) == 1
    ensures LabelPair(part).Some? ==>
      IsTrimmed(LabelPair(part).value.0, PhpTrimChars) && IsTrimmed(LabelPair(part).value.1, QuoteChars)
  {
    var kv := Split(part, '=');
    if |kv| == 2 {
      TrimIsTrimmed(kv[0], PhpTrimChars);
      TrimIsTrimmed(kv[1], QuoteChars);
    }
  }

  /** A value that itself holds an `=`, such as a URL with a query, drops the whole part rather than cutting it. */
  lemma ValueWithEqualsIsDropped(key: string, value: string)
    requires '=' in value
    ensures LabelPair(key + "=" + value).None?
  {
    CountAppend('=', key, "=" + value);
    CountAppend('=', "=", value);
    CountPositive('=', value);
    assert key + "=" + value == key + ("=" + value);
    LabelPairKept(key + "=" + value);
  }

  /** The assignments the parts make, in order. */
  function LabelPairs(parts: seq<string>): seq<(string, string)> {
    FilterMap(parts, LabelPair)
  }

  /** `$labels` for one sample's label text. */
  function Labels(text: string): map<string, string> {
    Assoc.MapOfPairs(LabelPairs(Split(text, ',')))
  }

  /** The assignments of one more part, in terms of how that part splits at `=`. */
  lemma LabelPairsStep(parts: seq<string>, i: nat)
    requires i < |parts|
    ensures var kv := Split(parts[i], '=');
      (|kv| == 2 ==> LabelPairs(parts[..i + 1]) ==
                     LabelPairs(parts[..i]) + [(Trim(kv[0], PhpTrimChars), Trim(kv[1], QuoteChars))]) &&
      (|kv| != 2 ==> LabelPairs(parts[..i + 1]) == LabelPairs(parts[..i]))
  {
    FilterMapStep(parts, LabelPair, i);
    if |Split(parts[i], '=')| != 2 {
      assert LabelPairs(parts[..i]) + [] == LabelPairs(parts[..i]);
    }
  }

  /** A pair of a trimmed key and a value without quotes at either end. */
  predicate TrimmedPair(p: (string, string)) {
    IsTrimmed(p.0, PhpTrimChars) && IsTrimmed(p.1, QuoteChars)
  }

  /** Every assignment the parts make has a trimmed key and a value without quotes at either end. */
  lemma LabelPairsTrimmed(parts: seq<string>, i: nat)
    requires i < |LabelPairs(parts)|
    ensures TrimmedPair(LabelPairs(parts)[i])
  {
    forall x ensures LabelPair(x).Some? ==> TrimmedPair(LabelPair(x).value) {
      LabelPairKept(x);
    }
    FilterMapAll(parts, LabelPair, TrimmedPair, i);
  }

  /** The keys and values the label text ends up with are trimmed as the source trims them. */
  lemma LabelsTrimmed(text: string, k: string)
    requires k in Labels(text)
    ensures IsTrimmed(k, PhpTrimChars) && IsTrimmed(Labels(text)[k], QuoteChars)
  {
    var ps := LabelPairs(Split(text, ','));
    Assoc.MapOfPairsOnlyAssigned(ps, k);
    var i :| 0 <= i < |ps| && ps[i].0 == k && ps[i].1 == Labels(text)[k];
    LabelPairsTrimmed(Split(text, ','), i);
  }

  /** Cutting the label text and one more comma-free part. */
  lemma SplitLastPart(text: string, part: string)
    requires ',' !in part
    ensures Split(text + "," + part, ',') == Split(text, ',') + [part]
  {
    assert text + "," + part == text + [','] + part;
    SplitAppend(text, part, ',');
    SplitNoSep(part, ',');
  }

  /** The label text followed by one more part: a later duplicate key overrides, a dropped part changes nothing. */
  lemma LabelsLaterPartWins(text: string, part: string)
    requires ',' !in part
    ensures var l := Labels(text + "," + part);
      match LabelPair(part)
      case Some((k, v)) => l == Labels(text)[k := v]
      case None => l == Labels(text)
  {
    SplitLastPart(text, part);
    Assoc.MapOfFilterMapSnoc(Split(text, ','), part, LabelPair);
  }

  /**
   * The label loop: for each comma-separated part that splits into exactly a
   * key and a value, `$labels[$key] = $value`.
   */
  method ParseLabels(text: string) returns (labels: map<string, string>)
    ensures labels == Labels(text)
  {
    var parts := Split(text, ',');
    labels := map[];
    var i := 0;
    while i < |parts|
      invariant 0 <= i <= |parts|
      invariant labels == Assoc.MapOfPairs(LabelPairs(parts[..i]))
    {
      var part := parts[i];
      var kv := Split(part, '=');
      LabelPairsStep(parts, i);
      if |kv| == 2 {
        var key := Trim(kv[0], PhpTrimChars);
        var value := Trim(kv[1], QuoteChars);
        Assoc.MapOfPairsSnoc(LabelPairs(parts[..i]), (key, value));
        labels := labels[key := value];
      }
      i := i + 1;
    }
    assert parts[..i] == parts;
  }

  // ---------- records ----------

  /** `PHP_INT_MAX` on a 64-bit build. */
  const PhpIntMax: int := 0x7FFF_FFFF_FFFF_FFFF

  /**
   * The least integer that an IEEE 754 double rounds to infinity, 2^1024 - 2^970:
   * the midpoint between the largest finite double and 2^1024, which rounds
   * to the even neighbour, infinity.
   */
  const DoubleOverflow: int := 179769313486231580793728971405303415079934132710037826936173778980444968292764750946649017977587207096330286416692887910946555547851940402630657488671505820681908902000708383676273854845817711531764475730270069855571366959622842914819860834936475292719074168444365510704342711559699508093042880177904174497792

  /**
   * `(int)` of a string: the value of its leading run of decimal digits when
   * that fits. A larger value is read as a double and capped: `PHP_INT_MAX`
   * while the double is finite, and 0 once it is infinite.
   */
  function IntOfDigits(d: string): (n: int)
    ensures 0 <= n <= PhpIntMax
    ensures AllDigits(d) && DigitsValue(d) <= PhpIntMax ==> n == DigitsValue(d)
    ensures AllDigits(d) && PhpIntMax < DigitsValue(d) < DoubleOverflow ==> n == PhpIntMax
    ensures AllDigits(d) && DoubleOverflow <= DigitsValue(d) ==> n == 0
  {
    var k := DigitLen(d);
    assert AllDigits(d) ==> d[..k] == d;
    var v := DigitsValue(d[..k]);
    if v <= PhpIntMax then v else if v < DoubleOverflow then PhpIntMax else 0
  }

  /** One element of `$data`. */
  datatype MetricRecord = MetricRecord(
    monitorName: Option<string>, monitorType: Option<string>, monitorUrl: Option<string>,
    monitorHostname: Option<string>, monitorPort: Option<string>, status: int)

  /** `$labels[$key] ?? null`. */
  function Label(labels: map<string, string>, key: string): (r: Option<string>)
    ensures r.Some? <==> key in labels
    ensures r.Some? ==> r.value == labels[key]
  {
    if key in labels then Some(labels[key]) else None
  }

  /** The record for a sample whose labels have been parsed. */
  function RecordOf(labels: map<string, string>, digits: string): MetricRecord {
    MetricRecord(Label(labels, "monitor_name"), Label(labels, "monitor_type"), Label(labels, "monitor_url"),
                 Label(labels, "monitor_hostname"), Label(labels, "monitor_port"), IntOfDigits(digits))
  }

  /** The record of one matched sample: its labels parsed, its status converted. */
  function SampleRecord(s: Sample): MetricRecord {
    RecordOf(Labels(s.labels), s.digits)
  }

  /** The records of the samples, one per sample and in their order. */
  function Records(ss: seq<Sample>): seq<MetricRecord> {
    MapSeq(ss, SampleRecord)
  }

  /** There is one record per sample, and record `i` is the record of sample `i`, its labels parsed. */
  lemma RecordsAt(ss: seq<Sample>, i: nat)
    requires i < |ss|
    ensures |Records(ss)| == |ss|
    ensures Records(ss)[i] == RecordOf(Labels(ss[i].labels), ss[i].digits)
  {
    MapSeqAt(ss, SampleRecord, i);
  }

  /** The loop over the matches: one record appended per sample. */
  method ParseMetrics(body: string) returns (data: seq<MetricRecord>)
    ensures data == Records(Scan(body))
    ensures |data| == |Scan(body)|
  {
    var matches := Scan(body);
    data := [];
    var i := 0;
    while i < |matches|
      invariant 0 <= i <= |matches|
      invariant data == Records(matches[..i])
    {
      var labels := ParseLabels(matches[i].labels);
      MapSeqStep(matches, SampleRecord, i);
      data := data + [RecordOf(labels, matches[i].digits)];
      i := i + 1;
    }
    assert matches[..i] == matches;
  }

  // ---------- the response ----------

  /** The decoded JSON the backend prints. */
  datatype Response =
    | Success(count: nat, data: seq<MetricRecord>)
    | Failure(error: string, status: int, url: string)

  const FetchError: string := "Failed to fetch data"

  /** PHP truthiness of `curl_exec`'s result: `false` (no body) and the strings "" and "0" are falsy. */
  predicate BodyTruthy(body: Option<string>) {
    body.Some? && body.value != "" && body.value != "0"
  }

  /**
   * The response for one fetch: the records and their count when the status
   * is 200 and the body truthy, otherwise the error with the status and the
   * address that was fetched.
   */
  function ResponseOf(baseUrl: string, httpStatus: int, body: Option<string>): (r: Response)
    ensures r.Success? <==> httpStatus == 200 && BodyTruthy(body)
    ensures r.Success? ==> r.count == |r.data| && r.data == Records(Scan(body.value))
    ensures r.Failure? ==> r.error == FetchError && r.status == httpStatus && r.url == MetricsUrl(baseUrl)
  {
    if httpStatus == 200 && BodyTruthy(body) then
      var data := Records(Scan(body.value));
      Success(|data|, data)
    else Failure(FetchError, httpStatus, MetricsUrl(baseUrl))
  }

  /** The whole script after the request: build the address, parse on success, and shape the result. */
  method Respond(baseUrl: string, httpStatus: int, body: Option<string>) returns (r: Response)
    ensures r == ResponseOf(baseUrl, httpStatus, body)
  {
    var url := MetricsUrl(baseUrl);
    if httpStatus == 200 && BodyTruthy(body) {
      var data := ParseMetrics(body.value);
      r := Success(|data|, data);
    } else {
      r := Failure(FetchError, httpStatus, url);
    }
  }

  /** A body made of well-formed sample lines yields one record per line, in order. */
  lemma ResponseOfExposition(baseUrl: string, ss: seq<Sample>)
    requires ss != [] && forall i :: 0 <= i < |ss| ==> WellFormedSample(ss[i])
    ensures Scan(Exposition(ss)) == ss
    ensures ResponseOf(baseUrl, 200, Some(Exposition(ss))) == Success(|ss|, Records(ss))
  {
    ScanExposition(ss);
    var body := Exposition(ss);
    assert body == SampleLine(ss[0]) + Exposition(ss[1..]);
    assert |body| > 1 by { assert |SampleLine(ss[0])| > 1; }
    assert BodyTruthy(Some(body));
  }
}
