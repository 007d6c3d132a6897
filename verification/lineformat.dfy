/** Lines written in the combined log format, and the proof that Digest
    reads every field of such a line back. */
module LineFormat {
  import opened GoLib
  import opened Extract
  import opened Parser

  /** `token` then one space then `rest`. */
  function Spaced(token: Bytes, rest: Bytes): Bytes {
    token + [' '] + rest
  }

  /** `token` between `left` and `right`, then one space, then `rest`. */
  function Wrap(left: byte, token: Bytes, right: byte, rest: Bytes): Bytes {
    [left] + token + [right] + [' '] + rest
  }

  /** The values a combined-format line is written from. */
  datatype LineParts = LineParts(
    host: Bytes, logname: Bytes, user: Bytes, time: Bytes,
    httpMethod: Bytes, uri: Bytes, version: Bytes,
    status: int, bytesSent: int, referer: Bytes, userAgent: Bytes)

  function RequestText(p: LineParts): Bytes {
    p.httpMethod + " " + p.uri + " " + p.version
  }

  /** `%h %l %u [%t] "%r" %>s %O "%{Referer}i" "%{User-Agent}i"` */
  function CombinedLine(p: LineParts): Bytes {
    Spaced(p.host,
    Spaced(p.logname,
    Spaced(p.user,
    Wrap('[', p.time, ']',
    Wrap('"', RequestText(p), '"',
    Spaced(FormatInt(p.status),
    Spaced(FormatInt(p.bytesSent),
    Wrap('"', p.referer, '"',
    ['"'] + p.userAgent + ['"']))))))))
  }

  /** The parts can be written without their delimiters showing up inside a field. */
  predicate Writable(p: LineParts) {
    && ' ' !in p.host && ' ' !in p.logname && ' ' !in p.user
    && ']' !in p.time
    && IsToken(p.httpMethod) && IsToken(p.uri) && IsToken(p.version)
    && '"' !in p.httpMethod && '"' !in p.uri && '"' !in p.version
    && '"' !in p.referer
    && (p.userAgent == [] || (p.userAgent[0] != '"' && p.userAgent[|p.userAgent| - 1] != '"'))
  }

  /** The entry Digest is expected to produce: identity fields and time
      placeholder-normalised, everything else as written. */
  function Expected(p: LineParts): AccessLog {
    AccessLog(
      TransformNilLogItem(p.host), TransformNilLogItem(p.logname),
      TransformNilLogItem(p.user), TransformNilLogItem(p.time),
      Request(p.httpMethod, p.uri, p.version),
      p.status, p.bytesSent, p.referer, p.userAgent)
  }

  lemma StepIdentity(state: nat, log: AccessLog, token: Bytes, rest: Bytes)
    requires state < 3 && ' ' !in token
    ensures var v := TransformNilLogItem(token);
            DigestStep(state, log, Spaced(token, rest)) == Continue(
              if state == 0 then log.(remoteHostname := v)
              else if state == 1 then log.(remoteLogname := v)
              else log.(remoteUser := v), rest)
  {
    ExtractUntilToken(token, ' ', rest);
  }

  lemma StepTime(log: AccessLog, time: Bytes, rest: Bytes)
    requires ']' !in time
    ensures DigestStep(3, log, Wrap('[', time, ']', rest))
            == Continue(log.(time := TransformNilLogItem(time)), rest)
  {
    ExtractWrappedToken('[', time, ']', ' ', rest);
  }

  lemma StepRequest(log: AccessLog, p: LineParts, rest: Bytes)
    requires Writable(p)
    ensures DigestStep(4, log, Wrap('"', RequestText(p), '"', rest))
            == Continue(log.(request := Request(p.httpMethod, p.uri, p.version)), rest)
  {
    var text := RequestText(p);
    assert forall k :: 0 <= k < |text| ==> text[k] == ' ' || text[k] in p.httpMethod
                                           || text[k] in p.uri || text[k] in p.version;
    ExtractWrappedToken('"', text, '"', ' ', rest);
    RequestDigestJoin(EmptyRequest, p.httpMethod, p.uri, p.version);
  }

  lemma StepNumber(state: nat, log: AccessLog, n: int, rest: Bytes)
    requires state == 5 || state == 6
    ensures DigestStep(state, log, Spaced(FormatInt(n), rest)) == Continue(
              if state == 5 then log.(statusCode := n) else log.(bytesSent := n), rest)
  {
    var input := Spaced(FormatInt(n), rest);
    ExtractUntilToken(FormatInt(n), ' ', rest);
    AtoiFormatInt(n);
    DigestNumberCases(state, log, input);
    assert DigestStep(state, log, input) == DigestNumber(state, log, input);
  }

  lemma StepReferer(log: AccessLog, referer: Bytes, rest: Bytes)
    requires '"' !in referer
    ensures DigestStep(7, log, Wrap('"', referer, '"', rest)) == Continue(log.(referer := referer), rest)
  {
    ExtractWrappedToken('"', referer, '"', ' ', rest);
  }

  lemma StepUserAgent(log: AccessLog, ua: Bytes)
    requires ua == [] || (ua[0] != '"' && ua[|ua| - 1] != '"')
    ensures DigestStep(8, log, ['"'] + ua + ['"']) == Continue(log.(userAgent := ua), [])
  {
    TrimSurrounded(['"'], ua, ['"'], '"');
  }

  /* ---------------------------------------------------------------------
     A line cut at a field boundary
     --------------------------------------------------------------------- */

  /** Field `j` of the line written from `p`, with the separator after it. */
  function FieldText(p: LineParts, j: nat): Bytes
    requires j < 9
  {
    match j
    case 0 => Spaced(p.host, [])
    case 1 => Spaced(p.logname, [])
    case 2 => Spaced(p.user, [])
    case 3 => Wrap('[', p.time, ']', [])
    case 4 => Wrap('"', RequestText(p), '"', [])
    case 5 => Spaced(FormatInt(p.status), [])
    case 6 => Spaced(FormatInt(p.bytesSent), [])
    case 7 => Wrap('"', p.referer, '"', [])
    case _ => ['"'] + p.userAgent + ['"']
  }

  /** Fields `j` up to (not including) `k` of the line, each with its separator. */
  function Segment(p: LineParts, j: nat, k: nat): Bytes
    requires j <= k <= 9
    decreases k - j
  {
    if j == k then [] else FieldText(p, j) + Segment(p, j + 1, k)
  }

  /** The line cut just after the separator of field `k - 1`. */
  function Prefix(p: LineParts, k: nat): Bytes
    requires k <= 9
  {
    Segment(p, 0, k)
  }

  /** `a` with field `j` taken from `b`. */
  function CopyField(a: AccessLog, b: AccessLog, j: nat): (r: AccessLog)
    requires j < 9
    ensures SameField(r, b, j)
    ensures SameExcept(a, r, j)
  {
    match j
    case 0 => a.(remoteHostname := b.remoteHostname)
    case 1 => a.(remoteLogname := b.remoteLogname)
    case 2 => a.(remoteUser := b.remoteUser)
    case 3 => a.(time := b.time)
    case 4 => a.(request := b.request)
    case 5 => a.(statusCode := b.statusCode)
    case 6 => a.(bytesSent := b.bytesSent)
    case 7 => a.(referer := b.referer)
    case _ => a.(userAgent := b.userAgent)
  }

  /** `log` with fields `j` up to (not including) `k` taken from `e`. */
  function Fill(log: AccessLog, e: AccessLog, j: nat, k: nat): (r: AccessLog)
    requires j <= k <= 9
    ensures forall i :: j <= i < k ==> SameField(r, e, i)
    ensures forall i :: 0 <= i < j ==> SameField(r, log, i)
    ensures forall i :: k <= i < 9 ==> SameField(r, log, i)
    decreases k - j
  {
    if j == k then log
    else
      var c := CopyField(log, e, j);
      var r := Fill(c, e, j + 1, k);
      SameFieldTrans(r, c, e, j);
      forall i | 0 <= i < 9 && i != j && SameField(r, c, i)
        ensures SameField(r, log, i)
      {
        SameFieldSym(log, c, i);
        SameFieldTrans(r, c, log, i);
      }
      r
  }

  lemma SameFieldSym(a: AccessLog, b: AccessLog, j: nat)
    requires SameField(a, b, j)
    ensures SameField(b, a, j)
  {
  }

  /** Entries that agree on all nine fields are equal. */
  lemma SameAllFields(a: AccessLog, b: AccessLog)
    requires forall i :: 0 <= i < 9 ==> SameField(a, b, i)
    ensures a == b
  {
    assert SameField(a, b, 0) && SameField(a, b, 1) && SameField(a, b, 2);
    assert SameField(a, b, 3) && SameField(a, b, 4) && SameField(a, b, 5);
    assert SameField(a, b, 6) && SameField(a, b, 7) && SameField(a, b, 8);
  }

  lemma SpacedAppend(t: Bytes, rest: Bytes)
    ensures Spaced(t, []) + rest == Spaced(t, rest)
  {
  }

  lemma WrapAppend(left: byte, t: Bytes, right: byte, rest: Bytes)
    ensures Wrap(left, t, right, []) + rest == Wrap(left, t, right, rest)
  {
  }

  /** State `j` reads field `j` of a written line and stores the expected value. */
  lemma StepField(j: nat, log: AccessLog, p: LineParts, rest: Bytes)
    requires Writable(p) && j < 9 && (j == 8 ==> rest == [])
    ensures FieldText(p, j) + rest != []
    ensures DigestStep(j, log, FieldText(p, j) + rest) == Continue(CopyField(log, Expected(p), j), rest)
  {
    if j == 0 {
      SpacedAppend(p.host, rest);
      StepIdentity(0, log, p.host, rest);
    } else if j == 1 {
      SpacedAppend(p.logname, rest);
      StepIdentity(1, log, p.logname, rest);
    } else if j == 2 {
      SpacedAppend(p.user, rest);
      StepIdentity(2, log, p.user, rest);
    } else if j == 3 {
      WrapAppend('[', p.time, ']', rest);
      StepTime(log, p.time, rest);
    } else if j == 4 {
      WrapAppend('"', RequestText(p), '"', rest);
      StepRequest(log, p, rest);
    } else if j == 5 {
      SpacedAppend(FormatInt(p.status), rest);
      StepNumber(5, log, p.status, rest);
    } else if j == 6 {
      SpacedAppend(FormatInt(p.bytesSent), rest);
      StepNumber(6, log, p.bytesSent, rest);
    } else if j == 7 {
      WrapAppend('"', p.referer, '"', rest);
      StepReferer(log, p.referer, rest);
    } else {
      assert FieldText(p, 8) + rest == ['"'] + p.userAgent + ['"'];
      StepUserAgent(log, p.userAgent);
    }
  }

  /** States `j` to `k - 1` read fields `j` to `k - 1` and then the input is used up. */
  lemma {:induction false} DigestSegment(j: nat, k: nat, log: AccessLog, p: LineParts)
    requires Writable(p) && j <= k <= 9
    ensures DigestFrom(j, log, Segment(p, j, k)) == DigestResult(Fill(log, Expected(p), j, k), k, Ok)
    decreases k - j
  {
    if j < k {
      var rest := Segment(p, j + 1, k);
      StepField(j, log, p, rest);
      DigestSegment(j + 1, k, CopyField(log, Expected(p), j), p);
    }
  }

  /** A line that stops after the separator of any field `k - 1` digests with
      no error: the first `k` fields are those written, and every later field
      keeps the receiver's value (the zero value for a fresh entry). */
  lemma DigestPrefix(log: AccessLog, p: LineParts, k: nat)
    requires Writable(p) && k <= 9
    ensures var r := Digest(log, Prefix(p, k));
            && r.status == Ok && r.state == k
            && (forall i :: 0 <= i < k ==> SameField(r.log, Expected(p), i))
            && (forall i :: k <= i < 9 ==> SameField(r.log, log, i))
  {
    DigestSegment(0, k, log, p);
  }

  lemma {:induction false} SegmentSplit(p: LineParts, j: nat, k: nat, n: nat)
    requires j <= k <= n <= 9
    ensures Segment(p, j, k) + Segment(p, k, n) == Segment(p, j, n)
    decreases k - j
  {
    if j < k {
      SegmentSplit(p, j + 1, k, n);
      assert FieldText(p, j) + Segment(p, j + 1, k) + Segment(p, k, n)
          == FieldText(p, j) + (Segment(p, j + 1, k) + Segment(p, k, n));
    }
  }

  /** The combined-format line is its nine fields one after the other. */
  lemma CombinedLineSegments(p: LineParts)
    ensures CombinedLine(p) == Segment(p, 0, 9)
  {
    var s8 := ['"'] + p.userAgent + ['"'];
    assert Segment(p, 8, 9) == s8;
    var s7 := Wrap('"', p.referer, '"', s8);
    WrapAppend('"', p.referer, '"', s8);
    var s6 := Spaced(FormatInt(p.bytesSent), s7);
    SpacedAppend(FormatInt(p.bytesSent), s7);
    var s5 := Spaced(FormatInt(p.status), s6);
    SpacedAppend(FormatInt(p.status), s6);
    var s4 := Wrap('"', RequestText(p), '"', s5);
    WrapAppend('"', RequestText(p), '"', s5);
    var s3 := Wrap('[', p.time, ']', s4);
    WrapAppend('[', p.time, ']', s4);
    var s2 := Spaced(p.user, s3);
    SpacedAppend(p.user, s3);
    var s1 := Spaced(p.logname, s2);
    SpacedAppend(p.logname, s2);
    SpacedAppend(p.host, s1);
  }

  /** Each `Prefix(p, k)` is a prefix of the combined-format line. */
  lemma PrefixOfLine(p: LineParts, k: nat)
    requires k <= 9
    ensures CombinedLine(p) == Prefix(p, k) + Segment(p, k, 9)
  {
    CombinedLineSegments(p);
    SegmentSplit(p, 0, k, 9);
  }

  /** Every field of a combined-format line is read back, whatever the
      receiver held before, and all nine states run. */
  lemma DigestCombinedLine(log: AccessLog, p: LineParts)
    requires Writable(p)
    ensures Digest(log, CombinedLine(p)) == DigestResult(Expected(p), 9, Ok)
  {
    CombinedLineSegments(p);
    DigestSegment(0, 9, log, p);
    SameAllFields(Fill(log, Expected(p), 0, 9), Expected(p));
  }

  /* The example line of the source's LogFormat comment. Its longer fields
     are given in short pieces: a long string literal is a deep term the
     verifier handles badly. */

  const ExampleHost: Bytes := "73.92.251.192"
  const ExampleTime: Bytes := "16/Dec/2018:06:25:09 +0000"
  const ExampleReferer: Bytes := "https://www.google.com/"

  const URI1: Bytes := "/learn/at-what-age-"
  const URI2: Bytes := "should-i-start-"
  const URI3: Bytes := "making-401k-"
  const URI4: Bytes := "withdrawals/"
  const ExampleURI: Bytes := URI1 + URI2 + URI3 + URI4

  const Agent1: Bytes := "Mozilla/5.0 (iPhone; "
  const Agent2: Bytes := "CPU iPhone OS 12_1 "
  const Agent3: Bytes := "like Mac OS X) "
  const Agent4: Bytes := "AppleWebKit/605.1.15 "
  const Agent5: Bytes := "(KHTML, like Gecko) "
  const Agent6: Bytes := "Version/12.0 "
  const Agent7: Bytes := "Mobile/15E148 "
  const Agent8: Bytes := "Safari/604.1"
  const ExampleAgent: Bytes := Agent1 + Agent2 + Agent3 + Agent4 + Agent5 + Agent6 + Agent7 + Agent8

  const ExampleLine: Bytes :=
    ExampleHost + " - - [" + ExampleTime + "] \"GET " + ExampleURI + " HTTP/1.1\" 200 14687 \""
    + ExampleReferer + "\" \"" + ExampleAgent + "\""

  const ExampleParts := LineParts(ExampleHost, "-", "-", ExampleTime,
                                  "GET", ExampleURI, "HTTP/1.1",
                                  200, 14687, ExampleReferer, ExampleAgent)

  /** The entry the example line describes: host, empty logname and user,
      time, `GET` of the URI over `HTTP/1.1`, status 200, 14687 bytes, the
      referer and the user-agent. */
  const ExampleEntry := AccessLog(ExampleHost, [], [], ExampleTime,
                                  Request("GET", ExampleURI, "HTTP/1.1"),
                                  200, 14687, ExampleReferer, ExampleAgent)

  lemma ExampleURIIsToken()
    ensures IsToken(ExampleURI) && '"' !in ExampleURI
  {
    assert ' ' !in URI1 && '"' !in URI1;
    assert ' ' !in URI2 && '"' !in URI2;
    assert ' ' !in URI3 && '"' !in URI3;
    assert ' ' !in URI4 && '"' !in URI4;
  }

  lemma ExampleAgentUnquoted()
    ensures ExampleAgent[0] == 'M' && ExampleAgent[|ExampleAgent| - 1] == '1'
  {
  }

  lemma ExampleFieldsUndelimited()
    ensures ' ' !in ExampleHost && ']' !in ExampleTime && '"' !in ExampleReferer
  {
  }

  lemma ExampleWritable()
    ensures Writable(ExampleParts)
  {
    ExampleFieldsUndelimited();
    ExampleURIIsToken();
    ExampleAgentUnquoted();
  }

  /* CombinedLine of the example, rewritten into the flat text of
     ExampleLine one piece at a time (each piece alone is cheap to check). */

  lemma FlatQuotedPair(r: Bytes, a: Bytes)
    ensures Wrap('"', r, '"', ['"'] + a + ['"']) == "\"" + r + "\" \"" + a + "\""
  {
  }

  lemma Format200()
    ensures FormatInt(200) == "200"
  {
  }

  lemma Format14687()
    ensures FormatInt(14687) == "14687"
  {
  }

  lemma FlatNumbers(rest: Bytes)
    ensures Spaced(FormatInt(200), Spaced(FormatInt(14687), rest)) == "200 14687 " + rest
  {
    Format200();
    Format14687();
  }

  lemma FlatRequest(u: Bytes, rest: Bytes)
    ensures Wrap('"', "GET" + " " + u + " " + "HTTP/1.1", '"', rest) == "\"GET " + u + " HTTP/1.1\" " + rest
  {
  }

  lemma FlatTime(t: Bytes, rest: Bytes)
    ensures Wrap('[', t, ']', rest) == "[" + t + "] " + rest
  {
  }

  lemma FlatIdentity(h: Bytes, rest: Bytes)
    ensures Spaced(h, Spaced("-", Spaced("-", rest))) == h + " - - " + rest
  {
  }

  lemma FlatJoin(h: Bytes, t: Bytes, u: Bytes, r: Bytes, a: Bytes)
    ensures h + " - - " + ("[" + t + "] " + ("\"GET " + u + " HTTP/1.1\" " + ("200 14687 " + ("\"" + r + "\" \"" + a + "\""))))
            == h + " - - [" + t + "] \"GET " + u + " HTTP/1.1\" 200 14687 \"" + r + "\" \"" + a + "\""
  {
  }

  lemma ExampleIsCombined()
    ensures CombinedLine(ExampleParts) == ExampleLine
  {
    var p := ExampleParts;
    var s7 := Wrap('"', p.referer, '"', ['"'] + p.userAgent + ['"']);
    FlatQuotedPair(p.referer, p.userAgent);
    var s5 := Spaced(FormatInt(p.status), Spaced(FormatInt(p.bytesSent), s7));
    FlatNumbers(s7);
    var s4 := Wrap('"', RequestText(p), '"', s5);
    FlatRequest(p.uri, s5);
    var s3 := Wrap('[', p.time, ']', s4);
    FlatTime(p.time, s4);
    FlatIdentity(p.host, s3);
    FlatJoin(p.host, p.time, p.uri, p.referer, p.userAgent);
  }

  /** The example line parses to the fields it was written from. The line is
      a parameter so that the verifier does not evaluate the long literal
      eagerly. */
  lemma DigestExampleLine(line: Bytes)
    requires line == ExampleLine
    ensures Digest(ZeroLog, line) == DigestResult(ExampleEntry, 9, Ok)
  {
    ExampleWritable();
    ExampleIsCombined();
    DigestCombinedLine(ZeroLog, ExampleParts);
    ExampleExpected();
  }

  /** The entry expected from the example parts: the `-` placeholders become empty. */
  lemma ExampleExpected()
    ensures Expected(ExampleParts) == ExampleEntry
  {
    assert ExampleHost != "-";
    assert ExampleTime != "-";
  }
}
