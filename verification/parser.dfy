/** The Apache "combined" log-line parser:
    `%h %l %u %t "%r" %>s %O "%{Referer}i" "%{User-Agent}i"`.

    Go's `Digest` methods mutate their receiver and return an error; here
    they are functions from the receiver's old value and the input to its new
    value and an outcome. */
module Parser {
  import opened GoLib
  import opened Extract

  /** The request line `METHOD URI VERSION`. */
  datatype Request = Request(httpMethod: Bytes, uri: Bytes, version: Bytes)

  const EmptyRequest := Request([], [], [])

  /** The fields of one log line, in the order the parser fills them. */
  datatype AccessLog = AccessLog(
    remoteHostname: Bytes,   // %h, state 0
    remoteLogname: Bytes,    // %l, state 1
    remoteUser: Bytes,       // %u, state 2
    time: Bytes,             // %t, state 3
    request: Request,        // "%r", state 4
    statusCode: int,         // %>s, state 5
    bytesSent: int,          // %O, state 6
    referer: Bytes,          // "%{Referer}i", state 7
    userAgent: Bytes)        // "%{User-Agent}i", state 8

  /** Go's zero value `AccessLog{}`. */
  const ZeroLog := AccessLog([], [], [], [], EmptyRequest, 0, 0, [], [])

  /** The errors Digest returns, each tagged with the field it was parsing. */
  datatype DigestError =
    | TimeField(cause: WrapError)                  // "failed to parse time"
    | RequestField(cause: WrapError)               // "failed to parse request"
    | RequestLine(raw: Bytes)                      // "failed parsing original request"
    | StatusNotInteger(raw: Bytes)                 // "failed to convert status"
    | BytesNotInteger(raw: Bytes)                  // "failed to convert bytes sent"
    | RefererField(cause: WrapError, rest: Bytes)  // "failed to parse Referer from"

  /** How a parse ended: no error, an error return, or a Go runtime panic
      (slice bounds out of range inside extractWrappedUntil). */
  datatype Status = Ok | Failed(error: DigestError) | Panicked

  /** The state in which each error is raised. */
  function FailingState(e: DigestError): nat {
    match e
    case TimeField(_) => 3
    case RequestField(_) => 4
    case RequestLine(_) => 4
    case StatusNotInteger(_) => 5
    case BytesNotInteger(_) => 6
    case RefererField(_, _) => 7
  }

  /* ---------------------------------------------------------------------
     Field-wise comparison of two entries
     --------------------------------------------------------------------- */

  /** Field number `j` (the state that fills it) is the same in `a` and `b`. */
  predicate SameField(a: AccessLog, b: AccessLog, j: nat) {
    match j
    case 0 => a.remoteHostname == b.remoteHostname
    case 1 => a.remoteLogname == b.remoteLogname
    case 2 => a.remoteUser == b.remoteUser
    case 3 => a.time == b.time
    case 4 => a.request == b.request
    case 5 => a.statusCode == b.statusCode
    case 6 => a.bytesSent == b.bytesSent
    case 7 => a.referer == b.referer
    case _ => a.userAgent == b.userAgent
  }

  /** Every field numbered `k` or later is the same. */
  predicate SameFrom(a: AccessLog, b: AccessLog, k: nat) {
    forall j :: k <= j < 9 ==> SameField(a, b, j)
  }

  /** Every field numbered below `k` is the same. */
  predicate SameBelow(a: AccessLog, b: AccessLog, k: nat) {
    forall j :: 0 <= j < k && j < 9 ==> SameField(a, b, j)
  }

  /** Every field except number `s` is the same. */
  predicate SameExcept(a: AccessLog, b: AccessLog, s: nat) {
    forall j :: 0 <= j < 9 && j != s ==> SameField(a, b, j)
  }

  lemma SameFieldTrans(a: AccessLog, b: AccessLog, c: AccessLog, j: nat)
    requires SameField(a, b, j) && SameField(b, c, j)
    ensures SameField(a, c, j)
  {
  }

  /** A step that changes only field `s`, followed by steps that keep every
      field from `k` on, keeps every field from `k` on when `s < k`, and
      every field below `s` when the later steps keep those. */
  lemma SameExceptThen(a: AccessLog, b: AccessLog, c: AccessLog, s: nat, k: nat)
    requires SameExcept(a, b, s) && s < k
    ensures SameFrom(b, c, k) ==> SameFrom(a, c, k)
    ensures SameBelow(b, c, s) ==> SameBelow(a, c, s)
  {
    forall j | k <= j < 9 && SameFrom(b, c, k)
      ensures SameField(a, c, j)
    {
      SameFieldTrans(a, b, c, j);
    }
    forall j | 0 <= j < s && j < 9 && SameBelow(b, c, s)
      ensures SameField(a, c, j)
    {
      SameFieldTrans(a, b, c, j);
    }
  }

  /* ---------------------------------------------------------------------
     Request.Digest
     --------------------------------------------------------------------- */

  datatype RequestOutcome = RequestOutcome(request: Request, error: Option<DigestError>)

  /** Request.Digest: `-` leaves the request as it is; otherwise the first
      three space-separated tokens become method, URI and version, and fewer
      than three is an error (after the tokens that were read were stored). */
  function RequestDigest(req: Request, input: Bytes): (r: RequestOutcome)
    ensures input == "-" ==> r == RequestOutcome(req, None)
    ensures r.error.None? <==> input == "-" || |Fields(input)| >= 3
    ensures r.error.Some? ==> r.error.value == RequestLine(input)
    ensures input != "-" && r.error.None? ==>
              var f := Fields(input);
              r.request == Request(f[0], f[1], f[2])
  {
    if input == "-" then RequestOutcome(req, None)
    else
      var f := Fields(input);
      if |f| >= 3 then RequestOutcome(Request(f[0], f[1], f[2]), None)
      else
        var partial :=
          if |f| == 0 then req
          else if |f| == 1 then req.(httpMethod := f[0])
          else req.(httpMethod := f[0], uri := f[1]);
        RequestOutcome(partial, Some(RequestLine(input)))
  }

  /** A request line written as three space-separated tokens is read back. */
  lemma RequestDigestJoin(req: Request, httpMethod: Bytes, uri: Bytes, version: Bytes)
    requires IsToken(httpMethod) && IsToken(uri) && IsToken(version)
    ensures RequestDigest(req, httpMethod + " " + uri + " " + version)
            == RequestOutcome(Request(httpMethod, uri, version), None)
  {
    var ts := [httpMethod, uri, version];
    var line := httpMethod + " " + uri + " " + version;
    assert Join(ts[2..]) == version;
    assert Join(ts[1..]) == uri + " " + version;
    assert line == Join(ts);
    FieldsJoin(ts);
    assert |line| >= 5;
  }

  /** A request line of tokens separated by runs of spaces, with any spaces
      before and after: with three tokens or more the first three are the
      method, URI and version; with fewer it is an error (unless the line is
      the placeholder `-`), after the tokens that were read were stored in
      method and then URI, as `fmt.Fscanf` does. */
  lemma RequestDigestSpread(req: Request, ts: seq<Bytes>, gaps: seq<nat>)
    requires forall k :: 0 <= k < |ts| ==> IsToken(ts[k])
    requires GapsFit(ts, gaps)
    ensures var line := Spread(ts, gaps);
            var r := RequestDigest(req, line);
            && (|ts| >= 3 ==> r == RequestOutcome(Request(ts[0], ts[1], ts[2]), None))
            && (|ts| < 3 && line != "-" ==> r.error == Some(RequestLine(line)))
            && (|ts| < 3 && line != "-" ==>
                  r.request == Request(if |ts| >= 1 then ts[0] else req.httpMethod,
                                       if |ts| >= 2 then ts[1] else req.uri,
                                       req.version))
  {
    FieldsSpread(ts, gaps);
  }

  /* ---------------------------------------------------------------------
     AccessLog.Digest
     --------------------------------------------------------------------- */

  /** One turn of the loop: either the next state runs on `rest`, or Digest returns. */
  datatype Step = Continue(log: AccessLog, rest: Bytes) | Stop(log: AccessLog, status: Status)

  /** States 0 to 2: a space-delimited identity field, placeholder-normalised. */
  function DigestIdentity(state: nat, log: AccessLog, input: Bytes): (r: Step)
    requires 0 < |input| && state < 3
    ensures r.Continue? && |r.rest| < |input| && r.rest == input[|input| - |r.rest|..]
    ensures SameExcept(log, r.log, state)
  {
    var c := ExtractUntil(input, ' ');
    var v := TransformNilLogItem(c.token);
    var log' :=
      if state == 0 then log.(remoteHostname := v)
      else if state == 1 then log.(remoteLogname := v)
      else log.(remoteUser := v);
    Continue(log', input[c.next..])
  }

  /** State 3: the bracketed time, placeholder-normalised. */
  function DigestTime(log: AccessLog, input: Bytes): (r: Step)
    requires 0 < |input|
    ensures r.Continue? ==> |r.rest| < |input| && r.rest == input[|input| - |r.rest|..]
    ensures r.Continue? ==> SameExcept(log, r.log, 3)
    ensures r.Stop? ==> r.log == log && r.status.Failed? && r.status.error.TimeField?
  {
    match ExtractWrappedUntil(input, '[', ']', ' ')
    case Malformed(e) => Stop(log, Failed(TimeField(e)))
    case Found(c) => Continue(log.(time := TransformNilLogItem(c.token)), input[c.next..])
  }

  /** State 4: the quoted request line, handed to Request.Digest after the
      request has been reset to `Request{}`. */
  function DigestRequest(log: AccessLog, input: Bytes): (r: Step)
    requires 0 < |input|
    ensures r.Continue? ==> |r.rest| < |input| && r.rest == input[|input| - |r.rest|..]
    ensures SameExcept(log, r.log, 4)
    ensures r.Stop? ==> r.status.Panicked? || (r.status.Failed? && FailingState(r.status.error) == 4)
  {
    if WrappedPanics(input, '"', '"', ' ') then Stop(log, Panicked)
    else
      match ExtractWrappedUntil(input, '"', '"', ' ')
      case Malformed(e) => Stop(log, Failed(RequestField(e)))
      case Found(c) =>
        var req := RequestDigest(EmptyRequest, c.token);
        var log' := log.(request := req.request);
        if req.error.Some? then Stop(log', Failed(req.error.value))
        else Continue(log', input[c.next..])
  }

  /** States 5 and 6: a space-delimited decimal integer. */
  function DigestNumber(state: nat, log: AccessLog, input: Bytes): (r: Step)
    requires 0 < |input| && (state == 5 || state == 6)
    ensures r.Continue? ==> |r.rest| < |input| && r.rest == input[|input| - |r.rest|..]
    ensures r.Continue? ==> SameExcept(log, r.log, state)
    ensures r.Stop? ==> r.log == log && r.status.Failed? && FailingState(r.status.error) == state
  {
    var c := ExtractUntil(input, ' ');
    match Atoi(c.token)
    case None =>
      Stop(log, Failed(if state == 5 then StatusNotInteger(c.token) else BytesNotInteger(c.token)))
    case Some(n) =>
      Continue(if state == 5 then log.(statusCode := n) else log.(bytesSent := n), input[c.next..])
  }

  /** State 7: the quoted referer, kept as it is. */
  function DigestReferer(log: AccessLog, input: Bytes): (r: Step)
    requires 0 < |input|
    ensures r.Continue? ==> |r.rest| < |input| && r.rest == input[|input| - |r.rest|..]
    ensures r.Continue? ==> SameExcept(log, r.log, 7)
    ensures r.Stop? ==> r.log == log && (r.status.Panicked? || (r.status.Failed? && r.status.error.RefererField?))
  {
    if WrappedPanics(input, '"', '"', ' ') then Stop(log, Panicked)
    else
      match ExtractWrappedUntil(input, '"', '"', ' ')
      case Malformed(e) => Stop(log, Failed(RefererField(e, input)))
      case Found(c) => Continue(log.(referer := c.token), input[c.next..])
  }

  /** State 8: the rest of the line, without leading or trailing quotes. */
  function DigestUserAgent(log: AccessLog, input: Bytes): (r: Step)
    ensures r.Continue? && r.rest == []
    ensures SameExcept(log, r.log, 8)
    ensures r.log.userAgent == Trim(input, '"')
  {
    Continue(log.(userAgent := Trim(input, '"')), input[|input|..])
  }

  /* When each state stops, and what it stores when it does not. */

  /** The time state stops exactly when the input does not start with a
      bracketed field followed by a space or the end, reporting the cause
      extractWrappedUntil gives; otherwise it stores the bracketed text,
      placeholder-normalised. */
  lemma DigestTimeCases(log: AccessLog, input: Bytes)
    requires 0 < |input|
    ensures var r := DigestTime(log, input);
            var w := ExtractWrappedUntil(input, '[', ']', ' ');
            && (r.Stop? <==> forall i :: !WrappedAt(input, '[', ']', ' ', i))
            && (w.Malformed? ==> r == Stop(log, Failed(TimeField(w.error))))
            && (forall i :: WrappedAt(input, '[', ']', ' ', i) ==>
                  r == Continue(log.(time := TransformNilLogItem(input[1..i])), input[NextAfter(input, i)..]))
  {
  }

  /** The request state panics exactly on Go's `input[1:0]` case; with no
      closed quoted field it fails leaving the entry as it was; with one it
      stores what Request.Digest made of the quoted text, starting from the
      empty request, and stops exactly when Request.Digest failed. A field
      that is not closed properly is reported with the cause
      extractWrappedUntil gives. */
  lemma DigestRequestCases(log: AccessLog, input: Bytes)
    requires 0 < |input|
    ensures var r := DigestRequest(log, input);
            && (r.Stop? && r.status.Panicked? <==> WrappedPanics(input, '"', '"', ' '))
            && (!WrappedPanics(input, '"', '"', ' ') ==>
                  var w := ExtractWrappedUntil(input, '"', '"', ' ');
                  w.Malformed? ==> r == Stop(log, Failed(RequestField(w.error))))
            && ((forall i :: !WrappedAt(input, '"', '"', ' ', i)) ==> r.Stop? && r.log == log)
            && (forall i :: WrappedAt(input, '"', '"', ' ', i) ==>
                  var req := RequestDigest(EmptyRequest, input[1..i]);
                  && r.log == log.(request := req.request)
                  && (r.Continue? <==> req.error.None?)
                  && (r.Continue? ==> r.rest == input[NextAfter(input, i)..])
                  && (r.Stop? ==> r.status == Failed(req.error.value)))
  {
  }

  /** The identity states always continue, after the next space or at the
      end of the input, storing the token before it placeholder-normalised in
      their own field. */
  lemma DigestIdentityCases(state: nat, log: AccessLog, input: Bytes)
    requires 0 < |input| && state < 3
    ensures var r := DigestIdentity(state, log, input);
            var c := ExtractUntil(input, ' ');
            var v := TransformNilLogItem(c.token);
            && r == Continue(if state == 0 then log.(remoteHostname := v)
                             else if state == 1 then log.(remoteLogname := v)
                             else log.(remoteUser := v),
                             input[c.next..])
  {
  }

  /** The status and bytes states stop exactly when the token before the next
      space is not a decimal integer, reporting that token; otherwise they
      store its value. */
  lemma DigestNumberCases(state: nat, log: AccessLog, input: Bytes)
    requires 0 < |input| && (state == 5 || state == 6)
    ensures var r := DigestNumber(state, log, input);
            var c := ExtractUntil(input, ' ');
            && (r.Stop? <==> !IsDecimalInteger(c.token))
            && (r.Stop? ==> r.status == Failed(if state == 5 then StatusNotInteger(c.token)
                                                else BytesNotInteger(c.token)))
            && (r.Continue? ==>
                  && r.rest == input[c.next..]
                  && r.log == if state == 5 then log.(statusCode := Atoi(c.token).value)
                              else log.(bytesSent := Atoi(c.token).value))
  {
  }

  /** The referer state stops exactly when the input does not start with a
      closed quoted field followed by a space or the end, panicking on Go's
      `input[1:0]` case and otherwise reporting the cause extractWrappedUntil
      gives with the whole remaining input; otherwise it stores the quoted
      text as it is. */
  lemma DigestRefererCases(log: AccessLog, input: Bytes)
    requires 0 < |input|
    ensures var r := DigestReferer(log, input);
            && (r.Stop? && r.status.Panicked? <==> WrappedPanics(input, '"', '"', ' '))
            && (!WrappedPanics(input, '"', '"', ' ') ==>
                  var w := ExtractWrappedUntil(input, '"', '"', ' ');
                  w.Malformed? ==> r == Stop(log, Failed(RefererField(w.error, input))))
            && (r.Stop? <==> forall i :: !WrappedAt(input, '"', '"', ' ', i))
            && (r.Stop? && r.status.Failed? ==> r.status.error.rest == input)
            && (forall i :: WrappedAt(input, '"', '"', ' ', i) ==>
                  r == Continue(log.(referer := input[1..i]), input[NextAfter(input, i)..]))
  {
  }

  /** The body of the loop for one state on non-empty input. */
  function DigestStep(state: nat, log: AccessLog, input: Bytes): (r: Step)
    requires 0 < |input| && state < 9
    ensures r.Continue? ==> |r.rest| < |input| && r.rest == input[|input| - |r.rest|..]
    ensures r.Continue? ==> SameExcept(log, r.log, state)
    ensures state == 8 ==> r.Continue? && r.rest == []
    ensures r.Stop? ==> r.status != Ok && SameExcept(log, r.log, 4)
    ensures r.Stop? && r.status.Failed? ==> FailingState(r.status.error) == state
    ensures r.Stop? && r.status.Panicked? ==> state == 4 || state == 7
    ensures r.Stop? && state != 4 ==> r.log == log
  {
    if state < 3 then DigestIdentity(state, log, input)
    else if state == 3 then DigestTime(log, input)
    else if state == 4 then DigestRequest(log, input)
    else if state < 7 then DigestNumber(state, log, input)
    else if state == 7 then DigestReferer(log, input)
    else DigestUserAgent(log, input)
  }

  /** The result of Digest: the receiver's new value, the value of the loop's
      `state` counter when Digest returned, and how it ended. */
  datatype DigestResult = DigestResult(log: AccessLog, state: nat, status: Status)

  /** The loop of Digest from `state` on the remaining `input`. */
  function DigestFrom(state: nat, log: AccessLog, input: Bytes): (r: DigestResult)
    requires state < 9 || (state == 9 && input == [])
    ensures state <= r.state <= 9
    ensures input == [] ==> r == DigestResult(log, state, Ok)
    ensures SameBelow(log, r.log, state)
    ensures r.status == Ok ==> SameFrom(log, r.log, r.state)
    ensures r.status != Ok ==> SameFrom(log, r.log, r.state + 1) && r.state < 9
    ensures r.status.Failed? ==> r.state == FailingState(r.status.error)
    ensures r.status.Panicked? ==> r.state == 4 || r.state == 7
    ensures r.status != Ok && r.state != 4 ==> SameFrom(log, r.log, r.state)
    decreases |input|
  {
    if input == [] then DigestResult(log, state, Ok)
    else
      match DigestStep(state, log, input)
      case Stop(log', status) => DigestResult(log', state, status)
      case Continue(log', rest) =>
        var r := DigestFrom(state + 1, log', rest);
        SameExceptThen(log, log', r.log, state, r.state + 1);
        SameExceptThen(log, log', r.log, state, r.state);
        r
  }

  /** AccessLog.Digest. */
  function Digest(log: AccessLog, input: Bytes): (r: DigestResult)
    ensures r.state <= 9
    ensures input == [] ==> r == DigestResult(log, 0, Ok)
    ensures r.status == Ok ==> SameFrom(log, r.log, r.state)
    ensures r.status != Ok ==> SameFrom(log, r.log, r.state + 1)
    ensures r.status.Failed? ==> r.state == FailingState(r.status.error)
    ensures r.status != Ok && r.state != 4 ==> SameFrom(log, r.log, r.state)
  {
    DigestFrom(0, log, input)
  }
}
