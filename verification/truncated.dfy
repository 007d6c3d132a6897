/** What Digest does with lines that stop early or break off inside a field. */
module Truncated {
  import opened GoLib
  import opened Extract
  import opened Parser
  import opened LineFormat

  /** The first four fields of a combined-format line, then `rest`. */
  function Head(p: LineParts, rest: Bytes): Bytes {
    Spaced(p.host, Spaced(p.logname, Spaced(p.user, Wrap('[', p.time, ']', rest))))
  }

  predicate HeadWritable(p: LineParts) {
    ' ' !in p.host && ' ' !in p.logname && ' ' !in p.user && ']' !in p.time
  }

  /** The receiver after states 0 to 3 have read the head of a line. */
  function AfterHead(log: AccessLog, p: LineParts): AccessLog {
    log.(remoteHostname := TransformNilLogItem(p.host),
         remoteLogname := TransformNilLogItem(p.logname),
         remoteUser := TransformNilLogItem(p.user),
         time := TransformNilLogItem(p.time))
  }

  /** Reading the head of a line leaves state 4 to run on what follows it. */
  lemma DigestHead(log: AccessLog, p: LineParts, rest: Bytes)
    requires HeadWritable(p)
    ensures Digest(log, Head(p, rest)) == DigestFrom(4, AfterHead(log, p), rest)
  {
    var s3 := Wrap('[', p.time, ']', rest);
    var s2 := Spaced(p.user, s3);
    var s1 := Spaced(p.logname, s2);
    var log1 := log.(remoteHostname := TransformNilLogItem(p.host));
    var log2 := log1.(remoteLogname := TransformNilLogItem(p.logname));
    var log3 := log2.(remoteUser := TransformNilLogItem(p.user));
    StepIdentity(0, log, p.host, s1);
    StepIdentity(1, log1, p.logname, s2);
    StepIdentity(2, log2, p.user, s3);
    StepTime(log3, p.time, rest);
    assert DigestFrom(3, log3, s3) == DigestFrom(4, AfterHead(log, p), rest);
    assert DigestFrom(2, log2, s2) == DigestFrom(3, log3, s3);
    assert DigestFrom(1, log1, s1) == DigestFrom(2, log2, s2);
  }

  /** A line holding only a host: Digest succeeds after one state and only
      the host is set. */
  lemma DigestHostOnly(log: AccessLog, host: Bytes)
    requires host != [] && ' ' !in host
    ensures Digest(log, host) == DigestResult(log.(remoteHostname := TransformNilLogItem(host)), 1, Ok)
  {
    assert ExtractUntil(host, ' ') == Cut(|host|, host);
    assert host[|host|..] == [];
  }

  /** The identity state `state` on a last token: it stores the token
      placeholder-normalised and Digest returns with no error. */
  lemma DigestLastIdentity(state: nat, log: AccessLog, token: Bytes)
    requires state < 3 && token != [] && ' ' !in token
    ensures var v := TransformNilLogItem(token);
            DigestFrom(state, log, token) == DigestResult(
              if state == 0 then log.(remoteHostname := v)
              else if state == 1 then log.(remoteLogname := v)
              else log.(remoteUser := v), state + 1, Ok)
  {
    DigestIdentityCases(state, log, token);
    assert ExtractUntil(token, ' ') == Cut(|token|, token);
    assert token[|token|..] == [];
  }

  /** A line that ends in the logname: no error after two states, and the
      logname is stored placeholder-normalised like the host. */
  lemma DigestEndsInLogname(log: AccessLog, host: Bytes, logname: Bytes)
    requires host != [] && ' ' !in host && logname != [] && ' ' !in logname
    ensures Digest(log, Spaced(host, logname))
            == DigestResult(log.(remoteHostname := TransformNilLogItem(host),
                                 remoteLogname := TransformNilLogItem(logname)), 2, Ok)
  {
    var log1 := log.(remoteHostname := TransformNilLogItem(host));
    StepIdentity(0, log, host, logname);
    DigestLastIdentity(1, log1, logname);
    assert DigestFrom(0, log, Spaced(host, logname)) == DigestFrom(1, log1, logname);
  }

  /** A line that ends in the user: no error after three states, and all
      three identity fields are stored placeholder-normalised. */
  lemma DigestEndsInUser(log: AccessLog, host: Bytes, logname: Bytes, user: Bytes)
    requires host != [] && ' ' !in host && logname != [] && ' ' !in logname
    requires user != [] && ' ' !in user
    ensures Digest(log, Spaced(host, Spaced(logname, user)))
            == DigestResult(log.(remoteHostname := TransformNilLogItem(host),
                                 remoteLogname := TransformNilLogItem(logname),
                                 remoteUser := TransformNilLogItem(user)), 3, Ok)
  {
    var s1 := Spaced(logname, user);
    var log1 := log.(remoteHostname := TransformNilLogItem(host));
    var log2 := log1.(remoteLogname := TransformNilLogItem(logname));
    StepIdentity(0, log, host, s1);
    StepIdentity(1, log1, logname, user);
    DigestLastIdentity(2, log2, user);
    assert DigestFrom(1, log1, s1) == DigestFrom(2, log2, user);
    assert DigestFrom(0, log, Spaced(host, s1)) == DigestFrom(1, log1, s1);
  }

  /** A line that ends after a `-` request: no error, the request is the
      empty Request{}, and status, bytes, referer and user-agent keep the
      receiver's values (the zero values for a fresh entry). */
  lemma DigestEndsAfterPlaceholderRequest(log: AccessLog, p: LineParts)
    requires HeadWritable(p)
    ensures Digest(log, Head(p, Wrap('"', "-", '"', [])))
            == DigestResult(AfterHead(log, p).(request := EmptyRequest), 5, Ok)
  {
    DigestHead(log, p, Wrap('"', "-", '"', []));
    var s4 := Wrap('"', "-", '"', []);
    ExtractWrappedToken('"', "-", '"', ' ', []);
    assert s4 == ['"'] + "-" + ['"'] + [' '] + [];
    assert s4[|"-"| + 3..] == [];
  }

  /** A request field that opens a quote, never closes it and is followed by
      a space makes extractWrappedUntil slice `input[1:0]`: a runtime panic
      in state 4. */
  lemma DigestUnclosedRequestPanics(log: AccessLog, p: LineParts, rest: Bytes)
    requires HeadWritable(p) && '"' !in rest
    ensures Digest(log, Head(p, "\" " + rest)) == DigestResult(AfterHead(log, p), 4, Panicked)
  {
    DigestHead(log, p, "\" " + rest);
    var s4: Bytes := "\" " + rest;
    assert s4[1..] == " " + rest;
    assert WrappedPanics(s4, '"', '"', ' ');
  }

  /** An unclosed quote followed by anything but a space is reported as "not
      followed by delimiter", never as "could not find end". */
  lemma DigestUnclosedRequestNoDelimiter(log: AccessLog, p: LineParts, rest: Bytes)
    requires HeadWritable(p) && rest != [] && rest[0] != ' ' && '"' !in rest
    ensures Digest(log, Head(p, "\"" + rest))
            == DigestResult(AfterHead(log, p), 4, Failed(RequestField(NoDelimiter)))
  {
    DigestHead(log, p, "\"" + rest);
    var s4: Bytes := "\"" + rest;
    assert s4[1..] == rest;
    assert s4[1] == rest[0];
  }

  /** A number field that is not a decimal integer ends the loop in its own
      state, with the receiver unchanged. */
  lemma DigestFromBadNumber(state: nat, log: AccessLog, token: Bytes, rest: Bytes)
    requires (state == 5 || state == 6) && ' ' !in token && !IsDecimalInteger(token)
    ensures DigestFrom(state, log, Spaced(token, rest))
            == DigestResult(log, state, Failed(if state == 5 then StatusNotInteger(token) else BytesNotInteger(token)))
  {
    ExtractUntilToken(token, ' ', rest);
  }

  /** A status that is not a decimal integer stops Digest in state 5 with the
      status left as the receiver held it. */
  lemma DigestBadStatus(log: AccessLog, p: LineParts, status: Bytes, rest: Bytes)
    requires Writable(p) && ' ' !in status && !IsDecimalInteger(status)
    ensures Digest(log, Head(p, Wrap('"', RequestText(p), '"', Spaced(status, rest))))
            == DigestResult(AfterHead(log, p).(request := Request(p.httpMethod, p.uri, p.version)),
                            5, Failed(StatusNotInteger(status)))
  {
    var s5 := Spaced(status, rest);
    var s4 := Wrap('"', RequestText(p), '"', s5);
    var log4 := AfterHead(log, p);
    var log5 := log4.(request := Request(p.httpMethod, p.uri, p.version));
    DigestHead(log, p, s4);
    StepRequest(log4, p, s5);
    DigestFromBadNumber(5, log5, status, rest);
    assert DigestFrom(4, log4, s4) == DigestFrom(5, log5, s5);
  }

  /** A bytes-sent field that is not a decimal integer, after a status that
      is, stops Digest in state 6 with the status stored and the bytes left as
      the receiver held them. */
  lemma DigestBadBytes(log: AccessLog, p: LineParts, bytes: Bytes, rest: Bytes)
    requires Writable(p) && ' ' !in bytes && !IsDecimalInteger(bytes)
    ensures Digest(log, Head(p, Wrap('"', RequestText(p), '"',
                                     Spaced(FormatInt(p.status), Spaced(bytes, rest)))))
            == DigestResult(AfterHead(log, p).(request := Request(p.httpMethod, p.uri, p.version),
                                               statusCode := p.status),
                            6, Failed(BytesNotInteger(bytes)))
  {
    var s6 := Spaced(bytes, rest);
    var s5 := Spaced(FormatInt(p.status), s6);
    var s4 := Wrap('"', RequestText(p), '"', s5);
    var log4 := AfterHead(log, p);
    var log5 := log4.(request := Request(p.httpMethod, p.uri, p.version));
    var log6 := log5.(statusCode := p.status);
    DigestHead(log, p, s4);
    StepRequest(log4, p, s5);
    StepNumber(5, log5, p.status, s6);
    DigestFromBadNumber(6, log6, bytes, rest);
    assert DigestFrom(5, log5, s5) == DigestFrom(6, log6, s6);
    assert DigestFrom(4, log4, s4) == DigestFrom(5, log5, s5);
  }

  /** A time field that does not open with `[` stops Digest in state 3 with
      the three identity fields stored. */
  lemma DigestBadTime(log: AccessLog, host: Bytes, logname: Bytes, user: Bytes, rest: Bytes)
    requires ' ' !in host && ' ' !in logname && ' ' !in user
    requires rest != [] && rest[0] != '['
    ensures Digest(log, Spaced(host, Spaced(logname, Spaced(user, rest))))
            == DigestResult(log.(remoteHostname := TransformNilLogItem(host),
                                 remoteLogname := TransformNilLogItem(logname),
                                 remoteUser := TransformNilLogItem(user)),
                            3, Failed(TimeField(BadStart)))
  {
    var s2 := Spaced(user, rest);
    var s1 := Spaced(logname, s2);
    var log1 := log.(remoteHostname := TransformNilLogItem(host));
    var log2 := log1.(remoteLogname := TransformNilLogItem(logname));
    var log3 := log2.(remoteUser := TransformNilLogItem(user));
    StepIdentity(0, log, host, s1);
    StepIdentity(1, log1, logname, s2);
    StepIdentity(2, log2, user, rest);
    assert DigestStep(3, log3, rest) == Stop(log3, Failed(TimeField(BadStart)));
    assert DigestFrom(3, log3, rest) == DigestResult(log3, 3, Failed(TimeField(BadStart)));
    assert DigestFrom(2, log2, s2) == DigestFrom(3, log3, rest);
    assert DigestFrom(1, log1, s1) == DigestFrom(2, log2, s2);
  }
}
