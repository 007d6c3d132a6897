/** Models of the few Go standard-library routines the log parser relies on:
    `bytes.IndexByte`, `bytes.Trim` with a one-byte cutset, `strconv.Atoi`
    (and its inverse `strconv.Itoa`), and the token splitting that
    `fmt.Fscanf(buf, "%s %s %s", ...)` performs. */
module GoLib {
  import opened Seqs

  /** One byte of a Go `[]byte` or `string`. Bytes are written as characters
      below 256 so that log lines can be given as string literals. */
  type byte = c: char | c as int < 256

  type Bytes = seq<byte>

  datatype Option<+T> = None | Some(value: T)

  /* ---------------------------------------------------------------------
     bytes.IndexByte
     --------------------------------------------------------------------- */

  /** Index of the first occurrence of `c` in `s`, or -1 when there is none. */
  function IndexByte(s: Bytes, c: byte): (i: int)
    ensures -1 <= i < |s|
    ensures i == -1 <==> c !in s
    ensures 0 <= i ==> s[i] == c && c !in s[..i]
  {
    if s == [] then -1
    else if s[0] == c then 0
    else
      var j := IndexByte(s[1..], c);
      if j == -1 then -1
      else
        assert s[..j + 1] == [s[0]] + s[1..][..j];
        j + 1
  }

  /** The first occurrence is the unique position `i` holding `c` with no `c` before it. */
  lemma IndexByteAt(s: Bytes, c: byte, i: nat)
    requires i < |s| && s[i] == c && c !in s[..i]
    ensures IndexByte(s, c) == i
  {
  }

  /* ---------------------------------------------------------------------
     bytes.Trim(s, cutset) for a one-byte cutset
     --------------------------------------------------------------------- */

  /** The number of leading `c` bytes of `s`. */
  function Leading(s: Bytes, c: byte): (n: nat)
    ensures n <= |s|
    ensures forall k :: 0 <= k < n ==> s[k] == c
    ensures n == |s| || s[n] != c
  {
    if s != [] && s[0] == c then 1 + Leading(s[1..], c) else 0
  }

  /** `s` with every leading `c` removed. */
  function TrimLeft(s: Bytes, c: byte): (r: Bytes)
    ensures r == [] || r[0] != c
  {
    s[Leading(s, c)..]
  }

  /** `s` with every trailing `c` removed. */
  function TrimRight(s: Bytes, c: byte): (r: Bytes)
    ensures |r| <= |s| && r == s[..|r|]
    ensures forall k :: |r| <= k < |s| ==> s[k] == c
    ensures r == [] || r[|r| - 1] != c
  {
    if s != [] && s[|s| - 1] == c then TrimRight(s[..|s| - 1], c) else s
  }

  /** `s` with every leading and trailing `c` removed: what is left is the
      infix starting at the first non-`c` byte, and only `c` follows it. */
  function Trim(s: Bytes, c: byte): (r: Bytes)
    ensures r == [] || (r[0] != c && r[|r| - 1] != c)
    ensures Leading(s, c) + |r| <= |s|
    ensures r == s[Leading(s, c)..Leading(s, c) + |r|]
    ensures forall k :: Leading(s, c) + |r| <= k < |s| ==> s[k] == c
  {
    var l := TrimLeft(s, c);
    var r := TrimRight(l, c);
    var lo := Leading(s, c);
    assert forall k :: lo + |r| <= k < |s| ==> s[k] == l[k - lo];
    r
  }

  /** Trimming a run of `c` on each side of a value that neither starts nor
      ends with `c` gives back exactly that value. */
  lemma {:induction false} TrimSurrounded(pre: Bytes, v: Bytes, post: Bytes, c: byte)
    requires forall k :: 0 <= k < |pre| ==> pre[k] == c
    requires forall k :: 0 <= k < |post| ==> post[k] == c
    requires v == [] || (v[0] != c && v[|v| - 1] != c)
    ensures Trim(pre + v + post, c) == v
  {
    if v == [] {
      assert pre + v + post == (pre + post) + [];
      TrimLeftPrefix(pre + post, [], c);
    } else {
      assert pre + v + post == pre + (v + post);
      TrimLeftPrefix(pre, v + post, c);
      TrimRightSuffix(v, post, c);
    }
  }

  lemma {:induction false} TrimLeftPrefix(pre: Bytes, rest: Bytes, c: byte)
    requires forall k :: 0 <= k < |pre| ==> pre[k] == c
    requires rest == [] || rest[0] != c
    ensures TrimLeft(pre + rest, c) == rest
  {
    if pre != [] {
      assert (pre + rest)[1..] == pre[1..] + rest;
      TrimLeftPrefix(pre[1..], rest, c);
    }
  }

  lemma {:induction false} TrimRightSuffix(rest: Bytes, post: Bytes, c: byte)
    requires forall k :: 0 <= k < |post| ==> post[k] == c
    requires rest == [] || rest[|rest| - 1] != c
    ensures TrimRight(rest + post, c) == rest
  {
    if post != [] {
      var s := rest + post;
      assert s[..|s| - 1] == rest + post[..|post| - 1];
      TrimRightSuffix(rest, post[..|post| - 1], c);
    } else {
      assert rest + post == rest;
    }
  }

  /* ---------------------------------------------------------------------
     strconv.Atoi / strconv.Itoa
     --------------------------------------------------------------------- */

  predicate IsDigit(c: byte) {
    '0' <= c <= '9'
  }

  predicate AllDigits(s: Bytes) {
    forall k :: 0 <= k < |s| ==> IsDigit(s[k])
  }

  /** The value of a decimal digit string, most significant digit first. */
  function DigitsValue(s: Bytes): nat
    requires AllDigits(s)
  {
    if s == [] then 0
    else DigitsValue(s[..|s| - 1]) * 10 + (s[|s| - 1] as int - '0' as int)
  }

  /** The grammar Atoi accepts: an optional `+` or `-` followed by at least one digit. */
  predicate IsDecimalInteger(s: Bytes) {
    var digits := if |s| > 0 && (s[0] == '+' || s[0] == '-') then s[1..] else s;
    |digits| > 0 && AllDigits(digits)
  }

  /** `strconv.Atoi`: None models the returned error. */
  function Atoi(s: Bytes): (r: Option<int>)
    ensures r.Some? <==> IsDecimalInteger(s)
  {
    if |s| > 0 && (s[0] == '+' || s[0] == '-') then
      var digits := s[1..];
      if |digits| > 0 && AllDigits(digits) then
        Some(if s[0] == '-' then -(DigitsValue(digits) as int) else DigitsValue(digits))
      else None
    else if |s| > 0 && AllDigits(s) then Some(DigitsValue(s))
    else None
  }

  function DigitChar(d: nat): (c: byte)
    requires d < 10
    ensures IsDigit(c) && c as int - '0' as int == d
  {
    ('0' as int + d) as char
  }

  /** Decimal digits of a natural number, no leading zeros. */
  function Itoa(n: nat): (s: Bytes)
    ensures |s| > 0 && AllDigits(s)
  {
    if n < 10 then [DigitChar(n)] else Itoa(n / 10) + [DigitChar(n % 10)]
  }

  /** `strconv.Itoa` for any integer: a `-` sign for negative numbers. */
  function FormatInt(n: int): (s: Bytes)
    ensures |s| > 0 && ' ' !in s && '"' !in s
  {
    var s := if n < 0 then "-" + Itoa(-n) else Itoa(n);
    assert forall k :: 0 <= k < |s| ==> s[k] == '-' || IsDigit(s[k]);
    s
  }

  lemma {:induction false} DigitsOfItoa(n: nat)
    ensures DigitsValue(Itoa(n)) == n
  {
    if n >= 10 {
      var s := Itoa(n);
      assert s[..|s| - 1] == Itoa(n / 10);
      DigitsOfItoa(n / 10);
    }
  }

  lemma AtoiItoa(m: nat)
    ensures Atoi(Itoa(m)) == Some(m)
  {
    var s := Itoa(m);
    assert IsDigit(s[0]);
    DigitsOfItoa(m);
  }

  lemma AtoiMinusItoa(m: nat)
    ensures Atoi("-" + Itoa(m)) == Some(-(m as int))
  {
    var s := "-" + Itoa(m);
    assert s[1..] == Itoa(m);
    DigitsOfItoa(m);
  }

  /** Parsing a formatted integer gives the integer back. */
  lemma AtoiFormatInt(n: int)
    ensures Atoi(FormatInt(n)) == Some(n)
  {
    if n < 0 {
      assert FormatInt(n) == "-" + Itoa(-n);
      AtoiMinusItoa(-n);
    } else {
      assert FormatInt(n) == Itoa(n);
      AtoiItoa(n);
    }
  }

  /** `z` zero digits. */
  function Zeros(z: nat): (r: Bytes)
    ensures |r| == z && AllDigits(r)
  {
    if z == 0 then [] else Zeros(z - 1) + ['0']
  }

  lemma {:induction false} DigitsValueAllZeros(z: nat)
    ensures DigitsValue(Zeros(z)) == 0
  {
    if z > 0 {
      assert Zeros(z)[..z - 1] == Zeros(z - 1);
      DigitsValueAllZeros(z - 1);
    }
  }

  /** Leading zeros do not change the value of a digit string. */
  lemma {:induction false} DigitsValueZeros(z: nat, s: Bytes)
    requires AllDigits(s)
    ensures AllDigits(Zeros(z) + s)
    ensures DigitsValue(Zeros(z) + s) == DigitsValue(s)
    decreases |s|
  {
    var t := Zeros(z) + s;
    assert forall k :: 0 <= k < |t| ==> t[k] == if k < z then Zeros(z)[k] else s[k - z];
    if s == [] {
      assert t == Zeros(z);
      DigitsValueAllZeros(z);
    } else {
      var u := s[..|s| - 1];
      assert t[..|t| - 1] == Zeros(z) + u;
      assert t[|t| - 1] == s[|s| - 1];
      DigitsValueZeros(z, u);
    }
  }

  /** A non-empty digit string of value n behind an optional sign parses to
      n, or to -n behind `-`. */
  lemma AtoiSignDigits(sign: Bytes, d: Bytes, n: nat)
    requires sign == "" || sign == "+" || sign == "-"
    requires d != [] && AllDigits(d) && DigitsValue(d) == n
    ensures Atoi(sign + d) == Some(if sign == "-" then -(n as int) else n)
  {
    assert IsDigit(d[0]);
    if sign == "" {
      assert sign + d == d;
    } else {
      assert (sign + d)[0] == sign[0];
      assert (sign + d)[1..] == d;
    }
  }

  /** Every text Atoi accepts with digits in canonical form behind optional
      leading zeros and an optional sign parses to its value: `+` and no sign
      give the number, `-` its negation. */
  lemma AtoiSigned(sign: Bytes, z: nat, n: nat)
    requires sign == "" || sign == "+" || sign == "-"
    ensures Atoi(sign + Zeros(z) + Itoa(n)) == Some(if sign == "-" then -(n as int) else n)
  {
    var d := Zeros(z) + Itoa(n);
    DigitsValueZeros(z, Itoa(n));
    DigitsOfItoa(n);
    AppendAssoc(sign, Zeros(z), Itoa(n));
    AtoiSignDigits(sign, d, n);
  }

  /* ---------------------------------------------------------------------
     Space-separated tokens, as `%s` verbs of fmt.Fscanf read them
     --------------------------------------------------------------------- */

  /** The maximal runs of non-space bytes of `s`, in order. */
  function Fields(s: Bytes): (r: seq<Bytes>)
    ensures forall k :: 0 <= k < |r| ==> r[k] != [] && ' ' !in r[k]
    decreases |s|
  {
    if s == [] then []
    else if s[0] == ' ' then Fields(s[1..])
    else
      var i := IndexByte(s, ' ');
      if i == -1 then [s] else [s[..i]] + Fields(s[i + 1..])
  }

  predicate IsToken(t: Bytes) {
    t != [] && ' ' !in t
  }

  /** Tokens separated by single spaces. */
  function Join(ts: seq<Bytes>): Bytes {
    if ts == [] then []
    else if |ts| == 1 then ts[0]
    else ts[0] + " " + Join(ts[1..])
  }

  /** Splitting a space-joined list of tokens gives the tokens back. */
  lemma {:induction false} FieldsJoin(ts: seq<Bytes>)
    requires forall k :: 0 <= k < |ts| ==> IsToken(ts[k])
    ensures Fields(Join(ts)) == ts
  {
    if |ts| == 1 {
      assert IndexByte(ts[0], ' ') == -1;
    } else if |ts| > 1 {
      var t := ts[0];
      var s := Join(ts);
      assert s == t + ([' '] + Join(ts[1..]));
      IndexByteAt(s, ' ', |t|);
      assert s[..|t|] == t;
      assert s[|t| + 1..] == Join(ts[1..]);
      FieldsJoin(ts[1..]);
    }
  }

  /** `n` spaces. */
  function Spaces(n: nat): (r: Bytes)
    ensures |r| == n
    ensures forall k :: 0 <= k < n ==> r[k] == ' '
  {
    if n == 0 then [] else [' '] + Spaces(n - 1)
  }

  /** Run lengths of spaces around `ts`: one before each token and one after
      the last, at least one between two tokens. */
  predicate GapsFit(ts: seq<Bytes>, gaps: seq<nat>) {
    && |gaps| == |ts| + 1
    && forall k :: 0 < k < |ts| ==> gaps[k] >= 1
  }

  /** The tokens `ts` laid out with `gaps[k]` spaces before token `k` and
      `gaps[|ts|]` spaces after the last one. */
  function Spread(ts: seq<Bytes>, gaps: seq<nat>): Bytes
    requires |gaps| == |ts| + 1
    decreases |ts|
  {
    if ts == [] then Spaces(gaps[0])
    else Spaces(gaps[0]) + ts[0] + Spread(ts[1..], gaps[1..])
  }

  lemma {:induction false} FieldsAfterSpaces(n: nat, s: Bytes)
    ensures Fields(Spaces(n) + s) == Fields(s)
  {
    if n > 0 {
      assert (Spaces(n) + s)[1..] == Spaces(n - 1) + s;
      FieldsAfterSpaces(n - 1, s);
    } else {
      assert Spaces(n) + s == s;
    }
  }

  /** A token followed by a space or by the end is the first field. */
  lemma FieldsToken(t: Bytes, s: Bytes)
    requires IsToken(t) && (s == [] || s[0] == ' ')
    ensures Fields(t + s) == [t] + (if s == [] then [] else Fields(s[1..]))
  {
    var u := t + s;
    assert u[0] == t[0];
    if s == [] {
      assert u == t;
    } else {
      assert u[..|t|] == t;
      IndexByteAt(u, ' ', |t|);
      assert u[|t| + 1..] == s[1..];
    }
  }

  lemma SpreadCons(t: Bytes, ts: seq<Bytes>, g: nat, gs: seq<nat>)
    requires |gs| == |ts| + 1
    ensures Spread([t] + ts, [g] + gs) == Spaces(g) + (t + Spread(ts, gs))
  {
    assert ([t] + ts)[1..] == ts;
    assert ([g] + gs)[1..] == gs;
  }

  /** A first gap of at least one space puts a space first. */
  lemma SpreadFirst(ts: seq<Bytes>, gaps: seq<nat>)
    requires |gaps| == |ts| + 1 && gaps[0] >= 1
    ensures Spread(ts, gaps) != [] && Spread(ts, gaps)[0] == ' '
  {
  }

  /** One more leading space widens the first gap. */
  lemma SpreadWiden(ts: seq<Bytes>, gaps: seq<nat>)
    requires |gaps| == |ts| + 1
    ensures Spread(ts, Widen(gaps)) == [' '] + Spread(ts, gaps)
  {
  }

  /** A layout that starts with a token followed by more spaces splits into
      that token and the fields of the rest. */
  lemma FieldsSpreadStep(ts: seq<Bytes>, gaps: seq<nat>)
    requires ts != [] && IsToken(ts[0]) && GapsFit(ts, gaps)
    requires Fields(Spread(ts[1..], gaps[1..])) == ts[1..]
    ensures Fields(Spread(ts, gaps)) == ts
  {
    var tail := Spread(ts[1..], gaps[1..]);
    assert Spread(ts, gaps) == Spaces(gaps[0]) + (ts[0] + tail);
    FieldsAfterSpaces(gaps[0], ts[0] + tail);
    if gaps[1] >= 1 {
      SpreadFirst(ts[1..], gaps[1..]);
      FieldsToken(ts[0], tail);
      assert Fields(tail) == Fields(tail[1..]);
      assert ts == [ts[0]] + ts[1..];
    } else {
      assert tail == [];
      FieldsToken(ts[0], tail);
    }
  }

  /** Tokens with runs of spaces between them, and any spaces at either end,
      split back into exactly those tokens. */
  lemma {:induction false} FieldsSpread(ts: seq<Bytes>, gaps: seq<nat>)
    requires forall k :: 0 <= k < |ts| ==> IsToken(ts[k])
    requires GapsFit(ts, gaps)
    ensures Fields(Spread(ts, gaps)) == ts
    decreases |ts|
  {
    if ts == [] {
      assert Spread(ts, gaps) == Spaces(gaps[0]) + [];
      FieldsAfterSpaces(gaps[0], []);
    } else {
      assert GapsFit(ts[1..], gaps[1..]);
      FieldsSpread(ts[1..], gaps[1..]);
      FieldsSpreadStep(ts, gaps);
    }
  }

  /** One more space in the first gap. */
  function Widen(g: seq<nat>): (w: seq<nat>)
    requires g != []
    ensures |w| == |g| && w[0] == g[0] + 1 && w[1..] == g[1..]
  {
    [g[0] + 1] + g[1..]
  }

  /** The run lengths of spaces around the fields of `s`. */
  function Gaps(s: Bytes): (g: seq<nat>)
    ensures |g| == |Fields(s)| + 1
    decreases |s|
  {
    if s == [] then [0]
    else if s[0] == ' ' then Widen(Gaps(s[1..]))
    else
      var i := IndexByte(s, ' ');
      if i == -1 then [0, 0]
      else
        [0] + Widen(Gaps(s[i + 1..]))
  }

  lemma SpreadGapsSpace(s: Bytes)
    requires s != [] && s[0] == ' '
    requires Spread(Fields(s[1..]), Gaps(s[1..])) == s[1..]
    ensures Spread(Fields(s), Gaps(s)) == s
  {
    var g := Gaps(s[1..]);
    assert Fields(s) == Fields(s[1..]);
    assert Gaps(s) == Widen(g);
    SpreadWiden(Fields(s[1..]), g);
    assert s == [' '] + s[1..];
  }

  /** A token, then one space, then a layout of more tokens. */
  lemma SpreadTokenThen(t: Bytes, f: seq<Bytes>, g: seq<nat>)
    requires |g| == |f| + 1
    ensures Spread([t] + f, [0] + Widen(g)) == t + ([' '] + Spread(f, g))
  {
    SpreadCons(t, f, 0, Widen(g));
    SpreadWiden(f, g);
    assert Spaces(0) == [];
  }

  /** Fields and Gaps of an input that starts with a token ending at the
      first space `i`. */
  lemma SplitAtFirstSpace(s: Bytes, i: nat)
    requires s != [] && s[0] != ' ' && i < |s| && IndexByte(s, ' ') == i
    ensures Fields(s) == [s[..i]] + Fields(s[i + 1..])
    ensures Gaps(s) == [0] + Widen(Gaps(s[i + 1..]))
  {
  }

  lemma SpreadGapsToken(s: Bytes, i: nat)
    requires s != [] && s[0] != ' ' && i < |s| && IndexByte(s, ' ') == i
    requires Spread(Fields(s[i + 1..]), Gaps(s[i + 1..])) == s[i + 1..]
    ensures Spread(Fields(s), Gaps(s)) == s
  {
    SplitAtFirstSpace(s, i);
    SplitAt(s, i);
    SpreadTokenThen(s[..i], Fields(s[i + 1..]), Gaps(s[i + 1..]));
  }

  /** Between two fields of an input there is at least one space. */
  lemma {:induction false} GapsFitFields(s: Bytes)
    ensures GapsFit(Fields(s), Gaps(s))
    decreases |s|
  {
    if s == [] {
    } else if s[0] == ' ' {
      GapsFitFields(s[1..]);
      var g := Gaps(s[1..]);
      assert Fields(s) == Fields(s[1..]);
      assert Gaps(s) == Widen(g);
    } else {
      var i := IndexByte(s, ' ');
      if i != -1 {
        var rest := s[i + 1..];
        GapsFitFields(rest);
        var g := Gaps(rest);
        assert Fields(s) == [s[..i]] + Fields(rest);
        assert Gaps(s) == [0] + Widen(g);
      }
    }
  }

  /** Every input is its fields laid out with its gaps. */
  lemma {:induction false} SpreadGaps(s: Bytes)
    ensures Spread(Fields(s), Gaps(s)) == s
    decreases |s|
  {
    if s == [] {
    } else if s[0] == ' ' {
      SpreadGaps(s[1..]);
      SpreadGapsSpace(s);
    } else {
      var i := IndexByte(s, ' ');
      if i == -1 {
        SpreadCons(s, [], 0, [0]);
        assert Fields(s) == [s] + [];
        assert Gaps(s) == [0] + [0];
      } else {
        SpreadGaps(s[i + 1..]);
        SpreadGapsToken(s, i);
      }
    }
  }

  /** Fields is exact: `s` splits into `ts` if and only if `s` is `ts` laid
      out with fitting gaps. */
  lemma FieldsIffSpread(s: Bytes, ts: seq<Bytes>)
    requires forall k :: 0 <= k < |ts| ==> IsToken(ts[k])
    ensures Fields(s) == ts <==> exists gaps :: GapsFit(ts, gaps) && Spread(ts, gaps) == s
  {
    if Fields(s) == ts {
      SpreadGaps(s);
      GapsFitFields(s);
      assert GapsFit(ts, Gaps(s)) && Spread(ts, Gaps(s)) == s;
    }
    if exists gaps :: GapsFit(ts, gaps) && Spread(ts, gaps) == s {
      var gaps :| GapsFit(ts, gaps) && Spread(ts, gaps) == s;
      FieldsSpread(ts, gaps);
    }
  }
}
