/** The byte-scanning primitives of the log parser: cut a field up to a
    delimiter, cut a bracketed or quoted field, and map the `-` placeholder
    to the empty value. */
module Extract {
  import opened GoLib

  /** A field cut from the front of the input: `next` is the offset at which
      the rest of the input starts, `token` the bytes of the field. */
  datatype Cut = Cut(next: nat, token: Bytes)

  /** Why a wrapped field could not be cut. */
  datatype WrapError =
    | BadStart     // the input does not begin with the opening byte
    | MissingEnd   // no closing byte (bracket style only)
    | NoDelimiter  // the closing byte is followed by something other than the delimiter

  datatype Wrapped = Found(cut: Cut) | Malformed(error: WrapError)

  /** extractUntil: the bytes before the first `delimiter`, and the offset just
      past it; the whole input and its length when there is no delimiter. */
  function ExtractUntil(input: Bytes, delimiter: byte): (r: Cut)
    ensures r.next <= |input|
    ensures |input| > 0 ==> r.next >= 1
    ensures delimiter !in r.token
    ensures delimiter in input ==>
              && r.next == |r.token| + 1
              && input[..|r.token|] == r.token
              && input[|r.token|] == delimiter
    ensures delimiter !in input ==> r == Cut(|input|, input)
  {
    var i := IndexByte(input, delimiter);
    if i == -1 then Cut(|input|, input[..])
    else Cut(i + 1, input[0..i])
  }

  /** The cut loses nothing: the token, the delimiter (when there was one) and
      the rest of the input make up the input again. */
  lemma ExtractUntilRebuild(input: Bytes, delimiter: byte)
    ensures var r := ExtractUntil(input, delimiter);
            input == r.token + (if delimiter in input then [delimiter] else []) + input[r.next..]
  {
    var r := ExtractUntil(input, delimiter);
    if delimiter in input {
      assert input == input[..|r.token|] + [input[|r.token|]] + input[r.next..];
    }
  }

  /** A token followed by the delimiter is cut exactly. */
  lemma ExtractUntilToken(token: Bytes, delimiter: byte, rest: Bytes)
    requires delimiter !in token
    ensures ExtractUntil(token + [delimiter] + rest, delimiter) == Cut(|token| + 1, token)
    ensures (token + [delimiter] + rest)[|token| + 1..] == rest
  {
    var input := token + [delimiter] + rest;
    assert input[..|token|] == token;
    IndexByteAt(input, delimiter, |token|);
  }

  /** extractWrappedUntil would slice `input[1:0]` and panic: quote style
      (`left == right`), no closing quote after the opening one, and either
      the opening quote is the whole input or it is followed by the delimiter.
      In Go's terms: the closing index `i` found after `i++` is 0, and the
      code takes one of the two returns that slice `input[1:i]`. */
  predicate WrappedPanics(input: Bytes, left: byte, right: byte, delimiter: byte): (b: bool)
    requires |input| > 0
    ensures b <==>
              && IndexByte(input, left) == 0
              && left == right
              && IndexByte(input[1..], right) + 1 == 0
              && (|input| == 1 || input[1] == delimiter)
  {
    && input[0] == left
    && left == right
    && right !in input[1..]
    && (|input| == 1 || input[1] == delimiter)
  }

  /** The wrapped field of `input` closes at offset `i`: `left` opens it at
      offset 0, `i` holds the first `right` after that, and the field is the
      last thing in the input or is followed by `delimiter`. */
  predicate WrappedAt(input: Bytes, left: byte, right: byte, delimiter: byte, i: int) {
    && 1 <= i < |input|
    && input[0] == left
    && input[i] == right
    && right !in input[1..i]
    && (i + 1 == |input| || input[i + 1] == delimiter)
  }

  /** The offset after a wrapped field closing at `i`: past the closing byte
      at the end of the input, else past the delimiter too. */
  function NextAfter(input: Bytes, i: nat): (n: nat)
    requires i < |input|
    ensures n <= |input|
    ensures n == i + 1 || (n == i + 2 && i + 1 < |input|)
    ensures n == i + 1 <==> i + 1 == |input|
  {
    if i + 1 == |input| then i + 1 else i + 2
  }

  /** The closing byte the scanner finds is the only position a wrapped
      field can end at. */
  lemma WrappedAtIsClose(input: Bytes, left: byte, right: byte, delimiter: byte, j: int)
    requires |input| > 0 && input[0] == left
    requires j == if left == right then IndexByte(input[1..], right) + 1 else IndexByte(input, right)
    ensures left != right ==> j == -1 || 1 <= j
    ensures forall i :: WrappedAt(input, left, right, delimiter, i) ==> i == j
  {
    forall i | WrappedAt(input, left, right, delimiter, i)
      ensures i == j
    {
      if left == right {
        assert input[1..][i - 1] == right && input[1..][..i - 1] == input[1..i];
        IndexByteAt(input[1..], right, i - 1);
      } else {
        assert right !in input[..i] by {
          assert input[..i] == [input[0]] + input[1..i];
        }
        IndexByteAt(input, right, i);
      }
    }
  }

  /** extractWrappedUntil: the bytes strictly between an opening `left` at
      offset 0 and the first closing `right` after it, which must be the last
      byte or be followed by `delimiter`. */
  function ExtractWrappedUntil(input: Bytes, left: byte, right: byte, delimiter: byte): (r: Wrapped)
    requires |input| > 0
    requires !WrappedPanics(input, left, right, delimiter)
    ensures r == Malformed(BadStart) <==> input[0] != left
    ensures r == Malformed(MissingEnd) <==> input[0] == left && left != right && right !in input
    ensures input[0] == left && left == right && right !in input[1..] ==> r == Malformed(NoDelimiter)
    ensures r.Found? ==>
              var i := |r.cut.token| + 1;
              && WrappedAt(input, left, right, delimiter, i)
              && input[1..i] == r.cut.token
              && r.cut.next == NextAfter(input, i)
    ensures forall i :: WrappedAt(input, left, right, delimiter, i) ==>
              r == Found(Cut(NextAfter(input, i), input[1..i]))
  {
    var i := IndexByte(input, left);
    if i != 0 then Malformed(BadStart)
    else
      var j := if left == right then IndexByte(input[1..], right) + 1 else IndexByte(input, right);
      WrappedAtIsClose(input, left, right, delimiter, j);
      if j == -1 then Malformed(MissingEnd)
      else if |input| == j + 1 then Found(Cut(j + 1, input[1..j]))
      else if input[j + 1] != delimiter then Malformed(NoDelimiter)
      else Found(Cut(j + 2, input[1..j]))
  }

  /** A wrapped token followed by the delimiter is cut exactly, and never panics. */
  lemma ExtractWrappedToken(left: byte, token: Bytes, right: byte, delimiter: byte, rest: Bytes)
    requires right !in token
    ensures var input := [left] + token + [right] + [delimiter] + rest;
            && !WrappedPanics(input, left, right, delimiter)
            && ExtractWrappedUntil(input, left, right, delimiter) == Found(Cut(|token| + 3, token))
            && input[|token| + 3..] == rest
  {
    var input := [left] + token + [right] + [delimiter] + rest;
    var i := |token| + 1;
    assert input[1..i] == token;
    assert input[i] == right;
    assert right in input[1..];
  }

  /** A wrapped token that ends the input is cut exactly, and never panics. */
  lemma ExtractWrappedLast(left: byte, token: Bytes, right: byte, delimiter: byte)
    requires right !in token
    ensures var input := [left] + token + [right];
            && !WrappedPanics(input, left, right, delimiter)
            && ExtractWrappedUntil(input, left, right, delimiter) == Found(Cut(|token| + 2, token))
  {
    var input := [left] + token + [right];
    var i := |token| + 1;
    assert input[1..i] == token;
    assert input[i] == right;
    assert right in input[1..];
  }

  /** transformNilLogItem: the lone `-` placeholder becomes empty. */
  function TransformNilLogItem(b: Bytes): (r: Bytes)
    ensures r != "-"
    ensures r == b || r == []
    ensures r == [] ==> b == [] || b == "-"
  {
    if b == "-" then [] else b
  }

  /** Exactly the one-byte `-` is changed. */
  lemma TransformNilChanges(b: Bytes)
    ensures TransformNilLogItem(b) != b <==> b == "-"
  {
  }

  /** Normalising twice is normalising once. */
  lemma TransformNilIdempotent(b: Bytes)
    ensures TransformNilLogItem(TransformNilLogItem(b)) == TransformNilLogItem(b)
  {
  }
}
