/**
 The request frame shared by the calculator programs: one count byte, `count` little-endian
 32-bit operands, `count - 1` operator bytes.
 */
module Frame {
  import opened CTypes

  const BUF_SIZE: nat := 1024

  lemma BufferSize()
    ensures BUF_SIZE == 1024
  {
  }

  datatype Request = Request(operands: seq<int32>, operators: bytes)

  /** The requests that the one-byte signed count can announce. */
  predicate WellFormed(f: Request) {
    1 <= |f.operands| <= 127 && |f.operators| == |f.operands| - 1
  }

  function FrameLength(n: nat): nat
    requires n > 0
  {
    1 + 4 * n + (n - 1)
  }

  function Words(xs: seq<int32>): (b: bytes)
    ensures |b| == 4 * |xs|
  {
    if xs == [] then [] else Words(xs[..|xs| - 1]) + Bytes32(xs[|xs| - 1])
  }

  function Encode(f: Request): (b: bytes)
    requires WellFormed(f)
    ensures |b| == FrameLength(|f.operands|)
  {
    [CharOf(|f.operands|)] + Words(f.operands) + f.operators
  }

  /** The operand count a receiver sees. */
  function Count(b: bytes): int
    requires b != []
  {
    SignedChar(b[0])
  }

  predicate Decodable(b: bytes) {
    b != [] && Count(b) >= 1 && |b| >= FrameLength(Count(b))
  }

  /** The indexed decoder: operand `j` at offset `1 + 4j`, operator `j` at offset `1 + 4n + j`. */
  function Decode(b: bytes): (f: Request)
    requires Decodable(b)
    ensures WellFormed(f) && |f.operands| == Count(b)
  {
    var n := Count(b);
    Request(seq(n, j requires 0 <= j < n => Int32At(b, 1 + 4 * j)), b[1 + 4 * n..5 * n])
  }

  lemma {:induction false} WordAt(xs: seq<int32>, j: nat)
    requires j < |xs|
    ensures Words(xs)[4 * j..4 * j + 4] == Bytes32(xs[j])
  {
    if j < |xs| - 1 {
      WordAt(xs[..|xs| - 1], j);
      assert Words(xs)[4 * j..4 * j + 4] == Words(xs[..|xs| - 1])[4 * j..4 * j + 4];
    }
  }

  /** A buffer that starts with an encoded request decodes to it, whatever follows the frame. */
  lemma {:induction false} DecodeEncode(f: Request, b: bytes)
    requires WellFormed(f) && Encode(f) <= b
    ensures Decodable(b) && Decode(b) == f
  {
    hide Encode, Int32At, Words, SignedChar, CharOf;
    var n := |f.operands|;
    FrontOfFrame(f, b);
    forall j | 0 <= j < n ensures Int32At(b, 1 + 4 * j) == f.operands[j] {
      OperandAt(f, b, j);
    }
    assert Decode(b).operands == f.operands;
  }

  /** The count byte and the operators of an encoded request. */
  lemma FrontOfFrame(f: Request, b: bytes)
    requires WellFormed(f) && Encode(f) <= b
    ensures var n := |f.operands|; |b| >= FrameLength(n) && Count(b) == n && b[1 + 4 * n..5 * n] == f.operators
  {
    hide Words;
    var n := |f.operands|;
    var e := Encode(f);
    assert e[0] == CharOf(n) == b[0];
    CharRoundTrip(n, b[0]);
    assert e[1 + 4 * n..] == f.operators;
    assert b[..5 * n] == e;
    assert b[..5 * n][1 + 4 * n..] == b[1 + 4 * n..5 * n];
  }

  lemma {:induction false} OperandAt(f: Request, b: bytes, j: nat)
    requires WellFormed(f) && Encode(f) <= b && j < |f.operands|
    ensures Int32At(b, 1 + 4 * j) == f.operands[j]
  {
    WordAt(f.operands, j);
    var w := Words(f.operands);
    assert Encode(f) == [CharOf(|f.operands|)] + (w + f.operators);
    var k := 4 * j;
    assert b[1 + k] == w[k] == w[k..k + 4][0];
    assert b[2 + k] == w[k + 1] == w[k..k + 4][1];
    assert b[3 + k] == w[k + 2] == w[k..k + 4][2];
    assert b[4 + k] == w[k + 3] == w[k..k + 4][3];
    Int32RoundTrip(f.operands[j]);
  }

  /** Encoding undoes decoding: a frame holds nothing but its request. */
  lemma {:induction false} EncodeDecode(b: bytes)
    requires Decodable(b)
    ensures Encode(Decode(b)) == b[..FrameLength(Count(b))]
  {
    var n := Count(b);
    CharRoundTrip(n, b[0]);
    WordsOfDecoded(b, Decode(b).operands, n);
    assert Decode(b).operands[..n] == Decode(b).operands;
    ThreeParts(b, 1 + 4 * n, 5 * n);
  }

  lemma {:induction false} WordsOfDecoded(b: bytes, xs: seq<int32>, n: nat)
    requires n <= |xs| && 1 + 4 * |xs| <= |b|
    requires forall j :: 0 <= j < |xs| ==> xs[j] == Int32At(b, 1 + 4 * j)
    ensures Words(xs[..n]) == b[1..1 + 4 * n]
  {
    hide Bytes32, Int32At;
    if n > 0 {
      WordsOfDecoded(b, xs, n - 1);
      var o := 1 + 4 * (n - 1);
      DecodedWord(b, o);
      assert xs[..n][..n - 1] == xs[..n - 1];
      Snoc4(b, o);
    }
  }

  lemma DecodedWord(b: bytes, o: nat)
    requires o + 4 <= |b|
    ensures Bytes32(Int32At(b, o)) == [b[o], b[o + 1], b[o + 2], b[o + 3]]
  {
    hide Bytes32, Int32Of;
    BytesRoundTrip(b[o], b[o + 1], b[o + 2], b[o + 3]);
  }

  lemma ThreeParts(b: bytes, i: nat, j: nat)
    requires 1 <= i <= j <= |b|
    ensures b[..j] == [b[0]] + b[1..i] + b[i..j]
  {
  }

  lemma Snoc4(b: bytes, o: nat)
    requires 1 <= o && o + 4 <= |b|
    ensures b[1..o + 4] == b[1..o] + [b[o], b[o + 1], b[o + 2], b[o + 3]]
  {
  }

  /** Two buffers decode alike exactly when they agree on the first `5n` bytes. */
  lemma {:induction false} DecodeReadsOnlyTheFrame(b: bytes, c: bytes)
    requires Decodable(b) && Decodable(c)
    ensures Decode(b) == Decode(c) <==> Count(b) == Count(c) && b[..5 * Count(b)] == c[..5 * Count(c)]
  {
    EncodeDecode(b);
    EncodeDecode(c);
    if Count(b) == Count(c) && b[..5 * Count(b)] == c[..5 * Count(c)] {
      DecodeEncode(Decode(b), b);
      DecodeEncode(Decode(b), c);
    }
  }

  /** Where the count, the operands and the operators of a frame are, byte by byte. */
  lemma {:induction false} FrameLayout(f: Request)
    requires WellFormed(f)
    ensures var n, e := |f.operands|, Encode(f);
      |e| == FrameLength(n) == 5 * n && e[0] as int == n
      && (forall j :: 0 <= j < n ==> Int32At(e, 1 + 4 * j) == f.operands[j])
      && (forall j :: 0 <= j < n ==> e[1 + 4 * j..5 + 4 * j] == Bytes32(f.operands[j]))
      && (forall j :: 0 <= j < n - 1 ==> e[1 + 4 * n + j] == f.operators[j])
  {
    hide Words, Int32At, Bytes32;
    var n, e := |f.operands|, Encode(f);
    FrontOfFrame(f, e);
    forall j | 0 <= j < n
      ensures Int32At(e, 1 + 4 * j) == f.operands[j] && e[1 + 4 * j..5 + 4 * j] == Bytes32(f.operands[j])
    {
      OperandAt(f, e, j);
      WordAt(f.operands, j);
      var w := Words(f.operands);
      assert e[1..1 + |w|] == w;
      assert e[1 + 4 * j..5 + 4 * j] == w[4 * j..4 * j + 4];
    }
    CharIsCongruent(n, e[0]);
    assert e[1 + 4 * n..5 * n] == f.operators;
  }

  // The chat client's encoder, which rewrites one buffer for every line typed (hw8_client.c).

  /** A blank-separated word of the typed line: the `int` atoi makes of it, and its first byte. */
  datatype Token = Token(value: int32, first: byte)

  datatype Sending = Nothing | Overflow | Sent

  function Announced(tokens: seq<Token>): int
    requires tokens != []
  {
    SignedChar(CharOf(tokens[0].value as int))
  }

  /** What the typed line asks the client to do. */
  function Reaction(tokens: seq<Token>): Sending {
    if tokens == [] then Nothing else if Announced(tokens) <= 0 then Overflow else Sent
  }

  function Values(tokens: seq<Token>): (xs: seq<int32>)
    ensures |xs| == |tokens|
  {
    seq(|tokens|, j requires 0 <= j < |tokens| => tokens[j].value)
  }

  function Firsts(tokens: seq<Token>): (b: bytes)
    ensures |b| == |tokens|
  {
    seq(|tokens|, j requires 0 <= j < |tokens| => tokens[j].first)
  }

  /** The line holds a count, that many operands and one operator fewer. */
  predicate EnoughTokens(tokens: seq<Token>)
    requires Reaction(tokens) == Sent
  {
    |tokens| >= 2 * Announced(tokens)
  }

  /** The request a complete line means. */
  function Typed(tokens: seq<Token>): (f: Request)
    requires Reaction(tokens) == Sent && EnoughTokens(tokens)
    ensures WellFormed(f)
  {
    var n := Announced(tokens);
    Request(Values(tokens[1..1 + n]), Firsts(tokens[1 + n..2 * n]))
  }

  /** The buffer after a line: each loop stops when no token is left, and other bytes are stale. */
  function Filled(was: bytes, tokens: seq<Token>): (b: bytes)
    requires |was| == BUF_SIZE && Reaction(tokens) == Sent
    ensures |b| == BUF_SIZE
  {
    var n := Announced(tokens);
    var m := Min(n, |tokens| - 1);
    var p := Min(n - 1, |tokens| - 1 - m);
    var counted := Overwrite(was, 0, [CharOf(tokens[0].value as int)]);
    var operands := Overwrite(counted, 1, Words(Values(tokens[1..1 + m])));
    Overwrite(operands, 1 + 4 * n, Firsts(tokens[1 + m..1 + m + p]))
  }

  method Put8(buf: array<byte>, off: nat, c: byte)
    requires off < buf.Length
    modifies buf
    ensures buf[..] == Overwrite(old(buf[..]), off, [c]) && buf[off] == c
  {
    buf[off] := c;
  }

  method Put32(buf: array<byte>, off: nat, x: int32)
    requires off + 4 <= buf.Length
    modifies buf
    ensures buf[..] == Overwrite(old(buf[..]), off, Bytes32(x))
  {
    var b := Bytes32(x);
    buf[off], buf[off + 1], buf[off + 2], buf[off + 3] := b[0], b[1], b[2], b[3];
    assert buf[off..off + 4] == b;
  }

  /** The operand loop: stores tokens until `n` are stored or none is left. */
  method StoreOperands(req: array<byte>, tokens: seq<Token>, n: nat) returns (next: nat)
    requires req.Length == BUF_SIZE && tokens != [] && n <= 127
    modifies req
    ensures next == 1 + Min(n, |tokens| - 1)
    ensures req[..] == Overwrite(old(req[..]), 1, Words(Values(tokens[1..next])))
  {
    ghost var was := req[..];
    next := 1;
    var i := 0;
    while i < n && next < |tokens|
      invariant 0 <= i <= n && next == 1 + i <= |tokens|
      invariant req[..] == Overwrite(was, 1, Words(Values(tokens[1..next])))
    {
      ghost var xs := Values(tokens[1..next + 1]);
      assert xs[..i] == Values(tokens[1..next]);
      OverwriteAdjacent(was, 1, Words(xs[..i]), Bytes32(xs[i]));
      Put32(req, 1 + i * 4, tokens[next].value);
      next := next + 1;
      i := i + 1;
    }
  }

  /** The operator loop, continuing at token `from`. */
  method StoreOperators(req: array<byte>, off: nat, tokens: seq<Token>, from: nat, n: nat)
    requires from <= |tokens| && off + n <= req.Length
    modifies req
    ensures req[..] == Overwrite(old(req[..]), off, Firsts(tokens[from..from + Min(n, |tokens| - from)]))
  {
    ghost var was := req[..];
    var next := from;
    var i := 0;
    while i < n && next < |tokens|
      invariant 0 <= i <= n && next == from + i <= |tokens|
      invariant req[..] == Overwrite(was, off, Firsts(tokens[from..next]))
    {
      assert Firsts(tokens[from..next + 1]) == Firsts(tokens[from..next]) + [tokens[next].first];
      OverwriteAdjacent(was, off, Firsts(tokens[from..next]), [tokens[next].first]);
      Put8(req, off + i, tokens[next].first);
      next := next + 1;
      i := i + 1;
    }
  }

  method FillRequest(req: array<byte>, tokens: seq<Token>) returns (sending: Sending)
    requires req.Length == BUF_SIZE
    modifies req
    ensures sending == Reaction(tokens)
    ensures req[..] == if sending == Sent then Filled(old(req[..]), tokens) else old(req[..])
  {
    hide Overwrite, Words, Values, Firsts, Filled, Bytes32;
    if tokens == [] {
      return Nothing;
    }
    var opCount := SignedChar(CharOf(tokens[0].value as int));
    if opCount <= 0 {
      return Overflow;
    }
    ghost var was := req[..];
    Put8(req, 0, CharOf(tokens[0].value as int));
    var next := StoreOperands(req, tokens, opCount);
    ghost var operands := req[..];
    StoreOperators(req, 1 + opCount * 4, tokens, next, opCount - 1);
    FilledInOrder(was, operands, tokens, next);
    return Sent;
  }

  lemma FilledInOrder(was: bytes, operands: bytes, tokens: seq<Token>, next: nat)
    requires |was| == BUF_SIZE && Reaction(tokens) == Sent
    requires next == 1 + Min(Announced(tokens), |tokens| - 1)
    requires operands == Overwrite(Overwrite(was, 0, [CharOf(tokens[0].value as int)]), 1, Words(Values(tokens[1..next])))
    ensures Overwrite(operands, 1 + Announced(tokens) * 4,
                      Firsts(tokens[next..next + Min(Announced(tokens) - 1, |tokens| - next)])) == Filled(was, tokens)
  {
  }

  /** The round trip over a dirty buffer: a complete line arrives as typed, whatever was there before. */
  lemma {:induction false} TypedLineArrives(was: bytes, tokens: seq<Token>)
    requires |was| == BUF_SIZE && Reaction(tokens) == Sent && EnoughTokens(tokens)
    ensures Decodable(Filled(was, tokens)) && Decode(Filled(was, tokens)) == Typed(tokens)
  {
    hide Overwrite, Words, Values, Firsts, Decode, Encode;
    var f := Typed(tokens);
    FilledIsEncoded(was, tokens, f);
    DecodeEncode(f, Filled(was, tokens));
  }

  lemma FilledIsEncoded(was: bytes, tokens: seq<Token>, f: Request)
    requires |was| == BUF_SIZE && Reaction(tokens) == Sent && EnoughTokens(tokens) && f == Typed(tokens)
    ensures Encode(f) <= Filled(was, tokens)
  {
    hide Words, Values, Firsts;
    var head := [CharOf(tokens[0].value as int)];
    CharRoundTrip(Announced(tokens), head[0]);
    OverwriteAdjacent(was, 0, head, Words(f.operands));
    OverwriteAdjacent(was, 0, head + Words(f.operands), f.operators);
  }

  /** When a line is sent: its first number, kept in a signed byte, is positive. */
  lemma SentIffCountIsPositive(tokens: seq<Token>)
    ensures Reaction(tokens) == Nothing <==> |tokens| == 0
    ensures |tokens| > 0 ==> (Reaction(tokens) == Sent <==> 1 <= tokens[0].value as int % 256 <= 127)
    ensures Reaction(tokens) == Sent ==> Announced(tokens) == tokens[0].value as int % 256
    ensures Reaction(tokens) == Sent ==> (EnoughTokens(tokens) <==> |tokens| >= 2 * (tokens[0].value as int % 256))
  {
  }

  lemma {:induction false} FilledByte(was: bytes, tokens: seq<Token>, k: nat)
    requires |was| == BUF_SIZE && Reaction(tokens) == Sent && k < BUF_SIZE
    ensures var n, t := Announced(tokens), |tokens|;
      var m, b := Min(n, t - 1), Filled(was, tokens)[k];
      if k == 0 then b == CharOf(tokens[0].value as int)
      else if k < 1 + 4 * m then b == Words(Values(tokens[1..1 + m]))[k - 1]
      else if 1 + 4 * n <= k < 5 * n && k - 3 * n < t then b == tokens[k - 3 * n].first
      else b == was[k]
  {
    hide Words;
  }

  /**
   Every token that is stored arrives at its place, every place without a token keeps what the buffer
   held, and nothing behind the frame changes.
   */
  lemma {:induction false} StoredTokensArrive(was: bytes, tokens: seq<Token>)
    requires |was| == BUF_SIZE && Reaction(tokens) == Sent
    ensures var n, b := tokens[0].value as int % 256, Filled(was, tokens);
      Decodable(b) && b[0] as int == n && |Decode(b).operands| == n
      && (forall j :: 0 <= j < n ==>
            Decode(b).operands[j] == if 1 + j < |tokens| then tokens[1 + j].value else Int32At(was, 1 + 4 * j))
      && (forall j :: 0 <= j < n - 1 ==>
            Decode(b).operators[j] == if 1 + n + j < |tokens| then tokens[1 + n + j].first else was[1 + 4 * n + j])
      && b[5 * n..] == was[5 * n..]
  {
    hide Filled, Words, Int32At;
    var n, b := Announced(tokens), Filled(was, tokens);
    SentIffCountIsPositive(tokens);
    FilledByte(was, tokens, 0);
    CharIsCongruent(tokens[0].value as int, b[0]);
    assert Count(b) == n;
    forall j | 0 <= j < n
      ensures Int32At(b, 1 + 4 * j) == if 1 + j < |tokens| then tokens[1 + j].value else Int32At(was, 1 + 4 * j)
    {
      StoredOperand(was, tokens, j);
    }
    forall j | 0 <= j < n - 1
      ensures Decode(b).operators[j] == if 1 + n + j < |tokens| then tokens[1 + n + j].first else was[1 + 4 * n + j]
    {
      FilledByte(was, tokens, 1 + 4 * n + j);
    }
    forall k | 5 * n <= k < BUF_SIZE ensures b[k] == was[k] {
      FilledByte(was, tokens, k);
    }
  }

  lemma {:induction false} StoredOperand(was: bytes, tokens: seq<Token>, j: nat)
    requires |was| == BUF_SIZE && Reaction(tokens) == Sent && j < Announced(tokens) <= 127
    ensures Int32At(Filled(was, tokens), 1 + 4 * j) ==
            if 1 + j < |tokens| then tokens[1 + j].value else Int32At(was, 1 + 4 * j)
  {
    hide Filled, Words, Bytes32, Int32Of;
    var b, o := Filled(was, tokens), 1 + 4 * j;
    FilledByte(was, tokens, o);
    FilledByte(was, tokens, o + 1);
    FilledByte(was, tokens, o + 2);
    FilledByte(was, tokens, o + 3);
    if 1 + j < |tokens| {
      var xs := Values(tokens[1..1 + Min(Announced(tokens), |tokens| - 1)]);
      WordAt(xs, j);
      var w := Words(xs)[4 * j..4 * j + 4];
      assert [b[o], b[o + 1], b[o + 2], b[o + 3]] == w;
      Int32RoundTrip(xs[j]);
    }
  }

  /** Completeness of the line is exactly what keeps earlier requests out of the frame. */
  lemma {:induction false} StaleBytesLeakIffTokensRunOut(tokens: seq<Token>)
    requires Reaction(tokens) == Sent
    ensures EnoughTokens(tokens) <==>
            forall x: bytes, y: bytes :: |x| == BUF_SIZE && |y| == BUF_SIZE ==>
              Decodable(Filled(x, tokens)) && Decodable(Filled(y, tokens)) &&
              Decode(Filled(x, tokens)) == Decode(Filled(y, tokens))
  {
    var n := Announced(tokens);
    if EnoughTokens(tokens) {
      forall x: bytes | |x| == BUF_SIZE
        ensures Decodable(Filled(x, tokens)) && Decode(Filled(x, tokens)) == Typed(tokens)
      {
        TypedLineArrives(x, tokens);
      }
    } else {
      var x: bytes := seq(BUF_SIZE, _ => 1);
      var y: bytes := seq(BUF_SIZE, _ => 2);
      LastByteIsStale(x, tokens);
      LastByteIsStale(y, tokens);
      assert Filled(x, tokens)[..5 * n][5 * n - 1] != Filled(y, tokens)[..5 * n][5 * n - 1];
      DecodeReadsOnlyTheFrame(Filled(x, tokens), Filled(y, tokens));
    }
  }

  lemma {:induction false} LastByteIsStale(was: bytes, tokens: seq<Token>)
    requires |was| == BUF_SIZE && Reaction(tokens) == Sent && !EnoughTokens(tokens)
    ensures var n := Announced(tokens);
      Count(Filled(was, tokens)) == n && Filled(was, tokens)[5 * n - 1] == was[5 * n - 1]
  {
  }

  // The clients of HW3 and HW6, which read the numbers straight into the buffer.

  method PutInts(buf: array<byte>, xs: seq<int32>)
    requires 1 + 4 * |xs| <= buf.Length
    modifies buf
    ensures buf[..] == Overwrite(old(buf[..]), 1, Words(xs))
  {
    ghost var was := buf[..];
    for i := 0 to |xs|
      invariant buf[..] == Overwrite(was, 1, Words(xs[..i]))
    {
      assert xs[..i + 1][..i] == xs[..i];
      OverwriteAdjacent(was, 1, Words(xs[..i]), Bytes32(xs[i]));
      Put32(buf, i * 4 + 1, xs[i]);
    }
    assert xs[..|xs|] == xs;
  }

  method PutChars(buf: array<byte>, off: nat, cs: bytes)
    requires off + |cs| <= buf.Length
    modifies buf
    ensures buf[..] == Overwrite(old(buf[..]), off, cs)
  {
    ghost var was := buf[..];
    for i := 0 to |cs|
      invariant buf[..] == Overwrite(was, off, cs[..i])
    {
      assert cs[..i + 1] == cs[..i] + [cs[i]];
      OverwriteAdjacent(was, off, cs[..i], [cs[i]]);
      Put8(buf, off + i, cs[i]);
    }
    assert cs[..|cs|] == cs;
  }

  /** The byte kept of a typed count says that it is positive, and the client goes on. */
  predicate Accepted(opCount: int32) {
    SignedChar(CharOf(opCount as int)) > 0
  }

  /**
   What is typed for a count: that many operands and one operator fewer. An accepted count of 257 or
   more is left out: its loops run past the end of the buffer.
   */
  predicate TypedFor(opCount: int32, xs: seq<int32>, cs: bytes) {
    Accepted(opCount) ==> opCount <= 127 && (opCount >= 1 ==> |xs| == opCount as int && |cs| == opCount as int - 1)
  }

  /** The buffer after a count was typed; for a negative count that is accepted no loop runs. */
  function FilledExact(was: bytes, opCount: int32, xs: seq<int32>, cs: bytes): (b: bytes)
    requires |was| == BUF_SIZE && TypedFor(opCount, xs, cs)
    ensures |b| == BUF_SIZE
  {
    if 1 <= opCount <= 127 && Accepted(opCount) then Overwrite(was, 0, Encode(Request(xs, cs)))
    else Overwrite(was, 0, [CharOf(opCount as int)])
  }

  /** Which counts are accepted, and what of the buffer each leaves. */
  lemma {:induction false} TypedCount(was: bytes, opCount: int32, xs: seq<int32>, cs: bytes)
    requires |was| == BUF_SIZE && TypedFor(opCount, xs, cs)
    ensures Accepted(opCount) <==> 1 <= opCount as int % 256 <= 127
    ensures var b, n := FilledExact(was, opCount, xs, cs), opCount as int;
      b[0] as int == n % 256
      && (if 1 <= n <= 127 then b[..5 * n] == Encode(Request(xs, cs)) && b[5 * n..] == was[5 * n..] else b[1..] == was[1..])
  {
    hide Encode;
    var b := FilledExact(was, opCount, xs, cs);
    if 1 <= opCount <= 127 {
      FrameLayout(Request(xs, cs));
      StoredInPlace(was, 0, Encode(Request(xs, cs)));
      assert b[0] == b[..5 * opCount as int][0];
    }
  }

  /** Fills the buffer; HW3 sends a prefix of the returned length, the count byte alone when it is refused. */
  method FillExact(buf: array<byte>, opCount: int32, xs: seq<int32>, cs: bytes) returns (length: int)
    requires buf.Length == BUF_SIZE && TypedFor(opCount, xs, cs)
    modifies buf
    ensures buf[..] == FilledExact(old(buf[..]), opCount, xs, cs)
    ensures length == if Accepted(opCount) then 5 * opCount as int else 1
  {
    hide Overwrite, Words;
    ghost var was := buf[..];
    Put8(buf, 0, CharOf(opCount as int));
    if SignedChar(buf[0]) <= 0 {
      return 1;
    }
    var n := opCount as int;
    if n >= 1 {
      ghost var head := [CharOf(n)];
      PutInts(buf, xs);
      OverwriteAdjacent(was, 0, head, Words(xs));
      PutChars(buf, n * 4 + 1, cs);
      OverwriteAdjacent(was, 0, head + Words(xs), cs);
    }
    length := 1 + n * 4 + (n - 1);
  }

  /**
   The frame of an accepted count is the typed request whatever the buffer held iff the count itself,
   not only its byte, is positive.
   */
  lemma {:induction false} TypedRequestArrivesIffPositive(opCount: int32, xs: seq<int32>, cs: bytes)
    requires Accepted(opCount) && TypedFor(opCount, xs, cs)
    ensures opCount >= 1 <==>
            forall was: bytes :: |was| == BUF_SIZE ==>
              Decodable(FilledExact(was, opCount, xs, cs)) && Decode(FilledExact(was, opCount, xs, cs)) == Request(xs, cs)
  {
    hide Decode, Decodable, FilledExact;
    if opCount >= 1 {
      forall was: bytes | |was| == BUF_SIZE
        ensures Decodable(FilledExact(was, opCount, xs, cs)) && Decode(FilledExact(was, opCount, xs, cs)) == Request(xs, cs)
      {
        TypedRequestArrives(was, opCount, xs, cs);
      }
    } else {
      var x: bytes := seq(BUF_SIZE, _ => 1);
      var y: bytes := seq(BUF_SIZE, _ => 2);
      OperandsAreStale(x, y, opCount, xs, cs);
    }
  }

  lemma TypedRequestArrives(was: bytes, opCount: int32, xs: seq<int32>, cs: bytes)
    requires |was| == BUF_SIZE && 1 <= opCount && Accepted(opCount) && TypedFor(opCount, xs, cs)
    ensures Decodable(FilledExact(was, opCount, xs, cs)) && Decode(FilledExact(was, opCount, xs, cs)) == Request(xs, cs)
  {
    hide Decode, Encode, Decodable;
    assert Encode(Request(xs, cs)) <= FilledExact(was, opCount, xs, cs);
    DecodeEncode(Request(xs, cs), FilledExact(was, opCount, xs, cs));
  }

  lemma OperandsAreStale(x: bytes, y: bytes, opCount: int32, xs: seq<int32>, cs: bytes)
    requires |x| == |y| == BUF_SIZE && x[1] != y[1] && opCount < 1 && Accepted(opCount) && TypedFor(opCount, xs, cs)
    ensures var b, c := FilledExact(x, opCount, xs, cs), FilledExact(y, opCount, xs, cs);
      Decodable(b) && Decodable(c) && Decode(b) != Decode(c)
  {
    hide Decode, Encode;
    var b, c := FilledExact(x, opCount, xs, cs), FilledExact(y, opCount, xs, cs);
    var n := SignedChar(CharOf(opCount as int));
    assert Count(b) == Count(c) == n;
    assert b[..5 * n][1] != c[..5 * n][1];
    DecodeReadsOnlyTheFrame(b, c);
  }
}
