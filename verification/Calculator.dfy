/** The left fold all servers evaluate, its four loop shapes, and when its 32-bit arithmetic is exact. */
module Calculator {
  import opened CTypes
  import opened Frame

  /** One pass of the `switch`: an unknown operator leaves the result alone. */
  function Apply(op: byte, acc: int32, x: int32): int32 {
    if op == PLUS then Wrap32(acc as int + x as int)
    else if op == MINUS then Wrap32(acc as int - x as int)
    else if op == TIMES then Wrap32(acc as int * x as int)
    else acc
  }

  /** The accumulator after the first `k` operators, applied from left to right. */
  function Fold(f: Request, k: nat): int32
    requires WellFormed(f) && k <= |f.operators|
  {
    if k == 0 then f.operands[0] else Apply(f.operators[k - 1], Fold(f, k - 1), f.operands[k])
  }

  function Evaluate(f: Request): int32
    requires WellFormed(f)
  {
    Fold(f, |f.operators|)
  }

  // Exactness of the `int` arithmetic.

  function ApplyExact(op: byte, acc: int, x: int): int {
    if op == PLUS then acc + x
    else if op == MINUS then acc - x
    else if op == TIMES then acc * x
    else acc
  }

  /** The same fold over the integers. */
  function FoldExact(f: Request, k: nat): int
    requires WellFormed(f) && k <= |f.operators|
  {
    if k == 0 then f.operands[0] as int else ApplyExact(f.operators[k - 1], FoldExact(f, k - 1), f.operands[k] as int)
  }

  /** A fold starts with the first operand, and the value of a request is the fold over all operators. */
  lemma FoldEnds(f: Request)
    requires WellFormed(f)
    ensures Fold(f, 0) == f.operands[0] && FoldExact(f, 0) == f.operands[0] as int && Evaluate(f) == Fold(f, |f.operators|)
  {
  }

  /** What the characters do: the value modulo `2^32` that an `int` keeps, and over the integers the value itself. */
  lemma {:induction false} OperatorsMean(f: Request, k: nat)
    requires WellFormed(f) && k < |f.operators|
    ensures var op, acc, x, next := f.operators[k] as int, Fold(f, k) as int, f.operands[k + 1] as int, Fold(f, k + 1) as int;
      (op == '+' as int ==> (acc + x - next) % 0x1_0000_0000 == 0)
      && (op == '-' as int ==> (acc - x - next) % 0x1_0000_0000 == 0)
      && (op == '*' as int ==> (acc * x - next) % 0x1_0000_0000 == 0)
      && (op != '+' as int && op != '-' as int && op != '*' as int ==> next == acc)
    ensures var op, acc, x, next := f.operators[k] as int, FoldExact(f, k), f.operands[k + 1] as int, FoldExact(f, k + 1);
      (op == '+' as int ==> next == acc + x)
      && (op == '-' as int ==> next == acc - x)
      && (op == '*' as int ==> next == acc * x)
      && (op != '+' as int && op != '-' as int && op != '*' as int ==> next == acc)
  {
    hide Wrap32;
    var acc, x := Fold(f, k) as int, f.operands[k + 1] as int;
    WrapIsCongruent(acc + x);
    WrapIsCongruent(acc - x);
    WrapIsCongruent(acc * x);
  }

  /** When the exact value fits an `int`, one step of the program gives exactly it. */
  lemma {:induction false} OperatorsMeanExactly(f: Request, k: nat)
    requires WellFormed(f) && k < |f.operators|
    ensures var op, acc, x, next := f.operators[k] as int, Fold(f, k) as int, f.operands[k + 1] as int, Fold(f, k + 1) as int;
      (op == '+' as int && -0x8000_0000 <= acc + x < 0x8000_0000 ==> next == acc + x)
      && (op == '-' as int && -0x8000_0000 <= acc - x < 0x8000_0000 ==> next == acc - x)
      && (op == '*' as int && -0x8000_0000 <= acc * x < 0x8000_0000 ==> next == acc * x)
  {
    hide Wrap32;
  }

  /** The program's accumulator follows the exact fold at every step iff no prefix leaves the `int` range. */
  lemma {:induction false} ExactIffNoOverflow(f: Request)
    requires WellFormed(f)
    ensures (forall k :: 0 <= k <= |f.operators| ==> -0x8000_0000 <= FoldExact(f, k) < 0x8000_0000) <==>
            (forall k :: 0 <= k <= |f.operators| ==> Fold(f, k) as int == FoldExact(f, k))
  {
    hide Fold, FoldExact;
    if forall k :: 0 <= k <= |f.operators| ==> -0x8000_0000 <= FoldExact(f, k) < 0x8000_0000 {
      forall k | 0 <= k <= |f.operators| ensures Fold(f, k) as int == FoldExact(f, k) {
        ExactPrefix(f, k);
      }
    } else {
      var k :| 0 <= k <= |f.operators| && !(-0x8000_0000 <= FoldExact(f, k) < 0x8000_0000);
      assert Fold(f, k) as int != FoldExact(f, k);
    }
  }

  lemma {:induction false} ExactPrefix(f: Request, k: nat)
    requires WellFormed(f) && k <= |f.operators|
    requires forall i :: 0 <= i <= k ==> IsInt32(FoldExact(f, i))
    ensures Fold(f, k) as int == FoldExact(f, k)
  {
    if k > 0 {
      ExactPrefix(f, k - 1);
      assert IsInt32(FoldExact(f, k));
    }
  }

  function Pow(b: nat, k: nat): (p: nat)
    ensures b > 0 ==> p > 0
  {
    if k == 0 then 1 else b * Pow(b, k - 1)
  }

  function Abs(x: int): nat {
    if x < 0 then -x else x
  }

  /** The laws that make `Pow` the power and `Abs` the magnitude. */
  lemma {:induction false} PowLaws(b: nat, j: nat, k: nat, x: int)
    ensures Abs(x) >= 0 && (Abs(x) == x || Abs(x) == -x)
    ensures Pow(b, 0) == 1 && Pow(b, 1) == b && Pow(b, j + k) == Pow(b, j) * Pow(b, k)
  {
    assert Pow(b, 1) == b * Pow(b, 0) == b;
    if j > 0 {
      PowLaws(b, j - 1, k, x);
      assert Pow(b, j + k) == b * Pow(b, j - 1 + k);
      assert b * (Pow(b, j - 1) * Pow(b, k)) == b * Pow(b, j - 1) * Pow(b, k);
    }
  }

  /** The accumulator over `k + 1` operands no larger than `b` stays within `b^(k+1)`. */
  lemma {:induction false} Magnitude(f: Request, k: nat, b: int)
    requires WellFormed(f) && k <= |f.operators| && b >= 2
    requires forall j :: 0 <= j < |f.operands| ==> -b <= f.operands[j] as int <= b
    ensures Abs(FoldExact(f, k)) <= Pow(b, k + 1)
  {
    if k == 0 {
      assert Pow(b, 1) == b * Pow(b, 0) == b;
    } else {
      Magnitude(f, k - 1, b);
      PowAtLeast(b, k);
      StepBound(f.operators[k - 1], FoldExact(f, k - 1), f.operands[k] as int, Pow(b, k), b);
    }
  }

  lemma {:induction false} PowAtLeast(b: nat, k: nat)
    requires b >= 2 && k >= 1
    ensures Pow(b, k) >= b
  {
    if k == 1 {
      assert Pow(b, 1) == b * Pow(b, 0);
    } else {
      PowAtLeast(b, k - 1);
      assert b * Pow(b, k - 1) >= b * 1;
    }
  }

  lemma StepBound(op: byte, acc: int, x: int, p: nat, b: nat)
    requires Abs(acc) <= p && Abs(x) <= b && b <= p && b >= 2
    ensures Abs(ApplyExact(op, acc, x)) <= b * p
  {
    ProductBound(p, 2, p, b);
    if op == TIMES {
      ProductBound(Abs(acc), Abs(x), p, b);
      AbsProduct(acc, x);
    }
  }

  lemma AbsProduct(a: int, x: int)
    ensures Abs(a * x) == Abs(a) * Abs(x)
  {
  }

  lemma ProductBound(a: nat, x: nat, p: nat, b: nat)
    requires a <= p && x <= b
    ensures a * x <= b * p
  {
    assert a * x <= p * x;
    assert p * x <= p * b;
  }

  /** When `b^n` fits an `int`, the server's answer is the exact one. */
  lemma {:induction false} SmallOperandsAreExact(f: Request, b: int)
    requires WellFormed(f) && b >= 2 && Pow(b, |f.operands|) <= 0x7fff_ffff
    requires forall j :: 0 <= j < |f.operands| ==> -b <= f.operands[j] as int <= b
    ensures forall k :: 0 <= k <= |f.operators| ==> Fold(f, k) as int == FoldExact(f, k)
    ensures Evaluate(f) as int == FoldExact(f, |f.operators|)
  {
    hide Fold, FoldExact, Pow;
    forall k | 0 <= k <= |f.operators| ensures IsInt32(FoldExact(f, k)) {
      Magnitude(f, k, b);
      PowMonotone(b, k + 1, |f.operands|);
    }
    forall k | 0 <= k <= |f.operators| ensures Fold(f, k) as int == FoldExact(f, k) {
      ExactPrefix(f, k);
    }
  }

  lemma {:induction false} PowMonotone(b: nat, j: nat, k: nat)
    requires b >= 2 && j <= k
    ensures Pow(b, j) <= Pow(b, k)
  {
    if j < k {
      PowMonotone(b, j, k - 1);
      assert Pow(b, k - 1) <= b * Pow(b, k - 1);
    }
  }

  // The indexed decoder of HW3: operands into an array, then operators picked out of the buffer.

  method ReadOperands(buf: array<byte>, opCount: nat, operand: array<int32>)
    requires buf.Length == operand.Length == BUF_SIZE && 1 <= opCount == Count(buf[..])
    modifies operand
    ensures operand[..opCount] == Decode(buf[..]).operands
    ensures operand[opCount..] == old(operand[opCount..])
  {
    for i := 0 to opCount
      invariant forall j :: 0 <= j < i ==> operand[j] == Int32At(buf[..], 1 + 4 * j)
      invariant operand[i..] == old(operand[i..])
    {
      operand[i] := Int32Of(buf[1 + i * 4], buf[2 + i * 4], buf[3 + i * 4], buf[4 + i * 4]);
      assert operand[i + 1..] == old(operand[i..])[1..];
    }
  }

  /** A count that is not positive is refused: the server closes without an answer. */
  datatype Answer = Refused | Result(value: int32)

  method EvaluateDatagram(buf: array<byte>) returns (r: Answer)
    requires buf.Length == BUF_SIZE
    ensures r == if Count(buf[..]) <= 0 then Refused else Result(Evaluate(Decode(buf[..])))
  {
    var opCount := SignedChar(buf[0]);
    if opCount <= 0 {
      return Refused;
    }
    var operand := new int32[BUF_SIZE];
    ReadOperands(buf, opCount, operand);
    var opResult := FoldIndexed(buf, opCount, operand, Decode(buf[..]));
    return Result(opResult);
  }

  method FoldIndexed(buf: array<byte>, opCount: nat, operand: array<int32>, ghost f: Request) returns (opResult: int32)
    requires WellFormed(f) && |f.operands| == opCount && buf.Length == operand.Length == BUF_SIZE
    requires operand[..opCount] == f.operands && buf[1 + 4 * opCount..5 * opCount] == f.operators
    ensures opResult == Evaluate(f)
  {
    opResult := operand[0];
    for i := 0 to opCount - 1
      invariant opResult == Fold(f, i)
    {
      var operator := buf[1 + opCount * 4 + i];
      assert operator == buf[1 + 4 * opCount..5 * opCount][i] && operand[i + 1] == operand[..opCount][i + 1];
      opResult := Apply(operator, opResult, operand[i + 1]);
    }
  }

  // The two evaluators that read the connection as a stream.

  /** A connected socket whose peer has sent `data`; `read` delivers at most what is left. */
  class ByteStream {
    const data: bytes
    var pos: nat

    constructor (data: bytes)
      ensures this.data == data && pos == 0
    {
      this.data := data;
      pos := 0;
    }

    method Read(n: nat) returns (b: bytes)
      requires pos <= |data|
      modifies this
      ensures pos == Min(old(pos) + n, |data|) && b == data[old(pos)..pos]
    {
      var to := Min(pos + n, |data|);
      b := data[pos..to];
      pos := to;
    }
  }

  method ReadStreamOperands(s: ByteStream, opCount: nat) returns (operand: array<int32>)
    requires 1 <= s.pos <= |s.data| && Decodable(s.data[s.pos - 1..]) && opCount == Count(s.data[s.pos - 1..])
    modifies s
    ensures s.pos <= |s.data| && s.pos == old(s.pos) + 4 * opCount
    ensures fresh(operand) && operand.Length == BUF_SIZE
    ensures operand[..opCount] == Decode(s.data[old(s.pos) - 1..]).operands
  {
    operand := new int32[BUF_SIZE];
    ghost var frame := s.data[s.pos - 1..];
    ghost var start := s.pos;
    for i := 0 to opCount
      invariant s.pos <= |s.data| && s.pos == start + 4 * i
      invariant forall j :: 0 <= j < i ==> operand[j] == Int32At(frame, 1 + 4 * j)
    {
      var b := s.Read(4);
      operand[i] := Int32Of(b[0], b[1], b[2], b[3]);
    }
  }

  method FoldStream(s: ByteStream, operand: array<int32>, opCount: nat, ghost f: Request) returns (r: int32)
    requires WellFormed(f) && |f.operands| == opCount <= operand.Length && operand[..opCount] == f.operands
    requires s.pos + opCount - 1 <= |s.data| && s.data[s.pos..s.pos + opCount - 1] == f.operators
    modifies s
    ensures s.pos <= |s.data| && s.pos == old(s.pos) + opCount - 1
    ensures r == Evaluate(f)
  {
    ghost var start := s.pos;
    r := operand[0];
    for i := 0 to opCount - 1
      invariant s.pos <= |s.data| && s.pos == start + i
      invariant r == Fold(f, i)
    {
      var operator := s.Read(1);
      assert operator[0] == s.data[start..start + opCount - 1][i] && operand[i + 1] == operand[..opCount][i + 1];
      r := Apply(operator[0], r, operand[i + 1]);
    }
  }

  /**
   HW5: an operator is read just before it is applied, so exactly the frame is consumed, or the count
   byte alone when it is refused.
   */
  method EvaluateStream(s: ByteStream) returns (r: Answer)
    requires s.pos < |s.data| && (Count(s.data[s.pos..]) >= 1 ==> Decodable(s.data[s.pos..]))
    modifies s
    ensures s.pos <= |s.data| && var ahead := old(s.data[s.pos..]);
      s.pos == old(s.pos) + (if Count(ahead) <= 0 then 1 else 5 * Count(ahead))
      && r == if Count(ahead) <= 0 then Refused else Result(Evaluate(Decode(ahead)))
  {
    ghost var start := s.pos;
    var c := s.Read(1);
    var opCount := SignedChar(c[0]);
    if opCount <= 0 {
      return Refused;
    }
    var operand := ReadStreamOperands(s, opCount);
    OperatorsAhead(s.data, start);
    var opResult := FoldStream(s, operand, opCount, Decode(s.data[start..]));
    return Result(opResult);
  }

  lemma OperatorsAhead(data: bytes, start: nat)
    requires start <= |data| && Decodable(data[start..])
    ensures var n := Count(data[start..]);
      data[start + 1 + 4 * n..start + 5 * n] == Decode(data[start..]).operators
  {
  }

  method FoldPrefetching(s: ByteStream, operand: array<int32>, opCount: nat, ghost f: Request) returns (r: int32)
    requires WellFormed(f) && |f.operands| == opCount <= operand.Length && operand[..opCount] == f.operands
    requires s.pos + opCount - 1 <= |s.data| && s.data[s.pos..s.pos + opCount - 1] == f.operators
    modifies s
    ensures s.pos <= |s.data| && s.pos == Min(old(s.pos) + opCount, |s.data|)
    ensures r == Evaluate(f)
  {
    ghost var start := s.pos;
    ghost var operators := s.data[s.pos..s.pos + opCount - 1];
    var operator: byte := NUL;
    var b := s.Read(1);
    if b != [] {
      operator := b[0];
    }
    r := operand[0];
    for i := 0 to opCount - 1
      invariant s.pos <= |s.data| && s.pos == Min(start + 1 + i, |s.data|)
      invariant i < opCount - 1 ==> operator == operators[i]
      invariant r == Fold(f, i)
    {
      assert operand[i + 1] == operand[..opCount][i + 1];
      r := Apply(operator, r, operand[i + 1]);
      b := s.Read(1);
      if b != [] {
        operator := b[0];
      }
    }
  }

  /** HW2: the next operator is fetched one step early, so a byte after the frame is consumed if there is one. */
  method EvaluatePrefetching(s: ByteStream) returns (r: Answer)
    requires s.pos < |s.data| && (Count(s.data[s.pos..]) >= 1 ==> Decodable(s.data[s.pos..]))
    modifies s
    ensures s.pos <= |s.data| && var ahead := old(s.data[s.pos..]);
      s.pos == (if Count(ahead) <= 0 then old(s.pos) + 1 else Min(old(s.pos) + 5 * Count(ahead) + 1, |s.data|))
      && r == if Count(ahead) <= 0 then Refused else Result(Evaluate(Decode(ahead)))
  {
    ghost var start := s.pos;
    var c := s.Read(1);
    var opCount := SignedChar(c[0]);
    if opCount <= 0 {
      return Refused;
    }
    var operand := ReadStreamOperands(s, opCount);
    OperatorsAhead(s.data, start);
    var opResult := FoldPrefetching(s, operand, opCount, Decode(s.data[start..]));
    return Result(opResult);
  }
}
