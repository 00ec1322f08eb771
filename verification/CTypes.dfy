/** The C scalars, byte buffers and NUL-terminated strings that the programs compute with. */
module CTypes {

  /** A C `char` seen as the byte it occupies. */
  newtype byte = x: int | 0 <= x < 256

  type bytes = seq<byte>

  /** A C `int` of 32 bits. */
  newtype int32 = x: int | -0x8000_0000 <= x < 0x8000_0000

  const INT_MIN: int := -0x8000_0000
  const INT_MAX: int := 0x7fff_ffff

  predicate IsInt32(x: int) {
    INT_MIN <= x <= INT_MAX
  }

  const NUL: byte := 0
  const NEWLINE: byte := 10
  const SPACE: byte := 32
  const TIMES: byte := 42   // '*'
  const PLUS: byte := 43    // '+'
  const MINUS: byte := 45   // '-'
  const COLON: byte := 58   // ':'
  const EQUALS: byte := 61  // '='

  /** Two's complement reduction: the `int` a 32-bit machine keeps of an exact value. */
  function Wrap32(x: int): (r: int32)
    ensures IsInt32(x) ==> r as int == x
  {
    ((x + 0x8000_0000) % 0x1_0000_0000 - 0x8000_0000) as int32
  }

  /** The value of a byte read as a signed C `char`. */
  function SignedChar(c: byte): (r: int)
    ensures -128 <= r <= 127
  {
    if c < 128 then c as int else c as int - 256
  }

  /** The byte kept by the cast `(char)x`. */
  function CharOf(x: int): byte {
    (x % 256) as byte
  }

  /** A signed byte carries every value from -128 to 127, and each byte is one of them. */
  lemma CharRoundTrip(x: int, c: byte)
    ensures -128 <= x <= 127 ==> SignedChar(CharOf(x)) == x
    ensures CharOf(SignedChar(c)) == c
  {
  }

  /** The four bytes of an `int`, least significant first. */
  function Bytes32(x: int32): (b: bytes)
    ensures |b| == 4
  {
    var u := x as int % 0x1_0000_0000;
    [(u % 256) as byte, (u / 0x100 % 256) as byte, (u / 0x1_0000 % 256) as byte, (u / 0x100_0000) as byte]
  }

  /** The `int` made of four bytes, least significant first. */
  function Int32Of(b0: byte, b1: byte, b2: byte, b3: byte): (x: int32) {
    Wrap32(b0 as int + 0x100 * b1 as int + 0x1_0000 * b2 as int + 0x100_0000 * b3 as int)
  }

  /** The `int` that a `memcpy` of four bytes at `off` produces. */
  function Int32At(b: bytes, off: nat): (x: int32)
    requires off + 4 <= |b|
  {
    Int32Of(b[off], b[off + 1], b[off + 2], b[off + 3])
  }

  lemma Int32RoundTrip(x: int32)
    ensures var b := Bytes32(x); Int32Of(b[0], b[1], b[2], b[3]) == x
  {
    Base256(x as int % 0x1_0000_0000);
    WrapUnsigned(x);
  }

  lemma WrapUnsigned(x: int32)
    ensures Wrap32(x as int % 0x1_0000_0000) == x
  {
  }

  lemma BytesRoundTrip(b0: byte, b1: byte, b2: byte, b3: byte)
    ensures Bytes32(Int32Of(b0, b1, b2, b3)) == [b0, b1, b2, b3]
  {
    Digits256(b0 as int, b1 as int, b2 as int, b3 as int);
    var u := b0 as int + 0x100 * b1 as int + 0x1_0000 * b2 as int + 0x100_0000 * b3 as int;
    assert Int32Of(b0, b1, b2, b3) as int % 0x1_0000_0000 == u;
  }

  lemma Base256(u: nat)
    ensures u % 256 + 0x100 * (u / 0x100 % 256) + 0x1_0000 * (u / 0x1_0000 % 256) + 0x100_0000 * (u / 0x100_0000) == u
  {
    var d := u / 0x100;
    var e := u / 0x1_0000;
    assert e == d / 0x100;
    assert u / 0x100_0000 == e / 0x100;
  }

  lemma Digits256(b0: nat, b1: nat, b2: nat, b3: nat)
    requires b0 < 256 && b1 < 256 && b2 < 256 && b3 < 256
    ensures var u := b0 + 0x100 * b1 + 0x1_0000 * b2 + 0x100_0000 * b3;
      u % 256 == b0 && u / 0x100 % 256 == b1 && u / 0x1_0000 % 256 == b2 && u / 0x100_0000 == b3
  {
    var u := b0 + 0x100 * b1 + 0x1_0000 * b2 + 0x100_0000 * b3;
    assert u / 0x100 == b1 + 0x100 * (b2 + 0x100 * b3);
    assert u / 0x1_0000 == b2 + 0x100 * b3;
    assert u / 0x100_0000 == b3;
  }

  /** The C string held by a buffer: the bytes before the first NUL. */
  function CStr(s: bytes): (r: bytes)
    ensures |r| <= |s|
    ensures r == s[..|r|]
    ensures NUL !in r
    ensures |r| < |s| ==> s[|r|] == NUL
  {
    if s == [] || s[0] == NUL then [] else [s[0]] + CStr(s[1..])
  }

  /** The string ends at the first NUL. */
  lemma CStrIs(b: bytes, n: nat)
    requires n < |b| && b[n] == NUL && NUL !in b[..n]
    ensures CStr(b) == b[..n]
  {
    hide CStr;
  }

  lemma {:induction false} CStrAppend(s: bytes, t: bytes)
    requires NUL !in s
    ensures CStr(s + t) == s + CStr(t)
  {
    hide CStr;
    if s == [] {
      assert s + t == t;
    } else {
      CStrAppend(s[1..], t);
      assert (s + t)[1..] == s[1..] + t;
      CStrFrom(s + t);
      assert [s[0]] + (s[1..] + CStr(t)) == s + CStr(t);
    }
  }

  lemma CStrFrom(s: bytes)
    requires s != [] && s[0] != NUL
    ensures CStr(s) == [s[0]] + CStr(s[1..])
  {
  }

  /** A buffer holds a proper C string when one of its bytes is NUL. */
  predicate Terminated(s: bytes) {
    |CStr(s)| < |s|
  }

  /** `strcpy(dst, src)`: the rest of the destination keeps its old bytes. */
  function StrCpy(dst: bytes, src: bytes): (r: bytes)
    requires |CStr(src)| < |dst|
    ensures |r| == |dst| && CStr(r) == CStr(src)
  {
    var s := CStr(src);
    CStrAppend(s, [NUL] + dst[|s| + 1..]);
    s + ([NUL] + dst[|s| + 1..])
  }

  /** The buffer after `data` is stored at `off`: only the bytes it covers change. */
  function Overwrite(buf: bytes, off: nat, data: bytes): (r: bytes)
    requires off + |data| <= |buf|
    ensures |r| == |buf|
  {
    seq(|buf|, k requires 0 <= k < |buf| => if off <= k < off + |data| then data[k - off] else buf[k])
  }

  lemma OverwriteAdjacent(buf: bytes, off: nat, d: bytes, e: bytes)
    requires off + |d| + |e| <= |buf|
    ensures Overwrite(Overwrite(buf, off, d), off + |d|, e) == Overwrite(buf, off, d + e)
  {
  }

  function Min(a: int, b: int): (m: int)
    ensures m <= a && m <= b && (m == a || m == b)
  {
    if a <= b then a else b
  }

  // What these definitions mean, without their names for numbers and characters.

  lemma Characters()
    ensures NUL as int == '\0' as int && NEWLINE as int == '\n' as int && SPACE as int == ' ' as int
    ensures PLUS as int == '+' as int && MINUS as int == '-' as int && TIMES as int == '*' as int
    ensures COLON as int == ':' as int && EQUALS as int == '=' as int
  {
  }

  lemma WrapIsCongruent(x: int)
    ensures (x - Wrap32(x) as int) % 0x1_0000_0000 == 0
  {
    var q := (x + 0x8000_0000) / 0x1_0000_0000;
    assert x - Wrap32(x) as int == q * 0x1_0000_0000;
  }

  /** A cast to `char` keeps a value modulo 256, and reading it as signed does too. */
  lemma CharIsCongruent(x: int, c: byte)
    ensures (x - CharOf(x) as int) % 256 == 0
    ensures (c as int - SignedChar(c)) % 256 == 0
  {
  }

  /** The byte at the lowest address is the least significant one. */
  lemma LittleEndian(x: int32)
    ensures var b := Bytes32(x);
      (b[0] as int + 0x100 * b[1] as int + 0x1_0000 * b[2] as int + 0x100_0000 * b[3] as int - x as int) % 0x1_0000_0000 == 0
  {
    Base256(x as int % 0x1_0000_0000);
    var q := x as int / 0x1_0000_0000;
    assert x as int % 0x1_0000_0000 - x as int == -q * 0x1_0000_0000;
  }

  /** A store changes exactly the bytes it covers. */
  lemma StoredInPlace(buf: bytes, off: nat, data: bytes)
    requires off + |data| <= |buf|
    ensures var r := Overwrite(buf, off, data);
      r[..off] == buf[..off] && r[off..off + |data|] == data && r[off + |data|..] == buf[off + |data|..]
  {
  }

  /** `strcpy` writes the string and its NUL and leaves the rest of the destination alone. */
  lemma CopiedString(dst: bytes, src: bytes)
    requires |CStr(src)| < |dst|
    ensures var r, n := StrCpy(dst, src), |CStr(src)|;
      r[..n] == CStr(src) && r[n] as int == 0 && r[n + 1..] == dst[n + 1..]
  {
    hide CStr;
  }

  /** The bytes of a text, for stating what a buffer spells. */
  function Ascii(s: string): (b: bytes)
    requires forall i :: 0 <= i < |s| ==> s[i] as int < 128
    ensures |b| == |s| && forall i :: 0 <= i < |s| ==> b[i] as int == s[i] as int
  {
    seq(|s|, i requires 0 <= i < |s| => s[i] as int as byte)
  }
}
