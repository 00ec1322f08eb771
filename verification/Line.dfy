/** The printed line `a+b*c=r`: how the servers build it, how long it gets, and that it can be read back. */
module Line {
  import opened Wrappers
  import opened CTypes
  import opened Frame
  import opened Calculator

  // Decimal numbers as `%d` prints them.

  function Digit(d: nat): byte
    requires d < 10
  {
    (48 + d) as byte
  }

  predicate IsDigit(c: byte) {
    48 <= c <= 57
  }

  function Digits(n: nat): (s: bytes)
    ensures |s| >= 1
  {
    if n < 10 then [Digit(n)] else Digits(n / 10) + [Digit(n % 10)]
  }

  function Dec(x: int): (s: bytes)
    ensures |s| >= 1
  {
    if x < 0 then [MINUS] + Digits(-x) else Digits(x)
  }

  /** What `sprintf(buf + strlen(buf), "%c%d", op, x)` adds to the string; a NUL operator ends it at once. */
  function OpText(op: byte, x: int32): bytes {
    if op == NUL then [] else [op] + Dec(x as int)
  }

  /** The string in `buf` after `k` operators. */
  function Text(f: Request, k: nat): bytes
    requires WellFormed(f) && k <= |f.operators|
  {
    if k == 0 then Dec(f.operands[0] as int) else Text(f, k - 1) + OpText(f.operators[k - 1], f.operands[k])
  }

  function Expression(f: Request): bytes
    requires WellFormed(f)
  {
    Text(f, |f.operators|)
  }

  function Printed(f: Request, r: int32): bytes
    requires WellFormed(f)
  {
    Expression(f) + [EQUALS] + Dec(r as int) + [NEWLINE]
  }

  /** The line a server prints for a request. */
  function LineOf(f: Request): (s: bytes)
    requires WellFormed(f)
    ensures s != []
  {
    Printed(f, Evaluate(f))
  }

  // Reading a line back.

  /** How many digits start a string. */
  function LeadingDigits(s: bytes): (k: nat)
    ensures k <= |s| && forall i :: 0 <= i < k ==> IsDigit(s[i])
    ensures k < |s| ==> !IsDigit(s[k])
  {
    if s == [] || !IsDigit(s[0]) then 0 else 1 + LeadingDigits(s[1..])
  }

  function DigitValue(c: byte): nat
    requires IsDigit(c)
  {
    c as int - 48
  }

  function Value(ds: bytes): nat
    requires forall i :: 0 <= i < |ds| ==> IsDigit(ds[i])
  {
    if ds == [] then 0 else 10 * Value(ds[..|ds| - 1]) + DigitValue(ds[|ds| - 1])
  }

  /** The number that starts a string, and what follows it. */
  function ReadNumber(s: bytes): (r: Option<(int, bytes)>)
    ensures r.Some? ==> |r.value.1| < |s| && (r.value.1 != [] ==> !IsDigit(r.value.1[0]))
  {
    var neg := s != [] && s[0] == MINUS;
    var t := if neg then s[1..] else s;
    var k := LeadingDigits(t);
    var v: int := Value(t[..k]);
    if k == 0 then None else Some((if neg then -v else v, t[k..]))
  }

  /** Numbers and the single bytes between them, up to the newline that ends the line. */
  datatype Tokens = Tokens(numbers: seq<int>, separators: bytes)

  predicate IsSeparator(c: byte) {
    c != NUL && !IsDigit(c)
  }

  function ReadTokens(s: bytes): (r: Option<Tokens>)
    ensures r.Some? ==> |r.value.numbers| == |r.value.separators| + 1
    ensures r.Some? ==> forall c :: c in r.value.separators ==> IsSeparator(c)
    decreases |s|
  {
    match ReadNumber(s)
    case None => None
    case Some((x, rest)) =>
      if rest == [NEWLINE] then Some(Tokens([x], []))
      else if rest == [] || rest[0] == NUL then None
      else
        match ReadTokens(rest[1..])
        case None => None
        case Some(ts) => Some(Tokens([x] + ts.numbers, [rest[0]] + ts.separators))
  }

  datatype Equation = Equation(operands: seq<int>, operators: bytes, result: int)

  function ReadLine(s: bytes): Option<Equation> {
    match ReadTokens(s)
    case None => None
    case Some(Tokens(ns, cs)) =>
      if cs == [] || cs[|cs| - 1] != EQUALS then None
      else Some(Equation(ns[..|ns| - 1], cs[..|cs| - 1], ns[|ns| - 1]))
  }

  function Exact(xs: seq<int32>): (ns: seq<int>)
    ensures |ns| == |xs|
  {
    seq(|xs|, j requires 0 <= j < |xs| => xs[j] as int)
  }

  // The round trip.

  lemma {:induction false} DigitsRoundTrip(n: nat, rest: bytes)
    requires rest != [] ==> !IsDigit(rest[0])
    ensures LeadingDigits(Digits(n) + rest) == |Digits(n)|
    ensures forall i :: 0 <= i < |Digits(n)| ==> IsDigit(Digits(n)[i])
    ensures Value(Digits(n)) == n
  {
    AllDigits(n);
    LeadingRun(Digits(n), rest);
  }

  lemma {:induction false} AllDigits(n: nat)
    ensures forall i :: 0 <= i < |Digits(n)| ==> IsDigit(Digits(n)[i])
    ensures Value(Digits(n)) == n
  {
    if n < 10 {
      assert Digits(n)[..0] == [];
    } else {
      AllDigits(n / 10);
      assert Digits(n)[..|Digits(n)| - 1] == Digits(n / 10);
    }
  }

  lemma {:induction false} LeadingRun(ds: bytes, rest: bytes)
    requires forall i :: 0 <= i < |ds| ==> IsDigit(ds[i])
    requires rest != [] ==> !IsDigit(rest[0])
    ensures LeadingDigits(ds + rest) == |ds|
  {
    if ds == [] {
      assert ds + rest == rest;
    } else {
      LeadingRun(ds[1..], rest);
      assert (ds + rest)[1..] == ds[1..] + rest;
    }
  }

  lemma {:induction false} NumberRoundTrip(x: int, rest: bytes)
    requires rest != [] ==> !IsDigit(rest[0])
    ensures ReadNumber(Dec(x) + rest) == Some((x, rest))
  {
    hide Digits, LeadingDigits, Value;
    var n := if x < 0 then -x else x;
    var t := Digits(n) + rest;
    UnsignedRoundTrip(n, rest);
    if x < 0 {
      assert Dec(x) + rest == [MINUS] + t;
      assert (Dec(x) + rest)[1..] == t;
    }
  }

  lemma UnsignedRoundTrip(n: nat, rest: bytes)
    requires rest != [] ==> !IsDigit(rest[0])
    ensures var t := Digits(n) + rest; var k := LeadingDigits(t);
      k > 0 && t[0] != MINUS && Value(t[..k]) == n && t[k..] == rest
  {
    hide Digits, LeadingDigits, Value;
    DigitsRoundTrip(n, rest);
    var t := Digits(n) + rest;
    assert t[0] == Digits(n)[0] && IsDigit(t[0]);
    assert t[..|Digits(n)|] == Digits(n) && t[|Digits(n)|..] == rest;
  }

  /** Numbers alternating with separators. */
  function Chain(ns: seq<int>, cs: bytes): (s: bytes)
    requires |ns| == |cs| + 1
    ensures s != []
  {
    if cs == [] then Dec(ns[0]) else Dec(ns[0]) + ([cs[0]] + Chain(ns[1..], cs[1..]))
  }

  lemma {:induction false} ChainAppend(ns: seq<int>, cs: bytes, c: byte, x: int)
    requires |ns| == |cs| + 1
    ensures Chain(ns + [x], cs + [c]) == Chain(ns, cs) + ([c] + Dec(x))
  {
    hide Dec;
    assert (ns + [x])[1..] == ns[1..] + [x];
    if cs != [] {
      assert (cs + [c])[1..] == cs[1..] + [c];
      ChainAppend(ns[1..], cs[1..], c, x);
    }
  }

  lemma ReadLastToken(x: int)
    ensures ReadTokens(Dec(x) + [NEWLINE]) == Some(Tokens([x], []))
  {
    hide Dec, ReadNumber;
    NumberRoundTrip(x, [NEWLINE]);
  }

  lemma {:induction false} ReadOneToken(x: int, c: byte, tail: bytes)
    requires IsSeparator(c) && tail != []
    ensures ReadTokens(Dec(x) + ([c] + tail)) ==
            match ReadTokens(tail)
            case None => None
            case Some(ts) => Some(Tokens([x] + ts.numbers, [c] + ts.separators))
  {
    hide Dec, ReadNumber;
    var rest := [c] + tail;
    NumberRoundTrip(x, rest);
    assert rest[1..] == tail;
  }

  lemma ChainUnfolds(ns: seq<int>, cs: bytes)
    requires |ns| == |cs| + 1 && cs != []
    ensures Chain(ns, cs) + [NEWLINE] == Dec(ns[0]) + ([cs[0]] + (Chain(ns[1..], cs[1..]) + [NEWLINE]))
  {
    hide Dec;
    var front, tail := Dec(ns[0]), Chain(ns[1..], cs[1..]);
    assert (front + ([cs[0]] + tail)) + [NEWLINE] == front + ([cs[0]] + (tail + [NEWLINE]));
  }

  lemma {:induction false} TokensRoundTrip(ns: seq<int>, cs: bytes)
    requires |ns| == |cs| + 1 && forall c :: c in cs ==> IsSeparator(c)
    ensures ReadTokens(Chain(ns, cs) + [NEWLINE]) == Some(Tokens(ns, cs))
  {
    hide Dec, ReadTokens;
    if cs == [] {
      ReadLastToken(ns[0]);
      assert ns == [ns[0]];
    } else {
      assert cs[0] in cs;
      TokensRoundTrip(ns[1..], cs[1..]);
      ReadOneToken(ns[0], cs[0], Chain(ns[1..], cs[1..]) + [NEWLINE]);
      ChainUnfolds(ns, cs);
      assert [ns[0]] + ns[1..] == ns && [cs[0]] + cs[1..] == cs;
    }
  }

  /** The text built by appending to the buffer is the chain read from the front. */
  lemma {:induction false} TextIsChain(f: Request, k: nat)
    requires WellFormed(f) && k <= |f.operators|
    requires forall c :: c in f.operators ==> IsSeparator(c)
    ensures Text(f, k) == Chain(Exact(f.operands[..k + 1]), f.operators[..k])
  {
    hide Dec;
    if k > 0 {
      TextIsChain(f, k - 1);
      var c, x := f.operators[k - 1], f.operands[k] as int;
      assert c in f.operators;
      var ns, cs := Exact(f.operands[..k]), f.operators[..k - 1];
      ChainAppend(ns, cs, c, x);
      assert Exact(f.operands[..k + 1]) == ns + [x] && f.operators[..k] == cs + [c] by {
        FrontGrows(f, k);
      }
    }
  }

  lemma FrontGrows(f: Request, k: nat)
    requires WellFormed(f) && 0 < k <= |f.operators|
    ensures Exact(f.operands[..k + 1]) == Exact(f.operands[..k]) + [f.operands[k] as int]
    ensures f.operators[..k] == f.operators[..k - 1] + [f.operators[k - 1]]
  {
  }

  lemma {:induction false} PrintedIsChain(f: Request, r: int32)
    requires WellFormed(f)
    requires forall c :: c in f.operators ==> IsSeparator(c)
    ensures Printed(f, r) == Chain(Exact(f.operands) + [r as int], f.operators + [EQUALS]) + [NEWLINE]
  {
    hide Dec, Chain, Text;
    var k := |f.operators|;
    TextIsChain(f, k);
    assert f.operands[..k + 1] == f.operands && f.operators[..k] == f.operators;
    ChainAppend(Exact(f.operands), f.operators, EQUALS, r as int);
    Grouped(Expression(f), EQUALS, Dec(r as int), NEWLINE);
  }

  lemma Grouped(s: bytes, c: byte, t: bytes, d: byte)
    ensures s + [c] + t + [d] == (s + ([c] + t)) + [d]
  {
  }

  /** A printed line reads back as its operands, operators and result iff no operator is a digit or NUL. */
  lemma {:induction false} LineRoundTrip(f: Request, r: int32)
    requires WellFormed(f)
    ensures ReadLine(Printed(f, r)) == Some(Equation(Exact(f.operands), f.operators, r as int)) <==>
            forall c :: c in f.operators ==> IsSeparator(c)
  {
    hide Printed, Chain, ReadTokens;
    if forall c :: c in f.operators ==> IsSeparator(c) {
      PrintedIsChain(f, r);
      var ns, cs := Exact(f.operands) + [r as int], f.operators + [EQUALS];
      TokensRoundTrip(ns, cs);
      assert ns[..|ns| - 1] == Exact(f.operands);
      assert cs[..|cs| - 1] == f.operators;
    } else {
      var c :| c in f.operators && !IsSeparator(c);
      match ReadTokens(Printed(f, r))
      case None =>
      case Some(ts) =>
        var n := |ts.separators| - 1;
        assert forall d :: n >= 0 && d in ts.separators[..n] ==> d in ts.separators;
    }
  }

  // What no reader can tell apart.

  /** Among requests whose operators are neither digits nor NUL, a line belongs to one request and result. */
  lemma {:induction false} LinesIdentifyRequests(f: Request, g: Request, r: int32, q: int32)
    requires WellFormed(f) && WellFormed(g) && Printed(f, r) == Printed(g, q)
    requires (forall c :: c in f.operators ==> IsSeparator(c)) && forall c :: c in g.operators ==> IsSeparator(c)
    ensures f == g && r == q
  {
    hide Printed, ReadLine;
    LineRoundTrip(f, r);
    LineRoundTrip(g, q);
    forall j | 0 <= j < |f.operands| ensures f.operands[j] == g.operands[j] {
      assert Exact(f.operands)[j] == Exact(g.operands)[j];
    }
  }

  /** Behind a NUL operator the operand is neither printed nor applied, so another request has the same line. */
  lemma {:induction false} NulHidesAnOperand(f: Request)
    requires WellFormed(f) && NUL in f.operators
    ensures exists g :: WellFormed(g) && g != f && LineOf(g) == LineOf(f)
  {
    var j :| 0 <= j < |f.operators| && f.operators[j] == NUL;
    var x: int32 := if f.operands[j + 1] == 0 then 1 else 0;
    var g := f.(operands := f.operands[j + 1 := x]);
    assert g.operands[j + 1] != f.operands[j + 1];
    SameBehindNul(f, g, j, |f.operators|);
    assert WellFormed(g) && LineOf(g) == LineOf(f);
  }

  lemma {:induction false} SameBehindNul(f: Request, g: Request, j: nat, k: nat)
    requires WellFormed(f) && j < |f.operators| && f.operators[j] == NUL && k <= |f.operators|
    requires |g.operands| == |f.operands| && g.operators == f.operators
    requires forall i :: 0 <= i < |f.operands| && i != j + 1 ==> g.operands[i] == f.operands[i]
    ensures Text(g, k) == Text(f, k) && Fold(g, k) == Fold(f, k)
  {
    hide Dec, Wrap32, Text;
    TextEnds(f, k);
    TextEnds(g, k);
    if k > 0 {
      SameBehindNul(f, g, j, k - 1);
    }
  }

  /** A digit for an operator runs into its operands: the text is also that of a single number. */
  lemma {:induction false} DigitJoinsOperands(a: int32, d: nat, x: nat)
    requires 0 < a && d < 10 && x < 10 && 100 * a as int + 10 * d + x <= 0x7fff_ffff
    ensures Expression(Request([a, x as int32], [Digit(d)])) ==
            Expression(Request([(100 * a as int + 10 * d + x) as int32], []))
  {
    hide Digits;
    var f := Request([a, x as int32], [Digit(d)]);
    var n := a as int;
    assert Text(f, 1) == Text(f, 0) + OpText(Digit(d), x as int32);
    OneDigit(x);
    LastDigit(n, d);
    LastDigit(10 * n + d, x);
    assert Digits(n) + ([Digit(d)] + [Digit(x)]) == Digits(n) + [Digit(d)] + [Digit(x)];
  }

  lemma OneDigit(x: nat)
    requires x < 10
    ensures Digits(x) == [Digit(x)]
  {
  }

  lemma LastDigit(n: nat, d: nat)
    requires n > 0 && d < 10
    ensures Digits(10 * n + d) == Digits(n) + [Digit(d)]
  {
  }

  /** An equation whose left side, evaluated by the servers' fold, gives its right side. */
  predicate Consistent(e: Equation) {
    1 <= |e.operands| <= 127 && |e.operators| == |e.operands| - 1
    && (forall j :: 0 <= j < |e.operands| ==> IsInt32(e.operands[j]))
    && e.result == Evaluate(Reread(e)) as int
  }

  function Reread(e: Equation): (f: Request)
    requires forall j :: 0 <= j < |e.operands| ==> IsInt32(e.operands[j])
    ensures |f.operands| == |e.operands| && f.operators == e.operators
  {
    Request(seq(|e.operands|, j requires 0 <= j < |e.operands| => Wrap32(e.operands[j])), e.operators)
  }

  /** Every line the servers print for readable operators is a true equation about the request. */
  lemma {:induction false} LinesAreConsistent(f: Request)
    requires WellFormed(f) && forall c :: c in f.operators ==> IsSeparator(c)
    ensures ReadLine(LineOf(f)).Some? && var e := ReadLine(LineOf(f)).value;
      |e.operands| == |f.operands| && (forall j :: 0 <= j < |f.operands| ==> e.operands[j] == f.operands[j] as int)
      && e.operators == f.operators && e.result == Evaluate(f) as int && Consistent(e) && Reread(e) == f
  {
    hide ReadLine, Printed, Evaluate;
    LineRoundTrip(f, Evaluate(f));
    assert Reread(Equation(Exact(f.operands), f.operators, Evaluate(f) as int)).operands == f.operands;
  }

  // What the texts are, character by character.

  lemma DivideTwice(n: nat, p: nat)
    requires p > 0
    ensures n / 10 / p == n / (10 * p)
  {
    var q, r := n / 10 / p, n / 10 % p;
    assert n / 10 == q * p + r;
    assert n == q * (10 * p) + (10 * r + n % 10);
    QuotientIs(n, 10 * p, q, 10 * r + n % 10);
  }

  lemma QuotientIs(n: nat, d: nat, q: nat, r: nat)
    requires n == q * d + r && r < d
    ensures n / d == q
  {
    var k := n / d;
    assert n == k * d + n % d;
    Multiples(k, q, d);
    Multiples(q, k, d);
  }

  lemma Multiples(j: nat, k: nat, d: nat)
    ensures j < k ==> j * d + d <= k * d
  {
    if j < k {
      var m: nat := k - j - 1;
      Distributes(j + 1, m, d);
      Distributes(j, 1, d);
      assert m * d >= 0;
    }
  }

  lemma Distributes(a: nat, b: nat, d: nat)
    ensures (a + b) * d == a * d + b * d
  {
  }

  /** The digits of a number are its decimal digits, with no leading zero. */
  lemma {:induction false} CanonicalDigits(n: nat)
    ensures var ds := Digits(n);
      (forall i :: 0 <= i < |ds| ==> ds[|ds| - 1 - i] as int == '0' as int + n / Pow(10, i) % 10)
      && (n > 0 ==> ds[0] as int != '0' as int) && (n == 0 ==> |ds| == 1) && n < Pow(10, |ds|)
  {
    var ds := Digits(n);
    if n < 10 {
      assert Pow(10, 0) == 1 && Pow(10, 1) == 10 * Pow(10, 0);
    } else {
      CanonicalDigits(n / 10);
      var front := Digits(n / 10);
      assert ds == front + [Digit(n % 10)];
      assert Pow(10, |ds|) == 10 * Pow(10, |front|);
      forall i | 0 <= i < |ds| ensures ds[|ds| - 1 - i] as int == '0' as int + n / Pow(10, i) % 10 {
        if i == 0 {
          assert Pow(10, 0) == 1;
        } else {
          assert ds[|ds| - 1 - i] == front[|front| - 1 - (i - 1)];
          assert Pow(10, i) == 10 * Pow(10, i - 1);
          DivideTwice(n, Pow(10, i - 1));
        }
      }
    }
  }

  /** A number prints as `%d` prints it: a minus sign if it is negative, then its magnitude's decimal digits. */
  lemma {:induction false} CanonicalDecimal(x: int)
    ensures x < 0 ==> Dec(x)[0] as int == '-' as int
    ensures var n := Abs(x); var ds := if x < 0 then Dec(x)[1..] else Dec(x);
      |ds| >= 1 && (forall i :: 0 <= i < |ds| ==> ds[|ds| - 1 - i] as int == '0' as int + n / Pow(10, i) % 10)
      && (n > 0 ==> ds[0] as int != '0' as int) && (n == 0 ==> |ds| == 1) && n < Pow(10, |ds|)
  {
    hide Digits, Pow;
    CanonicalDigits(Abs(x));
    if x < 0 {
      assert Dec(x)[1..] == Digits(-x);
    }
  }

  /** A request without its last operator and operand. */
  function Front(f: Request): (g: Request)
    requires WellFormed(f) && |f.operands| > 1
    ensures WellFormed(g) && |g.operands| == |f.operands| - 1
    ensures g.operands == f.operands[..|f.operands| - 1] && g.operators == f.operators[..|f.operators| - 1]
  {
    Request(f.operands[..|f.operands| - 1], f.operators[..|f.operators| - 1])
  }

  lemma {:induction false} FrontText(f: Request, k: nat)
    requires WellFormed(f) && |f.operands| > 1 && k < |f.operators|
    ensures Text(Front(f), k) == Text(f, k)
  {
    hide Dec, OpText;
    if k > 0 {
      FrontText(f, k - 1);
    }
  }

  /** How a line is spelled: the first number, each operator with its number, `=`, the result and a newline. */
  lemma {:induction false} LineSpelling(f: Request, r: int32)
    requires WellFormed(f)
    ensures |f.operands| == 1 ==> Expression(f) == Dec(f.operands[0] as int)
    ensures var n := |f.operands| - 1;
      n > 0 ==> Expression(f) == Expression(Front(f))
                + (if f.operators[n - 1] as int == 0 then [] else [f.operators[n - 1]] + Dec(f.operands[n] as int))
    ensures Printed(f, r) == Expression(f) + ['=' as int as byte] + Dec(r as int) + ['\n' as int as byte]
    ensures LineOf(f) == Printed(f, Evaluate(f))
  {
    hide Dec, Text, Evaluate, OpText;
    var n := |f.operators|;
    TextEnds(f, n);
    if n > 0 {
      FrontText(f, n - 1);
    }
  }

  lemma TextEnds(f: Request, k: nat)
    requires WellFormed(f) && k <= |f.operators|
    ensures k == 0 ==> Text(f, k) == Dec(f.operands[0] as int)
    ensures k > 0 ==> Text(f, k) == Text(f, k - 1) + OpText(f.operators[k - 1], f.operands[k])
    ensures k > 0 ==>
      OpText(f.operators[k - 1], f.operands[k]) == if f.operators[k - 1] == 0 then [] else [f.operators[k - 1]] + Dec(f.operands[k] as int)
  {
    hide Dec;
  }

  /** The bytes at which a reader may cut a line: all but the digits and NUL. */
  lemma Separators(c: byte)
    ensures IsSeparator(c) <==> c as int != 0 && !('0' as int <= c as int <= '9' as int)
  {
  }

  /** "1+2=3" */
  lemma OnePlusTwo()
    ensures LineOf(Request([1, 2], [43])) == [49, 43, 50, 61, 51, 10]
  {
    var f := Request([1, 2], [43]);
    assert Fold(f, 1) == Apply(43, Fold(f, 0), 2) == 3;
    OneDigit(1);
    OneDigit(2);
    OneDigit(3);
    assert Text(f, 1) == Text(f, 0) + OpText(43, 2);
  }

  // Lengths.

  lemma {:induction false} DigitsLength(n: nat, k: nat)
    requires k >= 1 && n < Pow(10, k)
    ensures |Digits(n)| <= k
  {
    if k == 1 {
      assert Pow(10, 1) == 10 * Pow(10, 0);
    } else if n >= 10 {
      DigitsLength(n / 10, k - 1);
    }
  }

  lemma TenToTheTenth()
    ensures Pow(10, 10) == 10_000_000_000
  {
    assert Pow(10, 5) == 100_000 by {
      assert Pow(10, 2) == 100;
      assert Pow(10, 3) == 1000;
      assert Pow(10, 4) == 10_000;
    }
    assert Pow(10, 6) == 1_000_000;
    assert Pow(10, 7) == 10_000_000;
    assert Pow(10, 8) == 100_000_000;
    assert Pow(10, 9) == 1_000_000_000;
  }

  lemma DecLength(x: int32)
    ensures |Dec(x as int)| <= 11
  {
    TenToTheTenth();
    DigitsLength(Abs(x as int), 10);
  }

  lemma OpTextLength(op: byte, x: int32)
    ensures |OpText(op, x)| <= 12
  {
    hide Dec;
    DecLength(x);
  }

  lemma {:induction false} TextLength(f: Request, k: nat)
    requires WellFormed(f) && k <= |f.operators|
    ensures |Text(f, k)| <= 11 + 12 * k
  {
    hide Dec, OpText;
    DecLength(f.operands[k]);
    if k > 0 {
      TextLength(f, k - 1);
      OpTextLength(f.operators[k - 1], f.operands[k]);
    }
  }

  lemma {:induction false} LineLength(f: Request)
    requires WellFormed(f)
    ensures |Expression(f)| <= 12 * |f.operands| - 1
    ensures |LineOf(f)| <= 12 * |f.operands| + 12
  {
    hide Dec, Text;
    TextLength(f, |f.operators|);
    DecLength(Evaluate(f));
  }

  /** The bound is attained: `n` times the smallest `int`, joined by an operator the switch ignores. */
  lemma {:induction false} LongestLine(n: nat)
    requires 1 <= n <= 127
    ensures WellFormed(Smallest(n)) && |LineOf(Smallest(n))| == 12 * n + 12
  {
    hide Text, Fold;
    SmallestText(n, n - 1);
  }

  const IGNORED: byte := 37  // '%'

  function Smallest(n: nat): (f: Request)
    requires 1 <= n <= 127
    ensures WellFormed(f)
  {
    Request(seq(n, _ => INT_MIN as int32), seq(n - 1, _ => IGNORED))
  }

  lemma {:induction false} SmallestText(n: nat, k: nat)
    requires 1 <= n <= 127 && k < n
    ensures |Text(Smallest(n), k)| == 11 + 12 * k && Fold(Smallest(n), k) == INT_MIN as int32
  {
    hide Dec, Wrap32;
    var f := Smallest(n);
    assert f.operands[k] == INT_MIN as int32;
    SmallestDec();
    if k > 0 {
      SmallestText(n, k - 1);
      assert OpText(f.operators[k - 1], f.operands[k]) == [IGNORED] + Dec(INT_MIN);
    }
  }

  lemma SmallestDec()
    ensures |Dec(INT_MIN)| == 11
  {
    assert |Digits(214)| == 3;
    assert |Digits(21474)| == 5;
    assert |Digits(2147483)| == 7;
    assert |Digits(214748364)| == 9;
    assert |Digits(2147483648)| == 10;
  }

  const REQ_SIZE: nat := 100

  /** Seven operands are the most that fit the stored field, terminator included, whatever their values. */
  lemma {:induction false} SevenOperandsAlwaysFit(n: nat)
    requires 1 <= n <= 127
    ensures REQ_SIZE == 100 && ((forall f :: WellFormed(f) && |f.operands| == n ==> |LineOf(f)| < REQ_SIZE) <==> n <= 7)
  {
    if n <= 7 {
      forall f | WellFormed(f) && |f.operands| == n ensures |LineOf(f)| < REQ_SIZE {
        LineLength(f);
      }
    } else {
      LongestLine(n);
      assert WellFormed(Smallest(n)) && |Smallest(n).operands| == n;
    }
  }

  // A line is a C string, with its only newline at the end unless an operator is one.

  lemma {:induction false} DecBytes(x: int)
    ensures forall c :: c in Dec(x) ==> c == MINUS || IsDigit(c)
  {
    AllDigits(Abs(x));
  }

  lemma InEither(c: byte, s: bytes, t: bytes)
    ensures c in s + t <==> c in s || c in t
  {
  }

  lemma OpTextBytes(op: byte, x: int32)
    ensures forall c :: c in OpText(op, x) ==> c != NUL && (c == op || c == MINUS || IsDigit(c))
  {
    hide Dec;
    DecBytes(x as int);
  }

  lemma {:induction false} TextBytes(f: Request, k: nat)
    requires WellFormed(f) && k <= |f.operators|
    ensures NUL !in Text(f, k)
    ensures NEWLINE !in f.operators ==> NEWLINE !in Text(f, k)
  {
    hide Dec, OpText;
    DecBytes(f.operands[k] as int);
    if k > 0 {
      TextBytes(f, k - 1);
      var op := f.operators[k - 1];
      assert op in f.operators;
      var added := OpText(op, f.operands[k]);
      OpTextBytes(op, f.operands[k]);
      InEither(NUL, Text(f, k - 1), added);
      InEither(NEWLINE, Text(f, k - 1), added);
    }
  }

  lemma {:induction false} LineIsACString(f: Request)
    requires WellFormed(f)
    ensures NUL !in LineOf(f)
    ensures NEWLINE !in f.operators ==> NEWLINE !in LineOf(f)[..|LineOf(f)| - 1]
    ensures LineOf(f)[|LineOf(f)| - 1] == NEWLINE
  {
    hide Dec, Text;
    TextBytes(f, |f.operators|);
    DecBytes(Evaluate(f) as int);
  }

  // The decode-print-fold loop (hw6_server.c `calculator`, hw8_server.c).

  /** `sprintf` into a buffer: the text and a terminating NUL. */
  method Sprintf(buf: array<byte>, off: nat, text: bytes)
    requires off + |text| < buf.Length
    modifies buf
    ensures buf[..] == Overwrite(old(buf[..]), off, text + [NUL])
  {
    for i := 0 to |text|
      invariant buf[..] == Overwrite(old(buf[..]), off, text[..i])
    {
      buf[off + i] := text[i];
      assert buf[..] == Overwrite(old(buf[..]), off, text[..i + 1]);
    }
    buf[off + |text|] := NUL;
  }

  /** Printing at the end of the string in a buffer appends up to the first NUL printed. */
  lemma {:induction false} SprintfAppends(b: bytes, text: bytes)
    requires |CStr(b)| + |text| < |b|
    ensures CStr(Overwrite(b, |CStr(b)|, text + [NUL])) == CStr(b) + CStr(text + [NUL])
  {
    var s := CStr(b);
    var rest := b[|s| + |text| + 1..];
    assert Overwrite(b, |s|, text + [NUL]) == s + ((text + [NUL]) + rest);
    CStrAppend(s, (text + [NUL]) + rest);
    assert Terminated(text + [NUL]) by {
      assert (text + [NUL])[|text|] == NUL;
    }
    CStrStops(text + [NUL], rest);
  }

  lemma {:induction false} CStrStops(s: bytes, rest: bytes)
    requires Terminated(s)
    ensures CStr(s + rest) == CStr(s)
  {
    if s[0] != NUL {
      CStrStops(s[1..], rest);
      assert (s + rest)[1..] == s[1..] + rest;
    }
  }

  lemma {:induction false} OpTextIsPrinted(op: byte, x: int32)
    ensures CStr([op] + Dec(x as int) + [NUL]) == OpText(op, x)
  {
    DecBytes(x as int);
    if op != NUL {
      CStrAppend([op] + Dec(x as int), [NUL]);
    }
  }

  /** What the frame in `result` asks for: without operands, the number left in `operand[0]`. */
  function Asked(result: bytes, first: int32): (f: Request)
    requires |result| == BUF_SIZE
    ensures WellFormed(f)
  {
    if Count(result) >= 1 then Decode(result) else Request([first], [])
  }

  /** A frame is evaluated as it decodes; a count that is not positive leaves the number of an earlier request. */
  lemma WhatIsAsked(result: bytes, first: int32)
    requires |result| == BUF_SIZE
    ensures 1 <= result[0] as int <= 127 ==> Decodable(result) && Asked(result, first) == Decode(result)
    ensures !(1 <= result[0] as int <= 127) ==>
      Evaluate(Asked(result, first)) == first && Expression(Asked(result, first)) == Dec(first as int)
  {
    hide Dec;
  }

  /** The globals of the store server's calculator; `operand` keeps the numbers of earlier requests. */
  class Workspace {
    const operand: array<int32>
    const operator: array<byte>
    const buf: array<byte>
    var opResult: int32

    constructor ()
      ensures fresh(operand) && fresh(operator) && fresh(buf) && Valid()
      ensures forall j :: 0 <= j < BUF_SIZE ==> operand[j] == 0
    {
      operand := new int32[BUF_SIZE](_ => 0);
      operator := new byte[BUF_SIZE](_ => NUL);
      buf := new byte[BUF_SIZE](_ => NUL);
      opResult := 0;
    }

    ghost predicate Valid() {
      operand.Length == operator.Length == buf.Length == BUF_SIZE && operator != buf
    }

    method Calculate(result: array<byte>)
      requires Valid() && result.Length == BUF_SIZE && result != operator && result != buf
      requires |Expression(Asked(result[..], operand[0]))| + 12 < BUF_SIZE
      modifies this, operand, operator, buf
      ensures opResult == Evaluate(old(Asked(result[..], operand[0])))
      ensures CStr(buf[..]) == Expression(old(Asked(result[..], operand[0])))
      ensures operand[0] == old(Asked(result[..], operand[0])).operands[0]
    {
      hide Text, Fold, CStr;
      ghost var f := Asked(result[..], operand[0]);
      var opCount := SignedChar(result[0]);
      if opCount > 0 {
        ReadOperands(result, opCount, operand);
        assert forall i :: 0 <= i < opCount ==> operand[i] == operand[..opCount][i];
      }
      FoldAndPrint(result, opCount, f);
    }

    method FoldAndPrint(result: array<byte>, opCount: int, ghost f: Request)
      requires Valid() && result.Length == BUF_SIZE && result != operator && result != buf
      requires WellFormed(f) && |f.operands| == (if opCount > 0 then opCount else 1)
      requires forall i :: 0 <= i < |f.operands| ==> operand[i] == f.operands[i]
      requires forall i :: 0 <= i < |f.operators| ==> result[1 + opCount * 4 + i] == f.operators[i]
      requires |Expression(f)| + 12 < BUF_SIZE
      modifies this, operator, buf
      ensures opResult == Evaluate(f) && CStr(buf[..]) == Expression(f)
    {
      hide Text, Apply, CStr;
      opResult := operand[0];
      PrintFirst(f);
      var j := 0;
      while j < opCount - 1
        invariant 0 <= j <= |f.operators|
        invariant forall i :: 0 <= i < |f.operators| ==> result[1 + opCount * 4 + i] == f.operators[i]
        invariant forall i :: 0 <= i < |f.operands| ==> operand[i] == f.operands[i]
        invariant opResult == Fold(f, j) && CStr(buf[..]) == Text(f, j)
      {
        Step(result[1 + opCount * 4 + j], operand[j + 1], f, j);
        j := j + 1;
      }
      assert j == |f.operators|;
    }

    /** One operator: the `switch`, then the text of the operator and its operand. */
    method Step(op: byte, x: int32, ghost f: Request, j: nat)
      requires Valid() && WellFormed(f) && |Expression(f)| + 12 < BUF_SIZE && j < |f.operators|
      requires op == f.operators[j] && x == f.operands[j + 1]
      requires opResult == Fold(f, j) && CStr(buf[..]) == Text(f, j)
      modifies `opResult, operator, buf
      ensures opResult == Fold(f, j + 1) && CStr(buf[..]) == Text(f, j + 1)
    {
      operator[j] := op;
      opResult := Apply(op, opResult, x);
      PrintNext(op, x, f, j);
    }

    method PrintFirst(ghost f: Request)
      requires Valid() && WellFormed(f) && |Expression(f)| + 12 < BUF_SIZE && operand[0] == f.operands[0]
      modifies buf
      ensures CStr(buf[..]) == Text(f, 0)
    {
      hide Dec, CStr;
      var text := Dec(operand[0] as int);
      TextGrows(f, 0, |f.operators|);
      Sprintf(buf, 0, text);
      PrintedFirst(buf[..], operand[0]);
    }

    method PrintNext(op: byte, x: int32, ghost f: Request, ghost j: nat)
      requires Valid() && WellFormed(f) && |Expression(f)| + 12 < BUF_SIZE && j < |f.operators|
      requires op == f.operators[j] && x == f.operands[j + 1]
      requires CStr(buf[..]) == Text(f, j)
      modifies buf
      ensures CStr(buf[..]) == Text(f, j + 1)
    {
      hide Dec, CStr, OpText, Overwrite;
      var at := |CStr(buf[..])|;
      TextGrows(f, j + 1, |f.operators|);
      DecLength(x);
      SprintfAppends(buf[..], [op] + Dec(x as int));
      OpTextIsPrinted(op, x);
      Sprintf(buf, at, [op] + Dec(x as int));
    }
  }

  lemma PrintedFirst(b: bytes, x: int32)
    requires |Dec(x as int)| < |b| && b[..|Dec(x as int)| + 1] == Dec(x as int) + [NUL]
    ensures CStr(b) == Dec(x as int)
  {
    hide Dec, CStr;
    var text := Dec(x as int);
    DecBytes(x as int);
    assert b[|text|] == b[..|text| + 1][|text|];
    assert b[..|text|] == b[..|text| + 1][..|text|] == text;
    CStrIs(b, |text|);
  }

  lemma {:induction false} TextGrows(f: Request, j: nat, k: nat)
    requires WellFormed(f) && j <= k <= |f.operators|
    ensures |Text(f, j)| <= |Text(f, k)|
  {
    hide OpText, Dec;
    if j < k {
      TextGrows(f, j, k - 1);
    }
  }
}
