/** The archive checksum: the bitwise register loop is division by the CRC-32 generator
    over GF(2) (section 8 of RFC 1952), and it detects every error burst of up to four
    bytes. A polynomial is its coefficient sequence, highest power first. */
module Crc32 {
  import opened Prelude
  import opened BitStrings

  // --- polynomials over GF(2) ---

  type Poly = seq<bit>

  function Plus(a: bit, b: bit): (c: bit) {
    if a == b then 0 else 1
  }

  function Zeros(n: nat): (p: Poly)
    ensures |p| == n
  {
    seq(n, _ => 0)
  }

  function Ones(n: nat): (p: Poly)
    ensures |p| == n
  {
    seq(n, _ => 1)
  }

  /** Sum of two polynomials given with equally many coefficients. */
  function Add(a: Poly, b: Poly): (c: Poly)
    requires |a| == |b|
    ensures |c| == |a|
  {
    seq(|a|, i requires 0 <= i < |a| => Plus(a[i], b[i]))
  }

  /** A constant multiple. */
  function Scale(t: bit, p: Poly): (c: Poly)
    ensures |c| == |p|
  {
    if t == 1 then p else Zeros(|p|)
  }

  /** Schoolbook product: one shifted multiple of `p` for each coefficient of `q`. */
  function Mul(q: Poly, p: Poly): (c: Poly)
    requires |p| > 0
    ensures |c| == |q| + |p| - 1
  {
    if |q| == 0 then Zeros(|p| - 1)
    else Add(Scale(q[0], p) + Zeros(|q| - 1), [0] + Mul(q[1..], p))
  }

  /** x^32+x^26+x^23+x^22+x^16+x^12+x^11+x^10+x^8+x^7+x^5+x^4+x^2+x+1. */
  function Generator(): (g: Poly)
    ensures |g| == 33
  {
    seq(33, i => if 32 - i in {32, 26, 23, 22, 16, 12, 11, 10, 8, 7, 5, 4, 2, 1, 0} then 1 else 0)
  }

  /** `r` is the remainder of `a` divided by the generator: a == q * G + r, deg r < 32. */
  ghost predicate IsRemainder(a: Poly, r: Poly) {
    |r| == 32 && |a| >= 32 && exists q: Poly :: |q| == |a| - 32 && a == Add(Mul(q, Generator()), Zeros(|a| - 32) + r)
  }

  // --- the register ---

  /** A 32-bit register, its low bit first, holds the coefficient of x^31 first. */
  type Register = c: Poly | |c| == 32 witness Zeros(32)

  /** Shift right by one, folding the generator in when a one falls out. */
  function Step(c: Register): (d: Register) {
    Add(c[1..] + [0], Scale(c[0], Generator()[1..]))
  }

  function Steps(c: Register, n: nat): (d: Register)
    decreases n
  {
    if n == 0 then c else Steps(Step(c), n - 1)
  }

  /** One message bit enters at the low end. */
  function Feed(c: Register, b: bit): (d: Register) {
    Step(Add(c, [b] + Zeros(31)))
  }

  function FeedAll(c: Register, bits: seq<bit>): (d: Register)
    decreases |bits|
  {
    if |bits| == 0 then c else FeedAll(Feed(c, bits[0]), bits[1..])
  }

  /** The bits of a message in transmission order. */
  function MessageBits(data: seq<byte>): (bits: seq<bit>)
    ensures |bits| == 8 * |data|
  {
    if |data| == 0 then [] else LsbBits(data[0], 8) + MessageBits(data[1..])
  }

  /** The dividend: the message times x^32, with its first 32 coefficients inverted. */
  function Dividend(c: Register, bits: seq<bit>): (a: Poly)
    ensures |a| == |bits| + 32
  {
    Add(bits + Zeros(32), c + Zeros(|bits|))
  }

  lemma FeedCoefficients(c: Register, b: bit)
    ensures var t := Plus(c[0], b);
      forall i :: 0 <= i < 32 ==>
        Feed(c, b)[i] == Plus(if i < 31 then c[i + 1] else 0, if t == 1 then Generator()[i + 1] else 0)
  {
    var d := Add(c, [b] + Zeros(31));
    assert d[0] == Plus(c[0], b);
    forall i | 0 <= i < 32
      ensures Feed(c, b)[i] == Plus(if i < 31 then c[i + 1] else 0, if d[0] == 1 then Generator()[i + 1] else 0)
    {
      assert i < 31 ==> d[i + 1] == c[i + 1];
      assert (d[1..] + [0])[i] == if i < 31 then c[i + 1] else 0;
    }
  }

  // --- the register divides ---

  /** Feeding bits leaves the remainder of the dividend they and the register form. */
  lemma {:induction false} FeedDivides(c: Register, bits: seq<bit>) returns (q: Poly)
    ensures |q| == |bits|
    ensures Dividend(c, bits) == Add(Mul(q, Generator()), Zeros(|bits|) + FeedAll(c, bits))
    decreases |bits|
  {
    if |bits| == 0 {
      q := [];
      assert Mul([], Generator()) == Zeros(32);
      assert Dividend(c, bits) == c == Add(Zeros(32), Zeros(0) + c);
    } else {
      var b, rest := bits[0], bits[1..];
      var tail := FeedDivides(Feed(c, b), rest);
      q := [Plus(c[0], b)] + tail;
      var right := Add(Mul(q, Generator()), Zeros(|bits|) + FeedAll(c, bits));
      forall i | 0 <= i < |bits| + 32 ensures Dividend(c, bits)[i] == right[i] {
        DivisionAt(c, bits, tail, FeedAll(c, bits), i);
      }
    }
  }

  /** Coefficient `i` of `a` followed by zeros. */
  function Coefficient(a: Poly, i: nat): (b: bit) {
    if i < |a| then a[i] else 0
  }

  lemma DividendAt(c: Register, bits: seq<bit>, i: nat)
    requires i < |bits| + 32
    ensures Dividend(c, bits)[i] == Plus(Coefficient(bits, i), Coefficient(c, i))
  {
  }

  lemma ProductAt(t: bit, m: Poly, g: Poly, low: Poly, i: nat)
    requires i < |low| && |low| == |m| + 1 && |low| >= |g|
    ensures Add(Add(Scale(t, g) + Zeros(|low| - |g|), [0] + m), low)[i]
         == Plus(Plus(if t == 1 then Coefficient(g, i) else 0, if i == 0 then 0 else m[i - 1]), low[i])
  {
  }

  lemma FeedAt(c: Register, b: bit, i: nat)
    requires i > 0
    ensures Coefficient(Feed(c, b), i - 1)
         == Plus(Coefficient(c, i), if Plus(c[0], b) == 1 then Coefficient(Generator(), i) else 0)
  {
    hide Feed;
    FeedCoefficients(c, b);
  }

  lemma XorStep(x: bit, k: bit, f: bit, m: bit, e: bit)
    requires Plus(x, Plus(k, f)) == Plus(m, e)
    ensures Plus(x, k) == Plus(Plus(f, m), e)
  {
  }

  /** Coefficient `i` of the dividend, one quotient coefficient further on. */
  lemma DivisionStep(c: Register, bits: seq<bit>, m: Poly, r: Register, i: nat)
    requires |bits| > 0 && |m| == |bits| + 31 && 0 < i < |bits| + 32
    requires Dividend(Feed(c, bits[0]), bits[1..]) == Add(m, Zeros(|bits| - 1) + r)
    ensures Plus(Coefficient(bits, i), Coefficient(c, i))
         == Plus(Plus(if Plus(c[0], bits[0]) == 1 then Coefficient(Generator(), i) else 0, m[i - 1]),
                 (Zeros(|bits|) + r)[i])
  {
    hide Feed, Generator, Dividend, Add, Plus;
    var n, g := |bits|, Generator();
    var f: bit := if Plus(c[0], bits[0]) == 1 then Coefficient(g, i) else 0;
    FeedAt(c, bits[0], i);
    DividendAt(Feed(c, bits[0]), bits[1..], i - 1);
    AddAt(m, Zeros(n - 1) + r);
    assert (Zeros(n) + r)[i] == (Zeros(n - 1) + r)[i - 1];
    XorStep(Coefficient(bits, i), Coefficient(c, i), f, m[i - 1], (Zeros(n) + r)[i]);
  }

  lemma {:induction false} MulCons(t: bit, q: Poly)
    ensures Mul([t] + q, Generator())
         == Add(Scale(t, Generator()) + Zeros(|q|), [0] + Mul(q, Generator()))
  {
    assert ([t] + q)[1..] == q;
  }

  lemma {:induction false} DivisionAt(c: Register, bits: seq<bit>, tail: Poly, r: Register, i: nat)
    requires |bits| > 0 && |tail| == |bits| - 1 && i < |bits| + 32
    requires Dividend(Feed(c, bits[0]), bits[1..]) == Add(Mul(tail, Generator()), Zeros(|bits| - 1) + r)
    ensures Dividend(c, bits)[i]
         == Add(Mul([Plus(c[0], bits[0])] + tail, Generator()), Zeros(|bits|) + r)[i]
  {
    hide Feed, FeedAll, Generator, Dividend, Scale, Add, Plus, Mul;
    var t, m := Plus(c[0], bits[0]), Mul(tail, Generator());
    MulCons(t, tail);
    DividendAt(c, bits, i);
    ProductAt(t, m, Generator(), Zeros(|bits|) + r, i);
    if i == 0 {
      FirstCoefficient(c, bits[0]);
    } else {
      DivisionStep(c, bits, m, r, i);
    }
  }

  /** The leading coefficients cancel. */
  lemma FirstCoefficient(c: Register, b: bit)
    ensures Plus(b, c[0]) == Plus(Plus(if Plus(c[0], b) == 1 then Coefficient(Generator(), 0) else 0, 0), 0)
  {
    GeneratorEnds();
  }

  lemma GeneratorEnds()
    ensures Generator()[0] == 1 && Generator()[32] == 1
  {
  }

  /** Equal sums with equal leading quotient coefficients stay equal without them. */
  lemma {:induction false} PeelLeading(p: Poly, q: Poly, a: Register, b: Register)
    requires |p| == |q| > 0 && p[0] == q[0]
    requires Add(Mul(p, Generator()), Zeros(|p|) + a) == Add(Mul(q, Generator()), Zeros(|q|) + b)
    ensures Add(Mul(p[1..], Generator()), Zeros(|p| - 1) + a) == Add(Mul(q[1..], Generator()), Zeros(|q| - 1) + b)
  {
    hide Generator, Add, Plus, Mul, Scale;
    assert p == [p[0]] + p[1..] && q == [q[0]] + q[1..];
    MulCons(p[0], p[1..]);
    MulCons(q[0], q[1..]);
    PeelSums(p[0], Generator(), Mul(p[1..], Generator()), Mul(q[1..], Generator()), a, b, |p|);
  }

  /** The same, for products already split into leading part and rest. */
  lemma PeelSums(t: bit, g: Poly, m: Poly, k: Poly, a: Register, b: Register, n: nat)
    requires n > 0 && |g| == 33 && |m| == |k| == n + 31
    requires Add(Add(Scale(t, g) + Zeros(n - 1), [0] + m), Zeros(n) + a)
          == Add(Add(Scale(t, g) + Zeros(n - 1), [0] + k), Zeros(n) + b)
    ensures Add(m, Zeros(n - 1) + a) == Add(k, Zeros(n - 1) + b)
  {
    hide Add, Plus, Scale;
    var s, u := Add(m, Zeros(n - 1) + a), Add(k, Zeros(n - 1) + b);
    AddAt(m, Zeros(n - 1) + a);
    AddAt(k, Zeros(n - 1) + b);
    forall i | 0 <= i < n + 31 ensures s[i] == u[i] {
      ProductAt(t, m, g, Zeros(n) + a, i + 1);
      ProductAt(t, k, g, Zeros(n) + b, i + 1);
      CancelLeft(if t == 1 then Coefficient(g, i + 1) else 0, m[i], (Zeros(n) + a)[i + 1], k[i], (Zeros(n) + b)[i + 1]);
    }
  }

  lemma CancelLeft(f: bit, m: bit, e: bit, k: bit, h: bit)
    requires Plus(Plus(f, m), e) == Plus(Plus(f, k), h)
    ensures Plus(m, e) == Plus(k, h)
  {
  }

  lemma {:induction false} LeadingCoefficient(q: Poly, a: Register)
    requires |q| > 0
    ensures Add(Mul(q, Generator()), Zeros(|q|) + a)[0] == q[0]
  {
    hide Generator;
    GeneratorEnds();
  }

  /** Division has one remainder. */
  lemma {:induction false} QuotientsAgree(p: Poly, q: Poly, a: Register, b: Register)
    requires |p| == |q|
    requires Add(Mul(p, Generator()), Zeros(|p|) + a) == Add(Mul(q, Generator()), Zeros(|q|) + b)
    ensures a == b
    decreases |p|
  {
    hide Generator, Add;
    if |p| == 0 {
      AddZero(a);
      AddZero(b);
      assert Zeros(0) + a == a && Zeros(0) + b == b;
    } else {
      LeadingCoefficient(p, a);
      LeadingCoefficient(q, b);
      PeelLeading(p, q, a, b);
      QuotientsAgree(p[1..], q[1..], a, b);
    }
  }

  lemma RemainderUnique(m: Poly, a: Poly, b: Poly)
    requires IsRemainder(m, a) && IsRemainder(m, b)
    ensures a == b
  {
    var p: Poly :| |p| == |m| - 32 && m == Add(Mul(p, Generator()), Zeros(|m| - 32) + a);
    var q: Poly :| |q| == |m| - 32 && m == Add(Mul(q, Generator()), Zeros(|m| - 32) + b);
    QuotientsAgree(p, q, a, b);
  }

  // --- linearity ---

  lemma AddAt(a: Poly, b: Poly)
    requires |a| == |b|
    ensures forall i :: 0 <= i < |a| ==> Add(a, b)[i] == Plus(a[i], b[i])
  {
  }

  /** Addition commutes with itself on pairs. */
  lemma AddSwap(a: Poly, b: Poly, c: Poly, d: Poly)
    requires |a| == |b| == |c| == |d|
    ensures Add(Add(a, b), Add(c, d)) == Add(Add(a, c), Add(b, d))
  {
  }

  lemma StepLinear(c: Register, d: Register)
    ensures Step(Add(c, d)) == Add(Step(c), Step(d))
  {
    hide Generator;
    var g := Generator()[1..];
    assert Add(c, d)[1..] + [0] == Add(c[1..] + [0], d[1..] + [0]);
    assert Scale(Plus(c[0], d[0]), g) == Add(Scale(c[0], g), Scale(d[0], g));
    AddSwap(c[1..] + [0], d[1..] + [0], Scale(c[0], g), Scale(d[0], g));
  }

  /** With its low bit clear the register only shifts. */
  lemma StepShifts(w: seq<bit>)
    requires |w| == 31
    ensures Step([0] + w) == w + [0]
  {
    hide Generator;
    var c := [0] + w;
    assert c[1..] == w;
    assert Add(w + [0], Zeros(32)) == w + [0];
  }

  /** XOR-ing a whole word in at the low end and then stepping is feeding its bits. */
  lemma {:induction false} StepsFeed(c: Register, w: seq<bit>)
    requires |w| <= 32
    ensures Steps(Add(c, w + Zeros(32 - |w|)), |w|) == FeedAll(c, w)
    decreases |w|
  {
    hide Step, Generator;
    if |w| == 0 {
      assert Add(c, w + Zeros(32)) == c;
    } else {
      var b, v := w[0], w[1..];
      var tail := v + Zeros(32 - |w|);
      assert w + Zeros(32 - |w|) == Add([b] + Zeros(31), [0] + tail);
      assert Add(c, w + Zeros(32 - |w|)) == Add(Add(c, [b] + Zeros(31)), [0] + tail);
      StepLinear(Add(c, [b] + Zeros(31)), [0] + tail);
      StepShifts(tail);
      assert tail + [0] == v + Zeros(32 - |v|);
      StepsFeed(Feed(c, b), v);
    }
  }

  lemma {:induction false} FeedAllLinear(c: Register, d: Register, u: seq<bit>, v: seq<bit>)
    requires |u| == |v|
    ensures FeedAll(Add(c, d), Add(u, v)) == Add(FeedAll(c, u), FeedAll(d, v))
    decreases |u|
  {
    hide Step, Generator;
    if |u| > 0 {
      var a, b := [u[0]] + Zeros(31), [v[0]] + Zeros(31);
      assert [Plus(u[0], v[0])] + Zeros(31) == Add(a, b);
      AddSwap(c, d, a, b);
      StepLinear(Add(c, a), Add(d, b));
      assert Add(u, v)[1..] == Add(u[1..], v[1..]);
      FeedAllLinear(Feed(c, u[0]), Feed(d, v[0]), u[1..], v[1..]);
    }
  }

  lemma {:induction false} FeedAllConcat(c: Register, u: seq<bit>, v: seq<bit>)
    ensures FeedAll(c, u + v) == FeedAll(FeedAll(c, u), v)
    decreases |u|
  {
    hide Feed;
    if |u| == 0 {
      assert u + v == v;
    } else {
      assert (u + v)[1..] == u[1..] + v;
      FeedAllConcat(Feed(c, u[0]), u[1..], v);
    }
  }

  // --- the checksum ---

  /** The register value `c` as an unsigned 32-bit number. */
  function RegisterOf(c: nat): (r: Register) {
    LsbBits(c, 32)
  }

  function CrcOf(data: seq<byte>): (c: nat) {
    LsbAt(Add(FeedAll(Ones(32), MessageBits(data)), Ones(32)), 0, 32)
  }

  /** The checksum is the complement of the remainder of the message times x^32 with its
      first 32 coefficients inverted. */
  lemma {:induction false} CrcIsRemainder(data: seq<byte>)
    ensures exists r: Register ::
      && IsRemainder(Dividend(Ones(32), MessageBits(data)), r)
      && LsbBits(CrcOf(data), 32) == Add(r, Ones(32))
  {
    hide FeedAll, Generator;
    var r := FeedAll(Ones(32), MessageBits(data));
    var q := FeedDivides(Ones(32), MessageBits(data));
    assert IsRemainder(Dividend(Ones(32), MessageBits(data)), r);
    BitsOfValue(Add(r, Ones(32)));
  }

  // --- the loop on 32-bit numbers ---

  const POLYNOMIAL: nat := 0xedb88320
  const ALL_ONES: nat := 0xffffffff

  /** Bitwise exclusive or of two unsigned 32-bit numbers. */
  function Xor(a: nat, b: nat): (c: nat)
    ensures c < Pow2(32)
    ensures RegisterOf(c) == Add(RegisterOf(a), RegisterOf(b))
  {
    BitsOfValue(Add(RegisterOf(a), RegisterOf(b)));
    LsbAt(Add(RegisterOf(a), RegisterOf(b)), 0, 32)
  }

  lemma {:induction false} LsbPad(w: seq<bit>, k: nat, n: nat)
    requires |w| <= n <= |w| + k
    ensures LsbAt(w + Zeros(k), 0, n) == LsbAt(w, 0, |w|)
  {
    if n > |w| {
      LsbPad(w, k, n - 1);
    } else {
      LsbOfWord(w + Zeros(k), 0, w, n);
    }
  }

  /** Halving a number shifts its bits. */
  lemma HalfShifts(c: nat)
    requires c < Pow2(32)
    ensures RegisterOf(c)[0] == c % 2
    ensures RegisterOf(c / 2) == RegisterOf(c)[1..] + [0]
  {
    hide LsbAt, LsbBits;
    var w := RegisterOf(c);
    LsbRoundTrip(c, 32);
    LsbSplit(w, 0, 1, 32);
    OneBit(w, 0);
    assert Pow2(1) == 2;
    assert c == w[0] + 2 * LsbAt(w, 1, 31);
    Halved(w, c / 2);
  }

  lemma {:induction false} Halved(w: Register, half: nat)
    requires half == LsbAt(w, 1, 31)
    ensures half < Pow2(32) && RegisterOf(half) == w[1..] + [0]
  {
    hide LsbAt, LsbBits, Pow2;
    var v := w[1..];
    LsbOfWord(w, 1, v, 31);
    LsbPad(v, 1, 32);
    assert Zeros(1) == [0];
    BitsOfValue(v + [0]);
  }

  /** The bits of a number by repeated halving. */
  function HalfBits(v: nat, n: nat): (t: seq<bit>) {
    if n == 0 then [] else [v % 2] + HalfBits(v / 2, n - 1)
  }

  lemma {:induction false} HalfBitsValue(v: nat, n: nat)
    requires v < Pow2(n)
    ensures |HalfBits(v, n)| == n && LsbAt(HalfBits(v, n), 0, n) == v
  {
    if n > 0 {
      HalfBitsValue(v / 2, n - 1);
      LsbCons(v % 2, HalfBits(v / 2, n - 1), n - 1);
    }
  }

  lemma PolynomialHighHalf()
    ensures HalfBits(0xedb8, 16) == [0, 0, 0, 1, 1, 1, 0, 1, 1, 0, 1, 1, 0, 1, 1, 1]
  {
    hide HalfBits;
    HalfBitsEnd(0);
    HalfBitsNibble(0xe, 4);
    HalfBitsNibble(0xed, 8);
    assert HalfBits(0xed, 8) == [1, 0, 1, 1, 0, 1, 1, 1];
    HalfBitsNibble(0xedb, 12);
    HalfBitsNibble(0xedb8, 16);
  }

  lemma PolynomialHalves()
    ensures HalfBits(0xedb88320, 32) == [0, 0, 0, 0, 0, 1, 0, 0, 1, 1, 0, 0, 0, 0, 0, 1]
                                      + [0, 0, 0, 1, 1, 1, 0, 1, 1, 0, 1, 1, 0, 1, 1, 1]
  {
    hide HalfBits;
    PolynomialHighHalf();
    var high := HalfBits(0xedb8, 16);
    HalfBitsNibble(0xedb88, 20);
    HalfBitsNibble(0xedb883, 24);
    assert HalfBits(0xedb883, 24) == [1, 1, 0, 0, 0, 0, 0, 1] + high;
    HalfBitsNibble(0xedb8832, 28);
    HalfBitsNibble(0xedb88320, 32);
    assert HalfBits(0xedb88320, 32) == [0, 0, 0, 0, 0, 1, 0, 0, 1, 1, 0, 0, 0, 0, 0, 1] + high;
  }

  lemma {:induction false} HalfBitsEnd(v: nat)
    ensures HalfBits(v, 0) == []
  {
  }

  lemma PolynomialBits()
    ensures RegisterOf(POLYNOMIAL) == Generator()[1..]
  {
    hide LsbAt, LsbBits, HalfBits;
    ThirtyTwoBits();
    HalfBitsValue(0xedb88320, 32);
    BitsOfValue(HalfBits(0xedb88320, 32));
    PolynomialHalves();
  }

  lemma HalfBitsNibble(v: nat, n: nat)
    requires n >= 4
    ensures HalfBits(v, n) == [v % 2, v / 2 % 2, v / 4 % 2, v / 8 % 2] + HalfBits(v / 16, n - 4)
  {
    assert HalfBits(v, n) == [v % 2] + ([v / 2 % 2] + HalfBits(v / 4, n - 2));
    assert HalfBits(v / 4, n - 2) == [v / 4 % 2] + ([v / 8 % 2] + HalfBits(v / 16, n - 4));
  }

  /** One turn of the inner loop. */
  function Turn(c: nat): (d: nat) {
    if c % 2 != 0 then Xor(c / 2, POLYNOMIAL) else c / 2
  }

  lemma TurnSteps(c: nat)
    requires c < Pow2(32)
    ensures Turn(c) < Pow2(32) && RegisterOf(Turn(c)) == Step(RegisterOf(c))
  {
    hide Generator, LsbBits, Xor;
    HalfShifts(c);
    PolynomialBits();
    var shifted := RegisterOf(c)[1..] + [0];
    assert Add(shifted, Zeros(32)) == shifted;
  }

  lemma {:induction false} ByteRegister(v: byte)
    ensures RegisterOf(v) == LsbBits(v, 8) + Zeros(24)
  {
    hide LsbBits, LsbAt;
    assert Pow2(8) == 256;
    LsbRoundTrip(v, 8);
    LsbPad(LsbBits(v, 8), 24, 32);
    BitsOfValue(LsbBits(v, 8) + Zeros(24));
  }

  /** Complementing every bit subtracts from all ones. */
  lemma {:induction false} Complement(w: seq<bit>, n: nat)
    requires n <= |w|
    ensures LsbAt(Add(w, Ones(|w|)), 0, n) == Pow2(n) - 1 - LsbAt(w, 0, n)
  {
    if n > 0 {
      Complement(w, n - 1);
      assert Add(w, Ones(|w|))[n - 1] == 1 - w[n - 1];
    }
  }

  lemma ThirtyTwoBits()
    ensures Pow2(32) == 0x1_0000_0000
  {
    assert Pow2(16) == 65536 by {
      assert Pow2(8) == 256;
      PowSum(8, 8);
    }
    PowSum(16, 16);
  }

  lemma {:induction false} OnesValue(n: nat, k: nat)
    requires k <= n
    ensures LsbAt(Ones(n), 0, k) == Pow2(k) - 1
  {
    if k > 0 {
      OnesValue(n, k - 1);
    }
  }

  lemma InitialRegister()
    ensures RegisterOf(ALL_ONES) == Ones(32)
  {
    ThirtyTwoBits();
    OnesValue(32, 32);
    BitsOfValue(Ones(32));
  }

  method Crc(data: seq<byte>) returns (crc: nat)
    ensures crc == CrcOf(data) && crc <= ALL_ONES
  {
    hide Generator, LsbBits, LsbAt, Step, Turn, Xor, Feed, Add;
    ThirtyTwoBits();
    InitialRegister();
    var c: nat := ALL_ONES;
    assert data[0..] == data;
    for k := 0 to |data|
      invariant c < Pow2(32)
      invariant FeedAll(RegisterOf(c), MessageBits(data[k..])) == FeedAll(Ones(32), MessageBits(data))
    {
      var v := data[k];
      ghost var before := RegisterOf(c);
      c := Xor(c, v);
      ByteRegister(v);
      StepsFeed(before, LsbBits(v, 8));
      ghost var after := FeedAll(before, LsbBits(v, 8));
      for i := 0 to 8
        invariant c < Pow2(32)
        invariant Steps(RegisterOf(c), 8 - i) == after
      {
        TurnSteps(c);
        c := Turn(c);
      }
      FeedAllConcat(before, LsbBits(v, 8), MessageBits(data[k + 1..]));
      assert data[k..][1..] == data[k + 1..];
    }
    assert data[|data|..] == [];
    Complement(RegisterOf(c), 32);
    LsbRoundTrip(c, 32);
    crc := ALL_ONES - c;
  }

  // --- error detection ---

  lemma StepKeepsNonzero(c: Register)
    requires c != Zeros(32)
    ensures Step(c) != Zeros(32)
  {
    hide Generator;
    var d := Step(c);
    if c[0] == 1 {
      GeneratorEnds();
      assert d[31] == 1;
    } else {
      var i :| 0 <= i < 32 && c[i] != 0;
      assert d[i - 1] == Plus((c[1..] + [0])[i - 1], 0) == 1;
    }
  }

  lemma {:induction false} StepsKeepNonzero(c: Register, n: nat)
    requires c != Zeros(32)
    ensures Steps(c, n) != Zeros(32)
    decreases n
  {
    hide Step;
    if n > 0 {
      StepKeepsNonzero(c);
      StepsKeepNonzero(Step(c), n - 1);
    }
  }

  lemma {:induction false} ZerosFeedNothing(n: nat)
    ensures FeedAll(Zeros(32), Zeros(n)) == Zeros(32)
  {
    hide Generator;
    if n > 0 {
      assert Add(Zeros(32), [0] + Zeros(31)) == [0] + Zeros(31);
      StepShifts(Zeros(31));
      assert Zeros(31) + [0] == Zeros(32);
      assert Zeros(n)[1..] == Zeros(n - 1);
      ZerosFeedNothing(n - 1);
    }
  }

  /** A difference of at most 32 bits, anywhere, leaves a nonzero register. */
  lemma {:induction false} BurstSurvives(before: nat, w: seq<bit>, after: nat)
    requires |w| <= 32 && w != Zeros(|w|)
    ensures FeedAll(Zeros(32), Zeros(before) + w + Zeros(after)) != Zeros(32)
  {
    hide FeedAll, Steps, Add;
    var z := Zeros(32);
    FeedAllConcat(z, Zeros(before) + w, Zeros(after));
    FeedAllConcat(z, Zeros(before), w);
    ZerosFeedNothing(before);
    var c := w + Zeros(32 - |w|);
    StepsFeed(z, w);
    AddZero(c);
    NonzeroPrefix(w, 32 - |w|);
    StepsKeepNonzero(c, |w|);
    var d := Steps(c, |w|);
    StepsFeed(d, []);
    FeedZeros(d, after);
    StepsKeepNonzero(d, after);
  }

  lemma AddZero(c: Register)
    ensures Add(Zeros(32), c) == c && Add(c, Zeros(32)) == c
  {
  }

  lemma NonzeroPrefix(w: seq<bit>, n: nat)
    requires w != Zeros(|w|)
    ensures w + Zeros(n) != Zeros(|w| + n)
  {
    var i :| 0 <= i < |w| && w[i] != 0;
    assert (w + Zeros(n))[i] != 0;
  }

  lemma {:induction false} FeedZeros(c: Register, n: nat)
    ensures FeedAll(c, Zeros(n)) == Steps(c, n)
    decreases n
  {
    hide Step, Add;
    if n > 0 {
      assert [0] + Zeros(31) == Zeros(32);
      AddZero(c);
      assert Zeros(n)[1..] == Zeros(n - 1);
      FeedZeros(Step(c), n - 1);
    }
  }

  lemma {:induction false} MessageBitsConcat(a: seq<byte>, b: seq<byte>)
    ensures MessageBits(a + b) == MessageBits(a) + MessageBits(b)
    decreases |a|
  {
    hide LsbBits;
    if |a| == 0 {
      assert a + b == b;
    } else {
      assert (a + b)[1..] == a[1..] + b;
      MessageBitsConcat(a[1..], b);
    }
  }

  lemma {:induction false} MessageBitsInjective(a: seq<byte>, b: seq<byte>)
    requires |a| == |b| && MessageBits(a) == MessageBits(b)
    ensures a == b
    decreases |a|
  {
    hide LsbBits;
    if |a| > 0 {
      assert LsbBits(a[0], 8) == MessageBits(a)[..8] == MessageBits(b)[..8] == LsbBits(b[0], 8);
      assert Pow2(8) == 256;
      LsbRoundTrip(a[0], 8);
      LsbRoundTrip(b[0], 8);
      assert MessageBits(a[1..]) == MessageBits(a)[8..] == MessageBits(b)[8..] == MessageBits(b[1..]);
      MessageBitsInjective(a[1..], b[1..]);
      assert a == [a[0]] + a[1..] && b == [b[0]] + b[1..];
    }
  }

  lemma SelfCancels(u: Poly)
    ensures Add(u, u) == Zeros(|u|)
  {
  }

  lemma AddIsZero(u: Poly, v: Poly)
    requires |u| == |v| && Add(u, v) == Zeros(|u|)
    ensures u == v
  {
    forall i | 0 <= i < |u| ensures u[i] == v[i] {
      assert Add(u, v)[i] == 0;
    }
  }

  /** Two messages of equal length that differ, but only inside a window of at most four
      bytes, never have the same checksum. */
  lemma BurstDetected(head: seq<byte>, a: seq<byte>, b: seq<byte>, tail: seq<byte>)
    requires |a| == |b| <= 4 && a != b
    ensures CrcOf(head + a + tail) != CrcOf(head + b + tail)
  {
    hide FeedAll, LsbAt, Add, MessageBits;
    var m, n := head + a + tail, head + b + tail;
    if CrcOf(m) == CrcOf(n) {
      var r, s := FeedAll(Ones(32), MessageBits(m)), FeedAll(Ones(32), MessageBits(n));
      SameChecksumSameRegister(r, s);
      MessageDifference(head, a, b, tail, m, n);
      var d := Add(MessageBits(a), MessageBits(b));
      if d == Zeros(|d|) {
        AddIsZero(MessageBits(a), MessageBits(b));
        MessageBitsInjective(a, b);
      }
      FeedAllLinear(Ones(32), Ones(32), MessageBits(m), MessageBits(n));
      SelfCancels(Ones(32));
      SelfCancels(r);
      BurstSurvives(8 * |head|, d, 8 * |tail|);
    }
  }

  lemma SameChecksumSameRegister(r: Register, s: Register)
    requires LsbAt(Add(r, Ones(32)), 0, 32) == LsbAt(Add(s, Ones(32)), 0, 32)
    ensures r == s
  {
    hide LsbAt;
    BitsOfValue(Add(r, Ones(32)));
    BitsOfValue(Add(s, Ones(32)));
    AddSwap(r, Ones(32), s, Ones(32));
    SelfCancels(Ones(32));
    SelfCancels(Add(r, Ones(32)));
    assert Add(Add(r, s), Zeros(32)) == Zeros(32);
    assert Add(Add(r, s), Zeros(32)) == Add(r, s);
    AddIsZero(r, s);
  }

  /** The bits of messages that differ in the middle differ in the middle. */
  lemma {:induction false} MessageDifference(head: seq<byte>, a: seq<byte>, b: seq<byte>, tail: seq<byte>,
                                             m: seq<byte>, n: seq<byte>)
    requires |a| == |b| && InThree(m, head, a, tail) && InThree(n, head, b, tail)
    ensures |m| == |n|
    ensures Add(MessageBits(m), MessageBits(n))
         == Zeros(8 * |head|) + Add(MessageBits(a), MessageBits(b)) + Zeros(8 * |tail|)
  {
    hide MessageBits, Add, Zeros, InThree;
    MessageBitsOfThree(m, head, a, tail);
    MessageBitsOfThree(n, head, b, tail);
    Sandwich(MessageBits(head), MessageBits(a), MessageBits(b), MessageBits(tail), MessageBits(m), MessageBits(n));
  }

  lemma Sandwich(h: Poly, u: Poly, v: Poly, t: Poly, x: Poly, y: Poly)
    requires |u| == |v| && InThree(x, h, u, t) && InThree(y, h, v, t)
    ensures |x| == |y| && Add(x, y) == Zeros(|h|) + Add(u, v) + Zeros(|t|)
  {
  }

  predicate InThree<T(==)>(x: seq<T>, h: seq<T>, u: seq<T>, t: seq<T>) {
    x == h + u + t
  }

  lemma {:induction false} MessageBitsOfThree(m: seq<byte>, a: seq<byte>, b: seq<byte>, c: seq<byte>)
    requires InThree(m, a, b, c)
    ensures |m| == |a| + |b| + |c|
    ensures InThree(MessageBits(m), MessageBits(a), MessageBits(b), MessageBits(c))
  {
    hide MessageBits;
    MessageBitsConcat(a + b, c);
    MessageBitsConcat(a, b);
  }
}
