/** The DEFLATE format as RFC 1951 describes it: what a compressor may choose, the bits it
    then writes, and the bytes those choices stand for. Nothing here mentions decoding. */
module DeflateFormat {
  import opened Prelude
  import opened BitStrings
  import opened BitReader
  import opened CanonicalCode

  // Length and distance alphabets, section 3.2.5.
  const LENGTH_BASE: seq<nat> :=
    [3, 4, 5, 6, 7, 8, 9, 10, 11, 13, 15, 17, 19, 23, 27, 31, 35, 43, 51, 59, 67, 83, 99, 115, 131, 163, 195, 227, 258]
  const LENGTH_EXTRA: seq<nat> :=
    [0, 0, 0, 0, 0, 0, 0, 0, 1, 1, 1, 1, 2, 2, 2, 2, 3, 3, 3, 3, 4, 4, 4, 4, 5, 5, 5, 5, 0]
  const DISTANCE_BASE: seq<nat> :=
    [1, 2, 3, 4, 5, 7, 9, 13, 17, 25, 33, 49, 65, 97, 129, 193, 257, 385, 513, 769, 1025, 1537, 2049, 3073,
     4097, 6145, 8193, 12289, 16385, 24577]
  const DISTANCE_EXTRA: seq<nat> :=
    [0, 0, 0, 0, 1, 1, 2, 2, 3, 3, 4, 4, 5, 5, 6, 6, 7, 7, 8, 8, 9, 9, 10, 10, 11, 11, 12, 12, 13, 13]

  lemma AlphabetSizes()
    ensures |LENGTH_BASE| == |LENGTH_EXTRA| == 29 && |DISTANCE_BASE| == |DISTANCE_EXTRA| == 30
    ensures forall i :: 0 <= i < 29 ==> LENGTH_EXTRA[i] <= 5
    ensures forall i :: 0 <= i < 30 ==> DISTANCE_EXTRA[i] <= 13 && DISTANCE_BASE[i] > 0
  {
  }

  // Transmission order of the code length code lengths, section 3.2.7.
  const ORDER: seq<nat> := [16, 17, 18, 0, 8, 7, 9, 6, 10, 5, 11, 4, 12, 3, 13, 2, 14, 1, 15]

  const END_OF_BLOCK: nat := 256

  // --- LZ77 tokens ---

  /** One element of a compressed block: a byte, or a copy whose length and distance are
      given by alphabet indices and extra-bit values. */
  datatype Token =
    | Literal(b: byte)
    | Copy(lengthIndex: nat, lengthExtra: nat, distanceIndex: nat, distanceExtra: nat)
  {
    predicate WellFormed() {
      match this
      case Literal(_) => true
      case Copy(lx, le, dx, de) =>
        && lx < |LENGTH_BASE| && le < Pow2(LENGTH_EXTRA[lx])
        && dx < |DISTANCE_BASE| && de < Pow2(DISTANCE_EXTRA[dx])
    }

    function Length(): (n: nat)
      requires WellFormed()
    {
      if Literal? then 1 else LENGTH_BASE[lengthIndex] + lengthExtra
    }

    function Distance(): (n: nat)
      requires WellFormed() && Copy?
      ensures n > 0
    {
      AlphabetSizes();
      DISTANCE_BASE[distanceIndex] + distanceExtra
    }

    /** Legal after `done` output bytes of at most `limit`: a copy must start inside what
        has been produced and must not run past the limit. */
    predicate LegalAfter(done: nat, limit: nat) {
      && WellFormed()
      && done + Length() <= limit
      && (Copy? ==> Distance() <= done && Distance() <= 32768)
    }
  }

  /** The `k`-th byte of the last `distance` bytes of `out` repeated for ever. */
  function Repeated(out: seq<byte>, distance: nat, k: nat): (b: byte)
    requires 0 < distance <= |out|
  {
    out[|out| - distance + k % distance]
  }

  /** The last `distance` bytes of `out`, repeated to `length` bytes. */
  function Periodic(out: seq<byte>, distance: nat, length: nat): (r: seq<byte>)
    requires 0 < distance <= |out|
    ensures |r| == length
  {
    seq(length, k requires 0 <= k < length => Repeated(out, distance, k))
  }

  /** What a legal token appends to the output. */
  function Expand(out: seq<byte>, t: Token): (r: seq<byte>) {
    match t
    case Literal(b) => out + [b]
    case Copy(_, _, _, _) =>
      if t.WellFormed() && t.Distance() <= |out| then out + Periodic(out, t.Distance(), t.Length()) else out
  }

  function ExpandAll(out: seq<byte>, ts: seq<Token>): (r: seq<byte>)
    decreases |ts|
  {
    if |ts| == 0 then out else ExpandAll(Expand(out, ts[0]), ts[1..])
  }

  predicate LegalTokens(ts: seq<Token>, out: seq<byte>, limit: nat) {
    |ts| > 0 ==> ts[0].LegalAfter(|out|, limit) && LegalTokens(ts[1..], Expand(out, ts[0]), limit)
  }

  /** The symbols a token needs have codewords. */
  predicate Codable(lit: seq<nat>, dist: seq<nat>, t: Token) {
    match t
    case Literal(b) => HasCode(lit, b)
    case Copy(lx, _, dx, _) => HasCode(lit, 257 + lx) && HasCode(dist, dx)
  }

  predicate CodableAll(lit: seq<nat>, dist: seq<nat>, ts: seq<Token>) {
    |ts| > 0 ==> Codable(lit, dist, ts[0]) && CodableAll(lit, dist, ts[1..])
  }

  function TokenBits(lit: seq<nat>, dist: seq<nat>, t: Token): (s: seq<bit>) {
    match t
    case Literal(b) => Word(lit, b)
    case Copy(lx, le, dx, de) =>
      if t.WellFormed() then
        Word(lit, 257 + lx) + (LsbBits(le, LENGTH_EXTRA[lx]) + (Word(dist, dx) + LsbBits(de, DISTANCE_EXTRA[dx])))
      else
        []
  }

  /** The tokens' codewords followed by the end-of-block codeword. */
  function BodyBits(lit: seq<nat>, dist: seq<nat>, ts: seq<Token>): (s: seq<bit>) {
    if |ts| == 0 then Word(lit, END_OF_BLOCK)
    else TokenBits(lit, dist, ts[0]) + BodyBits(lit, dist, ts[1..])
  }

  // --- run-length coded code lengths, section 3.2.7 ---

  /** A code length symbol and the value of its extra bits. */
  datatype LengthOp = LengthOp(symbol: nat, extra: nat)

  function OpExtraBits(symbol: nat): (n: nat) {
    if symbol <= 15 then 0 else if symbol == 16 then 2 else if symbol == 17 then 3 else 7
  }

  /** The code lengths an op appends. */
  function OpLengths(all: seq<nat>, op: LengthOp): (r: seq<nat>)
    ensures |r| > 0
  {
    if op.symbol <= 15 then [op.symbol]
    else if op.symbol == 16 && |all| > 0 then seq(op.extra + 3, _ => all[|all| - 1])
    else if op.symbol == 17 then seq(op.extra + 3, _ => 0)
    else seq(op.extra + 11, _ => 0)
  }

  /** `op` may follow the code lengths `all` on the way to `total` of them. */
  predicate LegalOp(cl: seq<nat>, op: LengthOp, all: seq<nat>, total: nat) {
    && HasCode(cl, op.symbol) && op.symbol <= 18
    && op.extra < Pow2(OpExtraBits(op.symbol))
    && (op.symbol == 16 ==> |all| > 0)
    && |all| + |OpLengths(all, op)| <= total
  }

  predicate LegalOps(cl: seq<nat>, ops: seq<LengthOp>, all: seq<nat>, total: nat) {
    if |ops| == 0 then |all| == total
    else LegalOp(cl, ops[0], all, total) && LegalOps(cl, ops[1..], all + OpLengths(all, ops[0]), total)
  }

  /** The code lengths the ops spell after `all`. */
  function OpsLengths(ops: seq<LengthOp>, all: seq<nat>): (r: seq<nat>)
    decreases |ops|
  {
    if |ops| == 0 then all else OpsLengths(ops[1..], all + OpLengths(all, ops[0]))
  }

  function OpBits(cl: seq<nat>, op: LengthOp): (s: seq<bit>) {
    Word(cl, op.symbol) + LsbBits(op.extra, OpExtraBits(op.symbol))
  }

  function OpsBits(cl: seq<nat>, ops: seq<LengthOp>): (s: seq<bit>) {
    if |ops| == 0 then [] else OpBits(cl, ops[0]) + OpsBits(cl, ops[1..])
  }

  // --- dynamic block headers ---

  /** Choices behind a dynamic block's tables: the HLIT and HDIST fields, the code length
      code lengths in transmission order, and the run-length ops. */
  datatype Header = Header(hlit: nat, hdist: nat, clc: seq<nat>, ops: seq<LengthOp>) {
    function Literals(): (n: nat) {
      hlit + 257
    }

    function Distances(): (n: nat) {
      hdist + 1
    }
  }

  /** The code length code: `clc[i]` is the length of symbol ORDER[i], absent ones are 0. */
  function Scatter(clc: seq<nat>): (cl: seq<nat>)
    ensures |cl| == 19
  {
    if |clc| == 0 then seq(19, _ => 0)
    else
      var cl := Scatter(clc[..|clc| - 1]);
      assert forall i :: 0 <= i < 19 ==> ORDER[i] < 19;
      if |clc| <= 19 then cl[ORDER[|clc| - 1] := clc[|clc| - 1]] else cl
  }

  function ClcBits(clc: seq<nat>): (s: seq<bit>) {
    if |clc| == 0 then [] else LsbBits(clc[0], 3) + ClcBits(clc[1..])
  }

  /** All code lengths a header spells: the literal alphabet's, then the distance alphabet's. */
  function HeaderLengths(h: Header): (all: seq<nat>) {
    OpsLengths(h.ops, [])
  }

  /** The literal and distance tables a header spells. */
  function HeaderTables(h: Header): (t: (seq<nat>, seq<nat>)) {
    var all := HeaderLengths(h);
    if h.Literals() <= |all| then (all[..h.Literals()], all[h.Literals()..]) else ([], [])
  }

  /** Tables a block body can be read with: the end-of-block symbol has a codeword; the
      distance code may be empty, and either code may be a single one-bit codeword. */
  predicate LegalTables(lit: seq<nat>, dist: seq<nat>) {
    && HasCode(lit, END_OF_BLOCK)
    && Admissible(lit, false, true) && Admissible(dist, true, true)
  }

  predicate LegalHeader(h: Header) {
    && h.Literals() <= 286 && h.Distances() <= 32 && 4 <= |h.clc| <= 19
    && (forall i :: 0 <= i < |h.clc| ==> h.clc[i] < 8)
    && Admissible(Scatter(h.clc), false, false)
    && LegalOps(Scatter(h.clc), h.ops, [], h.Literals() + h.Distances())
    && LegalTables(HeaderTables(h).0, HeaderTables(h).1)
  }

  function HeaderBits(h: Header): (s: seq<bit>) {
    LsbBits(h.hlit, 5) + (LsbBits(h.hdist, 5) + (LsbBits(if |h.clc| >= 4 then |h.clc| - 4 else 0, 4)
      + (ClcBits(h.clc) + OpsBits(Scatter(h.clc), h.ops))))
  }

  // --- fixed tables, section 3.2.6 ---

  function FixedLiterals(): (lit: seq<nat>)
    ensures |lit| == 288
  {
    seq(288, i => if i <= 143 then 8 else if i <= 255 then 9 else if i <= 279 then 7 else 8)
  }

  function FixedDistances(): (dist: seq<nat>)
    ensures |dist| == 32
  {
    seq(32, _ => 5)
  }

  /** Both fixed codes are complete. */
  lemma FixedTablesComplete()
    ensures Complete(FixedLiterals()) && Complete(FixedDistances())
    ensures LegalTables(FixedLiterals(), FixedDistances())
  {
    var a := seq(144, _ => 8);
    var b := a + seq(112, _ => 9);
    var c := b + seq(24, _ => 7);
    KraftOfRun([], 8, 144);
    assert [] + seq(144, _ => 8) == a;
    KraftOfRun(a, 9, 112);
    KraftOfRun(b, 7, 24);
    KraftOfRun(c, 8, 8);
    assert FixedLiterals() == c + seq(8, _ => 8);
    KraftOfRun([], 5, 32);
    assert FixedDistances() == [] + seq(32, _ => 5);
    assert Pow2(6) == 64 && Pow2(7) == 128 && Pow2(8) == 256 && Pow2(10) == 1024 && Pow2(15) == 0x8000;
  }

  lemma {:induction false} KraftOfRun(lengths: seq<nat>, l: nat, n: nat)
    requires Bounded(lengths) && 0 < l <= MAX_LENGTH
    ensures Bounded(lengths + seq(n, _ => l))
    ensures KraftSum(lengths + seq(n, _ => l)) == KraftSum(lengths) + n * Pow2(MAX_LENGTH - l)
  {
    if n == 0 {
      assert lengths + seq(0, _ => l) == lengths;
    } else {
      KraftOfRun(lengths, l, n - 1);
      KraftSnoc(lengths + seq(n - 1, _ => l), lengths + seq(n, _ => l), l);
      Distribute(n, Pow2(MAX_LENGTH - l));
    }
  }

  lemma Distribute(n: nat, p: nat)
    requires n > 0
    ensures (n - 1) * p + p == n * p
  {
  }

  lemma KraftSnoc(lengths: seq<nat>, more: seq<nat>, l: nat)
    requires Bounded(lengths) && 0 < l <= MAX_LENGTH
    requires |more| == |lengths| + 1 && more[..|lengths|] == lengths && more[|lengths|] == l
    ensures Bounded(more) && KraftSum(more) == KraftSum(lengths) + Pow2(MAX_LENGTH - l)
  {
  }

  // --- blocks, section 3.2.3 ---

  datatype Block =
    | Stored(padding: seq<bit>, data: seq<byte>)
    | Fixed(tokens: seq<Token>)
    | Dynamic(header: Header, tokens: seq<Token>)
  {
    /** Legal as the block whose first bit is bit `pos` of the stream, when `out` has been
        produced so far. */
    predicate Legal(pos: nat, out: seq<byte>, limit: nat) {
      match this
      case Stored(padding, data) =>
        |padding| == AlignSkip(pos + 3) && |data| <= 65535 && |out| + |data| <= limit
      case Fixed(ts) =>
        CodableAll(FixedLiterals(), FixedDistances(), ts) && LegalTokens(ts, out, limit)
      case Dynamic(h, ts) =>
        LegalHeader(h) && CodableAll(HeaderTables(h).0, HeaderTables(h).1, ts) && LegalTokens(ts, out, limit)
    }

    function Output(out: seq<byte>): (r: seq<byte>) {
      if Stored? then out + data else ExpandAll(out, tokens)
    }

    /** Everything after the three header bits. */
    function PayloadBits(): (s: seq<bit>) {
      match this
      case Stored(padding, data) => padding + StoredBits(data)
      case Fixed(ts) => BodyBits(FixedLiterals(), FixedDistances(), ts)
      case Dynamic(h, ts) => HeaderBits(h) + BodyBits(HeaderTables(h).0, HeaderTables(h).1, ts)
    }

    function TypeCode(): (t: nat) {
      if Stored? then 0 else if Fixed? then 1 else 2
    }

    /** BFINAL, BTYPE, payload. */
    function Bits(final: bool): (s: seq<bit>) {
      LsbBits(if final then 1 else 0, 1) + (LsbBits(TypeCode(), 2) + PayloadBits())
    }
  }

  function DataBits(data: seq<byte>): (s: seq<bit>) {
    if |data| == 0 then [] else LsbBits(data[0], 8) + DataBits(data[1..])
  }

  /** LEN, its complement NLEN, and the bytes (section 3.2.4). */
  function StoredBits(data: seq<byte>): (s: seq<bit>) {
    LsbBits(|data|, 16) + (LsbBits(if |data| <= 65535 then 65535 - |data| else 0, 16) + DataBits(data))
  }

  /** A legal run of blocks starting at bit `pos`. */
  predicate LegalBlocks(bs: seq<Block>, pos: nat, out: seq<byte>, limit: nat)
    decreases |bs|
  {
    && |bs| > 0
    && bs[0].Legal(pos, out, limit)
    && (|bs| > 1 ==> LegalBlocks(bs[1..], pos + |bs[0].Bits(false)|, bs[0].Output(out), limit))
  }

  /** The stream of a legal run of blocks; only the last one is marked final. */
  function BlocksBits(bs: seq<Block>): (s: seq<bit>) {
    if |bs| == 0 then [] else bs[0].Bits(|bs| == 1) + BlocksBits(bs[1..])
  }

  function BlocksOutput(bs: seq<Block>, out: seq<byte>): (r: seq<byte>)
    decreases |bs|
  {
    if |bs| == 0 then out else BlocksOutput(bs[1..], bs[0].Output(out))
  }
}
