/** Known streams, byte for byte: a stored, a fixed and a dynamic block and what they stand
    for. They fix what the two directions of the format could otherwise only agree on. */
module DeflateExamples {
  import opened Prelude
  import opened BitStrings
  import opened BitReader
  import opened CanonicalCode
  import opened DeflateFormat
  import opened DeflateFacts
  import opened Inflater

  // --- where the transmitted code lengths go ---

  function Sent(clc: seq<nat>, i: nat): (l: nat) {
    if i < |clc| then clc[i] else 0
  }

  lemma {:induction false} ScatterAt(clc: seq<nat>, i: nat)
    requires |clc| <= 19 && i < 19
    ensures ORDER[i] < 19 && Scatter(clc)[ORDER[i]] == Sent(clc, i)
  {
    hide ORDER;
    OrderIsPermutation();
    if |clc| > 0 {
      var n := |clc| - 1;
      ScatterAt(clc[..n], i);
      assert Scatter(clc) == Scatter(clc[..n])[ORDER[n] := clc[n]];
    }
  }

  /** The three run symbols come first, then 0, then 8 and 7, 9 and 6, and so on outwards
      (section 3.2.7); symbols whose lengths are not sent have none. */
  lemma {:induction false} LengthsSentInOrder(clc: seq<nat>)
    requires |clc| <= 19
    ensures var cl := Scatter(clc);
      && cl[16] == Sent(clc, 0) && cl[17] == Sent(clc, 1) && cl[18] == Sent(clc, 2) && cl[0] == Sent(clc, 3)
      && (forall i :: 8 <= i < 16 ==> cl[i] == Sent(clc, 4 + 2 * (i - 8)))
      && (forall i :: 1 <= i < 8 ==> cl[i] == Sent(clc, 5 + 2 * (7 - i)))
  {
    hide Scatter, Sent;
    forall i: nat | i < 19 ensures ORDER[i] < 19 && Scatter(clc)[ORDER[i]] == Sent(clc, i) {
      ScatterAt(clc, i);
    }
    assert ORDER[0] == 16 && ORDER[1] == 17 && ORDER[2] == 18 && ORDER[3] == 0;
    forall i | 8 <= i < 16 ensures Scatter(clc)[i] == Sent(clc, 4 + 2 * (i - 8)) {
      assert ORDER[4 + 2 * (i - 8)] == i;
    }
    forall i | 1 <= i < 8 ensures Scatter(clc)[i] == Sent(clc, 5 + 2 * (7 - i)) {
      assert ORDER[5 + 2 * (7 - i)] == i;
    }
  }

  // --- what a header may spell ---

  /** The code length code is complete. The two codes of the block are complete or a single
      one-bit codeword, and there may be no distances at all; at most 286 and 32 symbols, one of
      them for the end of the block. */
  lemma HeaderCodes(h: Header)
    requires LegalHeader(h)
    ensures var (lit, dist) := HeaderTables(h);
      && 257 <= |lit| <= 286 && 1 <= |dist| <= 32 && lit[256] > 0
      && KraftIs(Scatter(h.clc), 32768)
      && (KraftIs(lit, 32768) || OneShortCode(lit))
      && (KraftIs(dist, 32768) || OneShortCode(dist) || forall i :: 0 <= i < |dist| ==> dist[i] == 0)
  {
    hide Scatter, KraftSum, Bounded;
    assert Pow2(15) == 32768;
    TableSizes(h);
  }

  lemma {:induction false} TableSizes(h: Header)
    requires LegalHeader(h)
    ensures |HeaderTables(h).0| == h.hlit + 257 && |HeaderTables(h).1| == h.hdist + 1
  {
    hide Scatter, Admissible, LegalOp, OpLengths;
    OpsFill(Scatter(h.clc), h.ops, [], h.Literals() + h.Distances());
  }

  lemma {:induction false} OpsFill(cl: seq<nat>, ops: seq<LengthOp>, all: seq<nat>, total: nat)
    requires LegalOps(cl, ops, all, total)
    ensures |OpsLengths(ops, all)| == total
    decreases |ops|
  {
    hide LegalOp, OpLengths;
    if |ops| > 0 {
      OpsFill(cl, ops[1..], all + OpLengths(all, ops[0]), total);
    }
  }

  predicate KraftIs(lengths: seq<nat>, k: nat) {
    Bounded(lengths) && KraftSum(lengths) == k
  }

  predicate OneShortCode(lengths: seq<nat>) {
    exists i :: 0 <= i < |lengths| && lengths[i] == 1 && forall j :: 0 <= j < |lengths| && j != i ==> lengths[j] == 0
  }

  // --- the alphabets ---

  /** The lengths of section 3.2.5: four ranges to each number of extra bits, each starting
      where the one before it ends; 258 has its own symbol. */
  lemma LengthsAsTabulated(i: nat)
    requires i < 29
    ensures LENGTH_EXTRA[i] == if i < 8 || i == 28 then 0 else i / 4 - 1
    ensures LENGTH_BASE[i] == if i == 0 then 3 else if i == 28 then 258
                              else LENGTH_BASE[i - 1] + Pow2(LENGTH_EXTRA[i - 1])
  {
    hide Pow2;
    LengthRanges();
  }

  /** The distances: two ranges to each number of extra bits. */
  lemma DistancesAsTabulated(i: nat)
    requires i < 30
    ensures DISTANCE_EXTRA[i] == if i < 4 then 0 else i / 2 - 1
    ensures DISTANCE_BASE[i] == if i == 0 then 1 else DISTANCE_BASE[i - 1] + Pow2(DISTANCE_EXTRA[i - 1])
  {
    hide Pow2;
    DistanceRanges();
  }

  // --- bits of bytes ---

  lemma {:induction false} BitOfByte(bytes: seq<byte>, i: nat, k: nat)
    requires i < |bytes| && k < 8
    ensures StreamBits(bytes)[8 * i + k] == bytes[i] / Pow2(k) % 2
  {
    assert (8 * i + k) / 8 == i && (8 * i + k) % 8 == k;
  }

  lemma ByteBits(bytes: seq<byte>, i: nat)
    requires i < |bytes|
    ensures var s, v, p := StreamBits(bytes), bytes[i], 8 * i;
      && s[p] == v % 2 && s[p + 1] == v / 2 % 2 && s[p + 2] == v / 4 % 2 && s[p + 3] == v / 8 % 2
      && s[p + 4] == v / 16 % 2 && s[p + 5] == v / 32 % 2 && s[p + 6] == v / 64 % 2 && s[p + 7] == v / 128 % 2
  {
    assert Pow2(0) == 1 && Pow2(1) == 2 && Pow2(2) == 4 && Pow2(3) == 8;
    assert Pow2(4) == 16 && Pow2(5) == 32 && Pow2(6) == 64 && Pow2(7) == 128;
    hide Pow2, StreamBits;
    BitOfByte(bytes, i, 0);
    BitOfByte(bytes, i, 1);
    BitOfByte(bytes, i, 2);
    BitOfByte(bytes, i, 3);
    BitOfByte(bytes, i, 4);
    BitOfByte(bytes, i, 5);
    BitOfByte(bytes, i, 6);
    BitOfByte(bytes, i, 7);
  }

  lemma AtJoin(s: seq<bit>, pos: nat, v: seq<bit>, w: seq<bit>)
    requires At(s, pos, v) && At(s, pos + |v|, w)
    ensures At(s, pos, v + w)
  {
    AtConcat(s, pos, v, w);
  }

  lemma {:induction false} LsbAtField(s: seq<bit>, pos: nat, n: nat, v: nat)
    requires pos + n <= |s| && LsbAt(s, pos, n) == v
    ensures At(s, pos, LsbBits(v, n))
  {
    LsbBitsOfValue(s, pos, n);
  }

  /** A two-bit codeword. */
  lemma {:induction false} TwoBitWord(s: seq<bit>, pos: nat, lengths: seq<nat>, sym: nat, c: nat)
    requires HasCode(lengths, sym) && lengths[sym] == 2 && Code(lengths, sym) == c < 4
    requires pos + 2 <= |s| && s[pos] == c / 2 && s[pos + 1] == c % 2
    ensures At(s, pos, Word(lengths, sym)) && |Word(lengths, sym)| == 2
  {
    hide Code;
    assert MsbBits(c, 2) == [c / 2, c % 2] by {
      assert MsbBits(c / 2 / 2, 0) == [];
      assert MsbBits(c / 2, 1) == [c / 2];
    }
  }

  // --- codes in which every codeword has two bits ---

  predicate TwoBit(lengths: seq<nat>) {
    forall i :: 0 <= i < |lengths| ==> lengths[i] == 0 || lengths[i] == 2
  }

  lemma {:induction false} TwoBitKraft(lengths: seq<nat>, k: nat)
    requires TwoBit(lengths) && k <= |lengths|
    ensures Bounded(lengths[..k]) && KraftSum(lengths[..k]) == 8192 * CountUpTo(lengths, k, 2)
    ensures CountUpTo(lengths, k, 1) == 0
  {
    assert Pow2(13) == 8192;
    if k > 0 {
      TwoBitKraft(lengths, k - 1);
      assert lengths[..k][..k - 1] == lengths[..k - 1] && lengths[..k][k - 1] == lengths[k - 1];
    }
  }

  /** Such a code is complete with four codewords, numbered in the order of their symbols. */
  lemma {:induction false} TwoBitCode(lengths: seq<nat>)
    requires TwoBit(lengths) && CountUpTo(lengths, |lengths|, 2) == 4
    ensures Complete(lengths)
    ensures forall sym: nat :: HasCode(lengths, sym) ==> Code(lengths, sym) == CountUpTo(lengths, sym, 2)
  {
    TwoBitKraft(lengths, |lengths|);
    assert lengths[..|lengths|] == lengths;
    assert Pow2(15) == 32768;
    assert First(lengths, 0) == 0 && Count(lengths, 0) == 0;
    assert First(lengths, 1) == 0 && Count(lengths, 1) == 0;
    assert First(lengths, 2) == 0;
  }

  lemma {:induction false} NoneBetween(lengths: seq<nat>, i: nat, k: nat)
    requires i <= k <= |lengths| && forall j :: i <= j < k ==> lengths[j] == 0
    ensures CountUpTo(lengths, k, 2) == CountUpTo(lengths, i, 2)
  {
    if i < k {
      NoneBetween(lengths, i, k - 1);
    }
  }

  // --- a dynamic block ---

  /** Fourteen bytes that spell one dynamic block: the literals 3 and 4, then a copy of three
      bytes from two back. */
  const DYNAMIC: seq<byte> := [13, 131, 37, 1, 0, 0, 0, 128, 2, 252, 223, 12, 8, 110]

  /** Code length symbols 2, 16, 17 and 18 have codewords of two bits. */
  const CLC: seq<nat> := [2, 2, 2, 0, 0, 0, 0, 0, 0, 0, 0, 0, 0, 0, 0, 2]

  /** Three zeros, two twos, 138 and 113 zeros, three twos, and the last length three times more. */
  const OPS: seq<LengthOp> :=
    [LengthOp(17, 0), LengthOp(2, 0), LengthOp(2, 0), LengthOp(18, 127), LengthOp(18, 102), LengthOp(2, 0),
     LengthOp(2, 0), LengthOp(2, 0), LengthOp(16, 0)]

  const TOKENS: seq<Token> := [Literal(3), Literal(4), Copy(0, 0, 1, 0)]

  function KnownHeader(): (h: Header) {
    Header(1, 3, CLC, OPS)
  }

  function KnownBlock(): (b: Block) {
    Dynamic(KnownHeader(), TOKENS)
  }

  /** The code length code. */
  function KnownCl(): (cl: seq<nat>)
    ensures |cl| == 19
  {
    seq(19, i => if i == 2 || i == 16 || i == 17 || i == 18 then 2 else 0)
  }

  /** All 262 code lengths: of the literals 3 and 4, of symbols 256 and 257, and of four distances. */
  function KnownLengths(): (all: seq<nat>)
    ensures |all| == 262
  {
    seq(262, i => if i == 3 || i == 4 || i >= 256 then 2 else 0)
  }

  lemma KnownScatter()
    ensures Scatter(CLC) == KnownCl()
  {
    hide Scatter;
    LengthsSentInOrder(CLC);
    var cl := Scatter(CLC);
    forall i | 0 <= i < 19 ensures cl[i] == KnownCl()[i] {
      if 8 <= i < 16 {
        assert cl[i] == Sent(CLC, 4 + 2 * (i - 8));
      } else if 1 <= i < 8 {
        assert cl[i] == Sent(CLC, 5 + 2 * (7 - i));
      }
    }
  }

  lemma KnownClCodes()
    ensures var cl := KnownCl();
      && Complete(cl) && HasCode(cl, 2) && HasCode(cl, 16) && HasCode(cl, 17) && HasCode(cl, 18)
      && Code(cl, 2) == 0 && Code(cl, 16) == 1 && Code(cl, 17) == 2 && Code(cl, 18) == 3
  {
    hide KraftSum, Bounded, Code;
    var cl := KnownCl();
    assert CountUpTo(cl, 0, 2) == 0;
    NoneBetween(cl, 0, 2);
    assert CountUpTo(cl, 3, 2) == 1;
    NoneBetween(cl, 3, 16);
    assert CountUpTo(cl, 17, 2) == 2;
    assert CountUpTo(cl, 18, 2) == 3;
    assert CountUpTo(cl, 19, 2) == 4;
    TwoBitCode(cl);
  }

  lemma KnownLitCodes()
    ensures var lit := KnownLengths()[..258];
      && Complete(lit) && HasCode(lit, 3) && HasCode(lit, 4) && HasCode(lit, 256) && HasCode(lit, 257)
      && Code(lit, 3) == 0 && Code(lit, 4) == 1 && Code(lit, 256) == 2 && Code(lit, 257) == 3
  {
    hide KraftSum, Bounded, Code;
    var lit := KnownLengths()[..258];
    assert CountUpTo(lit, 0, 2) == 0;
    NoneBetween(lit, 0, 3);
    assert CountUpTo(lit, 4, 2) == 1;
    assert CountUpTo(lit, 5, 2) == 2;
    NoneBetween(lit, 5, 256);
    assert CountUpTo(lit, 257, 2) == 3;
    assert CountUpTo(lit, 258, 2) == 4;
    TwoBitCode(lit);
  }

  lemma KnownDistCodes()
    ensures var dist := KnownLengths()[258..];
      && |dist| == 4 && Complete(dist) && HasCode(dist, 1) && Code(dist, 1) == 1 && dist[1] == 2
  {
    hide KraftSum, Bounded, Code;
    var dist := KnownLengths()[258..];
    assert CountUpTo(dist, 0, 2) == 0;
    assert CountUpTo(dist, 1, 2) == 1;
    assert CountUpTo(dist, 2, 2) == 2;
    assert CountUpTo(dist, 3, 2) == 3;
    assert CountUpTo(dist, 4, 2) == 4;
    TwoBitCode(dist);
  }

  // --- its header ---

  /** One op spells the next code lengths. */
  predicate Spells(i: nat, from: nat, to: nat) {
    && i < |OPS| && from < to <= 262
    && LegalOp(KnownCl(), OPS[i], KnownLengths()[..from], 262)
    && OpLengths(KnownLengths()[..from], OPS[i]) == KnownLengths()[from..to]
  }

  lemma {:induction false} OneSpells(i: nat, from: nat, to: nat)
    requires i < |OPS| && from < to <= 262
    requires var op := OPS[i];
      && (op == LengthOp(2, 0) || op == LengthOp(16, 0) || op == LengthOp(17, 0) || op.symbol == 18)
      && op.extra < 128
      && to == from + (if op.symbol == 2 then 1 else if op.symbol == 18 then op.extra + 11 else 3)
    requires forall j :: from <= j < to ==> KnownLengths()[j] == if OPS[i].symbol <= 16 then 2 else 0
    requires OPS[i].symbol == 16 ==> from > 0 && KnownLengths()[from - 1] == 2
    ensures Spells(i, from, to)
  {
    hide OPS, KnownLengths, Code, Complete;
    KnownClCodes();
    assert Pow2(0) == 1 && Pow2(2) == 4 && Pow2(3) == 8 && Pow2(7) == 128;
    var all, op := KnownLengths(), OPS[i];
    var part := all[..from];
    assert op.symbol == 16 ==> part[|part| - 1] == all[from - 1];
    assert OpLengths(part, op) == all[from..to];
  }

  lemma {:induction false} SpellsOn(i: nat, from: nat, to: nat)
    requires Spells(i, from, to) && LegalOps(KnownCl(), OPS[i + 1..], KnownLengths()[..to], 262)
    requires OpsLengths(OPS[i + 1..], KnownLengths()[..to]) == KnownLengths()
    ensures LegalOps(KnownCl(), OPS[i..], KnownLengths()[..from], 262)
    ensures OpsLengths(OPS[i..], KnownLengths()[..from]) == KnownLengths()
  {
    hide LegalOp, OpLengths, KnownLengths, KnownCl;
    assert OPS[i..][1..] == OPS[i + 1..] && OPS[i..][0] == OPS[i];
    assert KnownLengths()[..from] + KnownLengths()[from..to] == KnownLengths()[..to];
  }

  lemma {:induction false} KnownSpells()
    ensures Spells(0, 0, 3) && Spells(1, 3, 4) && Spells(2, 4, 5) && Spells(3, 5, 143) && Spells(4, 143, 256)
    ensures Spells(5, 256, 257) && Spells(6, 257, 258) && Spells(7, 258, 259) && Spells(8, 259, 262)
  {
    hide Spells;
    OneSpells(0, 0, 3);
    OneSpells(1, 3, 4);
    OneSpells(2, 4, 5);
    OneSpells(3, 5, 143);
    OneSpells(4, 143, 256);
    OneSpells(5, 256, 257);
    OneSpells(6, 257, 258);
    OneSpells(7, 258, 259);
    OneSpells(8, 259, 262);
  }

  lemma {:induction false} KnownOps()
    ensures LegalOps(KnownCl(), OPS, [], 262) && OpsLengths(OPS, []) == KnownLengths()
  {
    hide Spells, LegalOps, OpsLengths, KnownLengths, KnownCl;
    KnownSpells();
    AllSpelled();
    SpellsOn(8, 259, 262);
    SpellsOn(7, 258, 259);
    SpellsOn(6, 257, 258);
    SpellsOn(5, 256, 257);
    SpellsOn(4, 143, 256);
    SpellsOn(3, 5, 143);
    SpellsOn(2, 4, 5);
    SpellsOn(1, 3, 4);
    SpellsOn(0, 0, 3);
    assert OPS[0..] == OPS && KnownLengths()[..0] == [];
  }

  lemma AllSpelled()
    ensures LegalOps(KnownCl(), OPS[9..], KnownLengths()[..262], 262)
    ensures OpsLengths(OPS[9..], KnownLengths()[..262]) == KnownLengths()
  {
    assert OPS[9..] == [] && KnownLengths()[..262] == KnownLengths();
  }

  lemma KnownHeaderLegal()
    ensures LegalHeader(KnownHeader())
    ensures HeaderTables(KnownHeader()) == (KnownLengths()[..258], KnownLengths()[258..])
    ensures Scatter(KnownHeader().clc) == KnownCl()
  {
    hide Scatter, OPS, OpsLengths, LegalOps, KraftSum, Code, KnownLengths, KnownCl;
    KnownScatter();
    KnownClCodes();
    KnownLitCodes();
    KnownDistCodes();
    KnownOps();
  }

  // --- its tokens ---

  lemma {:induction false} KnownTokens()
    ensures CodableAll(KnownLengths()[..258], KnownLengths()[258..], TOKENS)
    ensures LegalTokens(TOKENS, [], 5) && ExpandAll([], TOKENS) == [3, 4, 3, 4, 3]
  {
    hide Complete, Code, KnownLengths;
    KnownLitCodes();
    KnownDistCodes();
    assert Pow2(0) == 1;
    var copy := Copy(0, 0, 1, 0);
    assert copy.WellFormed() && copy.Length() == 3 && copy.Distance() == 2;
    assert TOKENS[1..] == [Literal(4), copy] && TOKENS[1..][1..] == [copy] && [copy][1..] == [];
    assert Expand([3, 4], copy) == [3, 4] + Periodic([3, 4], 2, 3);
    assert Periodic([3, 4], 2, 3) == [3, 4, 3];
    assert Expand([], Literal(3)) == [3] && Expand([3], Literal(4)) == [3, 4];
  }

  // --- its bits ---

  lemma FirstBits()
    ensures var s := StreamBits(DYNAMIC);
      && s[0] == 1 && s[1] == 0 && s[2] == 1 && s[3] == 1 && s[4] == 0 && s[5] == 0 && s[6] == 0 && s[7] == 0
      && s[8] == 1 && s[9] == 1 && s[10] == 0 && s[11] == 0 && s[12] == 0 && s[13] == 0 && s[14] == 0 && s[15] == 1
      && s[16] == 1 && s[17] == 0 && s[18] == 1 && s[19] == 0 && s[20] == 0 && s[21] == 1 && s[22] == 0 && s[23] == 0
  {
    hide StreamBits;
    ByteBits(DYNAMIC, 0);
    ByteBits(DYNAMIC, 1);
    ByteBits(DYNAMIC, 2);
  }

  lemma LengthBits()
    ensures var s := StreamBits(DYNAMIC);
      && s[16] == 1 && s[17] == 0 && s[18] == 1 && s[19] == 0 && s[20] == 0 && s[21] == 1 && s[22] == 0 && s[23] == 0
      && s[24] == 1 && s[25] == 0 && s[26] == 0 && s[27] == 0 && s[28] == 0 && s[29] == 0 && s[30] == 0 && s[31] == 0
      && s[32] == 0 && s[33] == 0 && s[34] == 0 && s[35] == 0 && s[36] == 0 && s[37] == 0 && s[38] == 0 && s[39] == 0
      && s[40] == 0 && s[41] == 0 && s[42] == 0 && s[43] == 0 && s[44] == 0 && s[45] == 0 && s[46] == 0 && s[47] == 0
      && s[48] == 0 && s[49] == 0 && s[50] == 0 && s[51] == 0 && s[52] == 0 && s[53] == 0 && s[54] == 0 && s[55] == 0
      && s[56] == 0 && s[57] == 0 && s[58] == 0 && s[59] == 0 && s[60] == 0 && s[61] == 0 && s[62] == 0 && s[63] == 1
      && s[64] == 0 && s[65] == 1 && s[66] == 0 && s[67] == 0 && s[68] == 0 && s[69] == 0 && s[70] == 0 && s[71] == 0
  {
    hide StreamBits;
    ByteBits(DYNAMIC, 2);
    ByteBits(DYNAMIC, 3);
    ByteBits(DYNAMIC, 4);
    ByteBits(DYNAMIC, 5);
    ByteBits(DYNAMIC, 6);
    ByteBits(DYNAMIC, 7);
    ByteBits(DYNAMIC, 8);
  }

  lemma OpBitsStand()
    ensures var s := StreamBits(DYNAMIC);
      && s[64] == 0 && s[65] == 1 && s[66] == 0 && s[67] == 0 && s[68] == 0 && s[69] == 0 && s[70] == 0 && s[71] == 0
      && s[72] == 0 && s[73] == 0 && s[74] == 1 && s[75] == 1 && s[76] == 1 && s[77] == 1 && s[78] == 1 && s[79] == 1
      && s[80] == 1 && s[81] == 1 && s[82] == 1 && s[83] == 1 && s[84] == 1 && s[85] == 0 && s[86] == 1 && s[87] == 1
      && s[88] == 0 && s[89] == 0 && s[90] == 1 && s[91] == 1 && s[92] == 0 && s[93] == 0 && s[94] == 0 && s[95] == 0
      && s[96] == 0 && s[97] == 0 && s[98] == 0 && s[99] == 1 && s[100] == 0
      && s[101] == 0 && s[102] == 0 && s[103] == 0
  {
    hide StreamBits;
    ByteBits(DYNAMIC, 8);
    ByteBits(DYNAMIC, 9);
    ByteBits(DYNAMIC, 10);
    ByteBits(DYNAMIC, 11);
    ByteBits(DYNAMIC, 12);
  }

  lemma LastBits()
    ensures var s := StreamBits(DYNAMIC);
      && s[96] == 0 && s[97] == 0 && s[98] == 0 && s[99] == 1 && s[100] == 0
      && s[101] == 0 && s[102] == 0 && s[103] == 0
      && s[104] == 0 && s[105] == 1 && s[106] == 1 && s[107] == 1 && s[108] == 0
      && s[109] == 1 && s[110] == 1 && s[111] == 0
  {
    hide StreamBits;
    ByteBits(DYNAMIC, 12);
    ByteBits(DYNAMIC, 13);
  }

  predicate ClcStands(s: seq<bit>, j: nat)
    requires j < 16
  {
    |s| >= 65 && j < |CLC| && LsbAt(s, 17 + 3 * j, 3) == CLC[j]
  }

  lemma {:induction false} OneClcAt(s: seq<bit>, j: nat)
    requires j < 16 && ClcStands(s, j)
    ensures j < |CLC| && At(s, 17 + 3 * j, LsbBits(CLC[j], 3))
  {
    hide CLC, At, LsbAt;
    LsbAtField(s, 17 + 3 * j, 3, CLC[j]);
  }

  /** The code length code lengths, three bits each. */
  lemma {:induction false} ClcAt(s: seq<bit>, i: nat)
    requires i <= 16 && |s| >= 65
    requires forall j: nat :: j < 16 ==> ClcStands(s, j)
    ensures At(s, 17 + 3 * i, ClcBits(CLC[i..])) && |ClcBits(CLC[i..])| == 3 * (16 - i)
    decreases 16 - i
  {
    hide CLC, At, LsbAt, ClcStands;
    ClcSize();
    if i < 16 {
      ClcAt(s, i + 1);
      assert ClcStands(s, i);
      OneClcAt(s, i);
      assert CLC[i..][1..] == CLC[i + 1..] && CLC[i..][0] == CLC[i];
      AtJoin(s, 17 + 3 * i, LsbBits(CLC[i], 3), ClcBits(CLC[i + 1..]));
    } else {
      NothingAt(s, 65);
    }
  }

  lemma ClcSize()
    ensures |CLC| == 16
  {
  }

  lemma NothingAt(s: seq<bit>, pos: nat)
    requires pos <= |s|
    ensures At(s, pos, [])
  {
  }

  function Value3(s: seq<bit>, pos: nat): (v: nat)
    requires pos + 3 <= |s|
    ensures v == LsbAt(s, pos, 3)
  {
    var a: nat, b: nat, c: nat := s[pos], s[pos + 1], s[pos + 2];
    assert LsbAt(s, pos, 0) == 0 && LsbAt(s, pos, 1) == a && LsbAt(s, pos, 2) == a + 2 * b;
    assert Pow2(2) == 4;
    a + 2 * b + 4 * c
  }

  lemma KnownClc()
    ensures At(StreamBits(DYNAMIC), 17, ClcBits(CLC)) && |ClcBits(CLC)| == 48
  {
    hide StreamBits, LsbAt, At, ClcBits;
    var s := StreamBits(DYNAMIC);
    FirstBits();
    LengthBits();
    forall j: nat | j < 16 ensures ClcStands(s, j) {
      assert Value3(s, 17 + 3 * j) == CLC[j];
    }
    ClcAt(s, 0);
    assert CLC[0..] == CLC;
  }

  /** Small fields, spelled out. */
  lemma {:induction false} SmallFields(s: seq<bit>, pos: nat)
    requires pos + 7 <= |s|
    ensures var a: nat, b: nat, c: nat, d: nat, e: nat := s[pos], s[pos + 1], s[pos + 2], s[pos + 3], s[pos + 4];
      && LsbAt(s, pos, 0) == 0 && LsbAt(s, pos, 1) == a && LsbAt(s, pos, 2) == a + 2 * b
      && LsbAt(s, pos, 3) == a + 2 * b + 4 * c && LsbAt(s, pos, 4) == a + 2 * b + 4 * c + 8 * d
      && LsbAt(s, pos, 5) == a + 2 * b + 4 * c + 8 * d + 16 * e
      && LsbAt(s, pos, 7) == a + 2 * b + 4 * c + 8 * d + 16 * e + 32 * (s[pos + 5] as nat) + 64 * (s[pos + 6] as nat)
  {
    assert Pow2(0) == 1 && Pow2(1) == 2 && Pow2(2) == 4 && Pow2(3) == 8 && Pow2(4) == 16 && Pow2(5) == 32;
    assert Pow2(6) == 64;
    var f: nat := s[pos + 5];
    assert LsbAt(s, pos, 0) == 0;
    assert LsbAt(s, pos, 6) == LsbAt(s, pos, 5) + f * Pow2(5);
  }

  /** An op's codeword and extra bits stand at `pos`. */
  predicate OpStands(s: seq<bit>, pos: nat, op: LengthOp) {
    At(s, pos, OpBits(KnownCl(), op)) && |OpBits(KnownCl(), op)| == 2 + OpExtraBits(op.symbol)
  }

  lemma {:induction false} OpAt(s: seq<bit>, pos: nat, op: LengthOp, c: nat)
    requires op.symbol == (match c case 0 => 2 case 1 => 16 case 2 => 17 case _ => 18) && c < 4
    requires pos + 9 <= |s| && s[pos] == c / 2 && s[pos + 1] == c % 2
    requires LsbAt(s, pos + 2, OpExtraBits(op.symbol)) == op.extra
    ensures OpStands(s, pos, op)
  {
    hide At, LsbAt, Code, Complete, KnownCl;
    KnownClCodes();
    KnownClTwos();
    TwoBitWord(s, pos, KnownCl(), op.symbol, c);
    LsbAtField(s, pos + 2, OpExtraBits(op.symbol), op.extra);
    AtJoin(s, pos, Word(KnownCl(), op.symbol), LsbBits(op.extra, OpExtraBits(op.symbol)));
  }

  lemma KnownClTwos()
    ensures var cl := KnownCl(); cl[2] == 2 && cl[16] == 2 && cl[17] == 2 && cl[18] == 2
  {
  }

  /** The remaining ops stand at `pos`. */
  predicate OpsStand(s: seq<bit>, pos: nat, i: nat, n: nat)
    requires i <= |OPS|
  {
    At(s, pos, OpsBits(KnownCl(), OPS[i..])) && |OpsBits(KnownCl(), OPS[i..])| == n
  }

  lemma {:induction false} OpsOn(s: seq<bit>, pos: nat, i: nat, n: nat)
    requires i < |OPS| && OpStands(s, pos, OPS[i])
    requires OpsStand(s, pos + 2 + OpExtraBits(OPS[i].symbol), i + 1, n)
    ensures OpsStand(s, pos, i, 2 + OpExtraBits(OPS[i].symbol) + n)
  {
    hide At, OPS, KnownCl, OpBits;
    assert OPS[i..][1..] == OPS[i + 1..] && OPS[i..][0] == OPS[i];
    AtJoin(s, pos, OpBits(KnownCl(), OPS[i]), OpsBits(KnownCl(), OPS[i + 1..]));
  }

  lemma {:induction false} FirstOps()
    ensures var s := StreamBits(DYNAMIC);
      && OpStands(s, 65, OPS[0])
      && OpStands(s, 70, OPS[1])
      && OpStands(s, 72, OPS[2])
  {
    hide StreamBits, LsbAt, OpStands;
    var s := StreamBits(DYNAMIC);
    OpBitsStand();
    SmallFields(s, 67);
    OpAt(s, 65, OPS[0], 2);
    SmallFields(s, 72);
    OpAt(s, 70, OPS[1], 0);
    SmallFields(s, 74);
    OpAt(s, 72, OPS[2], 0);
  }

  lemma {:induction false} LongOps()
    ensures var s := StreamBits(DYNAMIC);
      && OpStands(s, 74, OPS[3])
      && OpStands(s, 83, OPS[4])
  {
    hide StreamBits, LsbAt, OpStands;
    var s := StreamBits(DYNAMIC);
    OpBitsStand();
    SmallFields(s, 76);
    OpAt(s, 74, OPS[3], 3);
    SmallFields(s, 85);
    OpAt(s, 83, OPS[4], 3);
  }

  lemma {:induction false} LastOps()
    ensures var s := StreamBits(DYNAMIC);
      && OpStands(s, 92, OPS[5])
      && OpStands(s, 94, OPS[6])
      && OpStands(s, 96, OPS[7])
      && OpStands(s, 98, OPS[8])
  {
    hide StreamBits, LsbAt, OpStands;
    var s := StreamBits(DYNAMIC);
    OpBitsStand();
    SmallFields(s, 94);
    OpAt(s, 92, OPS[5], 0);
    SmallFields(s, 96);
    OpAt(s, 94, OPS[6], 0);
    SmallFields(s, 98);
    OpAt(s, 96, OPS[7], 0);
    SmallFields(s, 100);
    OpAt(s, 98, OPS[8], 1);
  }

  lemma {:induction false} KnownOpBits()
    ensures At(StreamBits(DYNAMIC), 65, OpsBits(KnownCl(), OPS)) && |OpsBits(KnownCl(), OPS)| == 37
  {
    hide StreamBits, At, OpsBits, OpStands, OpsStand, KnownCl;
    var s := StreamBits(DYNAMIC);
    FirstOps();
    LongOps();
    LastOps();
    OpsEnd(s);
    OpsOn(s, 98, 8, 0);
    OpsOn(s, 96, 7, 4);
    OpsOn(s, 94, 6, 6);
    OpsOn(s, 92, 5, 8);
    OpsOn(s, 83, 4, 10);
    OpsOn(s, 74, 3, 19);
    OpsOn(s, 72, 2, 28);
    OpsOn(s, 70, 1, 30);
    OpsOn(s, 65, 0, 32);
    OpsWhole(s);
  }

  lemma OpsEnd(s: seq<bit>)
    requires |s| >= 102
    ensures OpsStand(s, 102, 9, 0)
  {
    assert OPS[9..] == [];
  }

  lemma OpsWhole(s: seq<bit>)
    requires OpsStand(s, 65, 0, 37)
    ensures At(s, 65, OpsBits(KnownCl(), OPS)) && |OpsBits(KnownCl(), OPS)| == 37
  {
    assert OPS[0..] == OPS;
  }

  /** The two literals, the copy and the end of the block. */
  lemma {:induction false} KnownBodyBits()
    ensures var body := BodyBits(KnownLengths()[..258], KnownLengths()[258..], TOKENS);
      At(StreamBits(DYNAMIC), 102, body) && |body| == 10
  {
    hide StreamBits, At, KnownLengths, Word, Code, Complete, LsbBits;
    var s, lit, dist := StreamBits(DYNAMIC), KnownLengths()[..258], KnownLengths()[258..];
    LastBits();
    KnownLitCodes();
    KnownDistCodes();
    KnownLitTwos();
    TwoBitWord(s, 102, lit, 3, 0);
    TwoBitWord(s, 104, lit, 4, 1);
    TwoBitWord(s, 106, lit, 257, 3);
    TwoBitWord(s, 108, dist, 1, 1);
    TwoBitWord(s, 110, lit, 256, 2);
    NothingAt(s, 108);
    NothingAt(s, 110);
    NoBits();
    AtJoin(s, 108, Word(dist, 1), LsbBits(0, 0));
    AtJoin(s, 108, LsbBits(0, 0), Word(dist, 1) + LsbBits(0, 0));
    AtJoin(s, 106, Word(lit, 257), LsbBits(0, 0) + (Word(dist, 1) + LsbBits(0, 0)));
    var copy := Copy(0, 0, 1, 0);
    CopyBits(lit, dist);
    assert TOKENS[1..] == [Literal(4), copy] && TOKENS[1..][1..] == [copy] && [copy][1..] == [];
    AtJoin(s, 106, TokenBits(lit, dist, copy), Word(lit, 256));
    assert BodyBits(lit, dist, [copy]) == TokenBits(lit, dist, copy) + BodyBits(lit, dist, []);
    AtJoin(s, 104, Word(lit, 4), BodyBits(lit, dist, [copy]));
    AtJoin(s, 102, Word(lit, 3), BodyBits(lit, dist, TOKENS[1..]));
  }

  lemma CopyBits(lit: seq<nat>, dist: seq<nat>)
    ensures TokenBits(lit, dist, Copy(0, 0, 1, 0))
            == Word(lit, 257) + (LsbBits(0, 0) + (Word(dist, 1) + LsbBits(0, 0)))
  {
    hide Word;
    assert Pow2(0) == 1;
  }

  lemma NoBits()
    ensures LsbBits(0, 0) == []
  {
  }

  lemma KnownLitTwos()
    ensures var lit := KnownLengths()[..258];
      |lit| == 258 && lit[3] == 2 && lit[4] == 2 && lit[256] == 2 && lit[257] == 2
  {
  }

  /** The block's header fields: three bits of block header, HLIT, HDIST and HCLEN. */
  lemma {:induction false} KnownHeaderBits()
    ensures At(StreamBits(DYNAMIC), 3, HeaderBits(KnownHeader())) && |HeaderBits(KnownHeader())| == 99
    ensures At(StreamBits(DYNAMIC), 0, LsbBits(1, 1)) && At(StreamBits(DYNAMIC), 1, LsbBits(2, 2))
  {
    hide StreamBits, At, LsbAt, LsbBits, ClcBits, OpsBits, CLC, OPS, Scatter, KnownCl;
    var s := StreamBits(DYNAMIC);
    FirstBits();
    LengthBits();
    SmallFields(s, 0);
    SmallFields(s, 1);
    SmallFields(s, 3);
    SmallFields(s, 8);
    SmallFields(s, 13);
    LsbAtField(s, 0, 1, 1);
    LsbAtField(s, 1, 2, 2);
    LsbAtField(s, 3, 5, 1);
    LsbAtField(s, 8, 5, 3);
    LsbAtField(s, 13, 4, 12);
    ClcSize();
    KnownScatter();
    KnownClc();
    KnownOpBits();
    AtJoin(s, 17, ClcBits(CLC), OpsBits(KnownCl(), OPS));
    AtJoin(s, 13, LsbBits(12, 4), ClcBits(CLC) + OpsBits(KnownCl(), OPS));
    AtJoin(s, 8, LsbBits(3, 5), LsbBits(12, 4) + (ClcBits(CLC) + OpsBits(KnownCl(), OPS)));
    AtJoin(s, 3, LsbBits(1, 5), LsbBits(3, 5) + (LsbBits(12, 4) + (ClcBits(CLC) + OpsBits(KnownCl(), OPS))));
  }

  // --- known streams ---

  /** The bytes are an encoding of `data`, by one block. */
  ghost predicate StandFor(bytes: seq<byte>, data: seq<byte>) {
    exists b :: Encodes([b], bytes, |data|) && BlocksOutput([b], []) == data
  }

  lemma {:induction false} OneBlockEncodes(b: Block, bytes: seq<byte>, data: seq<byte>)
    requires 8 * |bytes| <= INT_MAX && |data| <= MEMBER_LIMIT && b.Legal(0, [], |data|) && b.Output([]) == data
    requires At(StreamBits(bytes), 0, b.Bits(true)) && (|b.Bits(true)| + 7) / 8 == |bytes|
    ensures StandFor(bytes, data)
  {
    hide StreamBits, Block.Legal, Block.Bits, Block.Output, At;
    assert [b][1..] == [];
    assert BlocksBits([]) == [] && BlocksBits([b]) == b.Bits(true) + BlocksBits([b][1..]);
    assert BlocksBits([b]) == b.Bits(true);
    assert BlocksOutput([], data) == data && BlocksOutput([b], []) == data;
    assert LegalBlocks([b], 0, [], |data|);
    assert Encodes([b], bytes, |data|);
  }

  /** The dynamic block. */
  lemma {:induction false} DynamicStandsFor()
    ensures StandFor(DYNAMIC, [3, 4, 3, 4, 3])
  {
    hide StreamBits, At, LsbBits, HeaderBits, BodyBits, LegalHeader, HeaderTables, KnownLengths, KnownHeader,
      CodableAll, LegalTokens, ExpandAll, StandFor, TOKENS;
    var s, b := StreamBits(DYNAMIC), KnownBlock();
    KnownHeaderLegal();
    KnownTokens();
    KnownHeaderBits();
    KnownBodyBits();
    AtJoin(s, 3, HeaderBits(KnownHeader()), BodyBits(KnownLengths()[..258], KnownLengths()[258..], TOKENS));
    AtJoin(s, 1, LsbBits(2, 2), b.PayloadBits());
    AtJoin(s, 0, LsbBits(1, 1), LsbBits(2, 2) + b.PayloadBits());
    assert |DYNAMIC| == 14;
    OneBlockEncodes(b, DYNAMIC, [3, 4, 3, 4, 3]);
  }

  /** A stored block with the one byte 97. */
  const STORED: seq<byte> := [1, 1, 0, 254, 255, 97]

  lemma {:induction false} ByteField(bytes: seq<byte>, i: nat, v: nat)
    requires i < |bytes| && bytes[i] == v
    requires v == v % 2 + 2 * (v / 2 % 2) + 4 * (v / 4 % 2) + 8 * (v / 8 % 2) + 16 * (v / 16 % 2)
                  + 32 * (v / 32 % 2) + 64 * (v / 64 % 2) + 128 * (v / 128 % 2)
    ensures LsbAt(StreamBits(bytes), 8 * i, 8) == v
  {
    hide StreamBits;
    var s, p := StreamBits(bytes), 8 * i;
    ByteBits(bytes, i);
    EightBits(s, p);
  }

  lemma {:induction false} EightBits(s: seq<bit>, p: nat)
    requires p + 8 <= |s|
    ensures var a: nat, b: nat, c: nat, d: nat, e: nat, f: nat, g: nat, h: nat :=
              s[p], s[p + 1], s[p + 2], s[p + 3], s[p + 4], s[p + 5], s[p + 6], s[p + 7];
            LsbAt(s, p, 8) == a + 2 * b + 4 * c + 8 * d + 16 * e + 32 * f + 64 * g + 128 * h
  {
    SmallFields(s, p);
    assert Pow2(7) == 128;
    var h: nat := s[p + 7];
    assert LsbAt(s, p, 8) == LsbAt(s, p, 7) + h * Pow2(7);
  }

  lemma {:induction false} TwoBytes(s: seq<bit>, p: nat)
    requires p + 16 <= |s|
    ensures LsbAt(s, p, 16) == LsbAt(s, p, 8) + 256 * LsbAt(s, p + 8, 8)
  {
    hide LsbAt;
    LsbSplit(s, p, 8, 16);
    assert Pow2(8) == 256;
  }

  lemma {:induction false} StoredHead()
    ensures var s := StreamBits(STORED);
      |s| == 48 && LsbAt(s, 0, 1) == 1 && LsbAt(s, 1, 2) == 0 && At(s, 3, [0, 0, 0, 0, 0])
  {
    hide StreamBits, LsbAt;
    var s := StreamBits(STORED);
    ByteBits(STORED, 0);
    SmallFields(s, 0);
    SmallFields(s, 1);
  }

  lemma {:induction false} StoredNumbers()
    ensures var s := StreamBits(STORED);
      && |s| == 48 && LsbAt(s, 8, 8) == 1 && LsbAt(s, 16, 8) == 0 && LsbAt(s, 24, 8) == 254
      && LsbAt(s, 32, 8) == 255 && LsbAt(s, 40, 8) == 97
  {
    hide StreamBits, LsbAt;
    ByteField(STORED, 1, 1);
    ByteField(STORED, 2, 0);
    ByteField(STORED, 3, 254);
    ByteField(STORED, 4, 255);
    ByteField(STORED, 5, 97);
  }

  lemma {:induction false} StoredFields()
    ensures var s := StreamBits(STORED);
      && |s| == 48 && LsbAt(s, 0, 1) == 1 && LsbAt(s, 1, 2) == 0 && At(s, 3, [0, 0, 0, 0, 0])
      && LsbAt(s, 8, 16) == 1 && LsbAt(s, 24, 16) == 65534 && LsbAt(s, 40, 8) == 97
  {
    hide StreamBits, LsbAt, STORED, At;
    StoredHead();
    StoredNumbers();
    TwoBytes(StreamBits(STORED), 8);
    TwoBytes(StreamBits(STORED), 24);
  }

  lemma {:induction false} StoredStandsFor()
    ensures StandFor(STORED, [97])
  {
    hide StreamBits, At, LsbBits, LsbAt, StandFor;
    var s, padding := StreamBits(STORED), [0, 0, 0, 0, 0];
    var b := Stored(padding, [97]);
    StoredFields();
    LsbAtField(s, 0, 1, 1);
    LsbAtField(s, 1, 2, 0);
    LsbAtField(s, 8, 16, 1);
    LsbAtField(s, 24, 16, 65534);
    LsbAtField(s, 40, 8, 97);
    NothingAt(s, 48);
    assert [97][1..] == [] && DataBits([97][1..]) == [];
    assert DataBits([97]) == LsbBits(97, 8) + [];
    AtJoin(s, 40, LsbBits(97, 8), []);
    AtJoin(s, 24, LsbBits(65534, 16), DataBits([97]));
    AtJoin(s, 8, LsbBits(1, 16), LsbBits(65534, 16) + DataBits([97]));
    assert StoredBits([97]) == LsbBits(1, 16) + (LsbBits(65534, 16) + DataBits([97]));
    AtJoin(s, 3, padding, StoredBits([97]));
    AtJoin(s, 1, LsbBits(0, 2), b.PayloadBits());
    AtJoin(s, 0, LsbBits(1, 1), LsbBits(0, 2) + b.PayloadBits());
    assert AlignSkip(3) == 5;
    OneBlockEncodes(b, STORED, [97]);
  }

  /** The same byte in a fixed block. */
  const FIXED: seq<byte> := [75, 4, 0]

  lemma {:induction false} FixedFields()
    ensures var s := StreamBits(FIXED);
      && |s| == 24 && LsbAt(s, 0, 1) == 1 && LsbAt(s, 1, 2) == 1
      && At(s, 3, [1, 0, 0, 1, 0, 0, 0, 1]) && At(s, 11, [0, 0, 0, 0, 0, 0, 0])
  {
    hide StreamBits, LsbAt;
    var s := StreamBits(FIXED);
    ByteBits(FIXED, 0);
    ByteBits(FIXED, 1);
    ByteBits(FIXED, 2);
    SmallFields(s, 0);
    SmallFields(s, 1);
  }

  lemma {:induction false} FixedWords()
    ensures Word(FixedLiterals(), 97) == [1, 0, 0, 1, 0, 0, 0, 1]
    ensures Word(FixedLiterals(), END_OF_BLOCK) == [0, 0, 0, 0, 0, 0, 0]
  {
    hide Code, FixedLiterals, MsbBits;
    FixedWordLengths();
    FixedCodesAsTabulated(97);
    FixedCodesAsTabulated(256);
    Digits145();
    Zeros7();
  }

  lemma FixedWordLengths()
    ensures |FixedLiterals()| == 288 && FixedLiterals()[97] == 8 && FixedLiterals()[256] == 7
  {
  }

  lemma Digits145()
    ensures MsbBits(145, 8) == [1, 0, 0, 1, 0, 0, 0, 1]
  {
    assert MsbBits(1, 1) == [1] && MsbBits(2, 2) == [1, 0] && MsbBits(4, 3) == [1, 0, 0];
    assert MsbBits(9, 4) == [1, 0, 0, 1] && MsbBits(18, 5) == [1, 0, 0, 1, 0];
    assert MsbBits(36, 6) == [1, 0, 0, 1, 0, 0] && MsbBits(72, 7) == [1, 0, 0, 1, 0, 0, 0];
  }

  lemma Zeros7()
    ensures MsbBits(0, 7) == [0, 0, 0, 0, 0, 0, 0]
  {
    assert MsbBits(0, 1) == [0] && MsbBits(0, 2) == [0, 0] && MsbBits(0, 3) == [0, 0, 0];
    assert MsbBits(0, 4) == [0, 0, 0, 0] && MsbBits(0, 5) == [0, 0, 0, 0, 0] && MsbBits(0, 6) == [0, 0, 0, 0, 0, 0];
  }

  lemma {:induction false} FixedStandsFor()
    ensures StandFor(FIXED, [97])
  {
    hide StreamBits, At, LsbBits, LsbAt, StandFor, Word, FixedLiterals, FixedDistances;
    var s, b := StreamBits(FIXED), Fixed([Literal(97)]);
    FixedFields();
    FixedWords();
    LsbAtField(s, 0, 1, 1);
    LsbAtField(s, 1, 2, 1);
    FixedLiteralWord(97);
    var lit, dist := FixedLiterals(), FixedDistances();
    assert [Literal(97)][1..] == [];
    assert BodyBits(lit, dist, []) == Word(lit, END_OF_BLOCK);
    assert BodyBits(lit, dist, [Literal(97)]) == Word(lit, 97) + Word(lit, END_OF_BLOCK);
    AtJoin(s, 3, Word(lit, 97), Word(lit, END_OF_BLOCK));
    AtJoin(s, 1, LsbBits(1, 2), b.PayloadBits());
    AtJoin(s, 0, LsbBits(1, 1), LsbBits(1, 2) + b.PayloadBits());
    assert Expand([], Literal(97)) == [97] && ExpandAll([97], []) == [97];
    OneBlockEncodes(b, FIXED, [97]);
  }

  // --- the decoder on them ---

  /** What stands for given bytes decodes to them. */
  lemma {:induction false} StandsForOnly(bytes: seq<byte>, data: seq<byte>, r: Result<Inflated>)
    requires StandFor(bytes, data)
    requires forall blocks :: Encodes(blocks, bytes, |data|) ==>
               r == Ok(Inflated(BlocksOutput(blocks, []), |BlocksBits(blocks)|))
    ensures r.Ok? && r.value.output == data
  {
    hide Encodes, BlocksOutput, BlocksBits;
    var b :| Encodes([b], bytes, |data|) && BlocksOutput([b], []) == data;
  }

  /** The decoder reads all three. */
  method InflateKnown() returns (dynamic: Result<Inflated>, stored: Result<Inflated>, fixed: Result<Inflated>)
    ensures dynamic.Ok? && dynamic.value.output == [3, 4, 3, 4, 3]
    ensures stored.Ok? && stored.value.output == [97]
    ensures fixed.Ok? && fixed.value.output == [97]
  {
    hide Encodes, BlocksOutput, BlocksBits, StandFor;
    DynamicStandsFor();
    StoredStandsFor();
    FixedStandsFor();
    dynamic := Inflate(DYNAMIC, 0, 14, 5);
    assert DYNAMIC[0..14] == DYNAMIC;
    StandsForOnly(DYNAMIC, [3, 4, 3, 4, 3], dynamic);
    stored := Inflate(STORED, 0, 6, 1);
    assert STORED[0..6] == STORED;
    StandsForOnly(STORED, [97], stored);
    fixed := Inflate(FIXED, 0, 3, 1);
    assert FIXED[0..3] == FIXED;
    StandsForOnly(FIXED, [97], fixed);
  }
}
