/** Facts that tie the format definitions to RFC 1951 and show they are not empty: the
    fixed codes of section 3.2.6, the reach of the length and distance alphabets, and an
    encoding, packed into bytes, of every byte string. */
module DeflateFacts {
  import opened Prelude
  import opened BitStrings
  import opened CanonicalCode
  import opened DeflateFormat
  import opened Inflater

  // --- every length and distance has a token ---

  /** Index of the alphabet range that holds `v`, for ranges starting at `base[i]`. */
  function RangeOf(base: seq<nat>, v: nat, n: nat): (i: nat)
    requires 0 < n <= |base| && base[0] <= v
    ensures i < n && base[i] <= v && (i + 1 < n ==> v < base[i + 1])
  {
    if n == 1 || base[n - 1] <= v then n - 1 else RangeOf(base, v, n - 1)
  }

  lemma LengthRanges()
    ensures forall i :: 0 <= i < 27 ==> LENGTH_BASE[i + 1] == LENGTH_BASE[i] + Pow2(LENGTH_EXTRA[i])
  {
    assert Pow2(0) == 1 && Pow2(1) == 2 && Pow2(2) == 4 && Pow2(3) == 8 && Pow2(4) == 16 && Pow2(5) == 32;
  }

  lemma DistanceRanges()
    ensures forall i :: 0 <= i < 29 ==> DISTANCE_BASE[i + 1] == DISTANCE_BASE[i] + Pow2(DISTANCE_EXTRA[i])
  {
    assert Pow2(0) == 1 && Pow2(1) == 2 && Pow2(2) == 4 && Pow2(3) == 8 && Pow2(4) == 16 && Pow2(5) == 32;
    assert Pow2(6) == 64 && Pow2(7) == 128 && Pow2(8) == 256 && Pow2(9) == 512 && Pow2(10) == 1024;
    assert Pow2(11) == 2048 && Pow2(12) == 4096 && Pow2(13) == 8192;
  }

  /** Any copy of 3 to 258 bytes from 1 to 32768 bytes back can be written as a token. */
  lemma EveryCopyHasToken(length: nat, distance: nat) returns (t: Token)
    requires 3 <= length <= 258 && 1 <= distance <= 32768
    ensures t.Copy? && t.WellFormed() && t.Length() == length && t.Distance() == distance
  {
    LengthRanges();
    DistanceRanges();
    assert Pow2(0) == 1 && Pow2(13) == 8192;
    var lx := if length == 258 then 28 else RangeOf(LENGTH_BASE, length, 28);
    var dx := RangeOf(DISTANCE_BASE, distance, 30);
    assert lx < 27 ==> length < LENGTH_BASE[lx + 1];
    assert dx < 29 ==> distance < DISTANCE_BASE[dx + 1];
    t := Copy(lx, length - LENGTH_BASE[lx], dx, distance - DISTANCE_BASE[dx]);
  }

  // --- the fixed codes of section 3.2.6 ---

  /** How often the lengths 7, 8 and 9 occur among the first `k` fixed literal lengths. */
  lemma {:induction false} FixedCounts(k: nat)
    requires k <= 288
    ensures var lit := FixedLiterals();
      && CountUpTo(lit, k, 7) == (if k <= 256 then 0 else if k <= 280 then k - 256 else 24)
      && CountUpTo(lit, k, 9) == (if k <= 144 then 0 else if k <= 256 then k - 144 else 112)
      && CountUpTo(lit, k, 8) == (if k <= 144 then k else if k <= 280 then 144 else k - 136)
  {
    if k > 0 {
      FixedCounts(k - 1);
    }
  }

  lemma {:induction false} FixedOtherLengths(k: nat, n: nat)
    requires k <= 288 && n < 7
    ensures CountUpTo(FixedLiterals(), k, n) == 0
  {
    if k > 0 {
      FixedOtherLengths(k - 1, n);
    }
  }

  lemma {:induction false} FixedShortCodes(n: nat)
    requires n <= 7
    ensures First(FixedLiterals(), n) == 0
  {
    if n > 0 {
      FixedShortCodes(n - 1);
      FixedOtherLengths(288, n - 1);
    }
  }

  lemma {:induction false} FixedDistanceCounts(k: nat, n: nat)
    requires k <= 32
    ensures CountUpTo(FixedDistances(), k, n) == if n == 5 then k else 0
  {
    if k > 0 {
      FixedDistanceCounts(k - 1, n);
    }
  }

  lemma {:induction false} FixedDistanceFirst(n: nat)
    requires n <= 5
    ensures First(FixedDistances(), n) == 0
  {
    if n > 0 {
      FixedDistanceFirst(n - 1);
      FixedDistanceCounts(32, n - 1);
    }
  }

  /** The codes the RFC tabulates. Literals and lengths: 00110000 to 10111111, 110010000 to
      111111111, 0000000 to 0010111 and 11000000 to 11000111. Distances: their own number in
      five bits. */
  lemma FixedCodesAsTabulated(sym: nat)
    requires sym < 288
    ensures sym < 32 ==> FixedDistances()[sym] == 5 && Code(FixedDistances(), sym) == sym
    ensures Code(FixedLiterals(), sym) ==
      if sym <= 143 then 0x30 + sym
      else if sym <= 255 then 0x190 + (sym - 144)
      else if sym <= 279 then sym - 256
      else 0xC0 + (sym - 280)
  {
    var lit := FixedLiterals();
    FixedShortCodes(7);
    FixedCounts(288);
    FixedCounts(sym);
    if sym < 32 {
      FixedDistanceFirst(5);
      FixedDistanceCounts(sym, 5);
    }
    assert First(lit, 8) == 2 * (First(lit, 7) + Count(lit, 7)) == 48;
    assert First(lit, 9) == 2 * (First(lit, 8) + Count(lit, 8)) == 400;
  }

  // --- packing bits into bytes ---

  /** The fewest bytes that hold `s`, the last one filled up with zero bits. */
  function Pack(s: seq<bit>): (bytes: seq<byte>)
    ensures |bytes| == (|s| + 7) / 8
  {
    assert Pow2(8) == 256;
    var padded := s + seq(8, _ => 0);
    seq((|s| + 7) / 8, i requires 0 <= i < (|s| + 7) / 8 => LsbAt(padded, 8 * i, 8))
  }

  lemma Quotient(low: nat, p: nat, high: nat)
    requires low < p
    ensures (low + p * high) / p == high
  {
    var v := low + p * high;
    var m := v / p - high;
    assert p * m == p * (v / p) - p * high;
    SmallMultiple(p, m);
  }

  /** Shifting a field right by k and masking one bit gives its k-th bit. */
  lemma {:induction false} DigitOf(s: seq<bit>, pos: nat, n: nat, k: nat)
    requires k < n && pos + n <= |s|
    ensures LsbAt(s, pos, n) / Pow2(k) % 2 == s[pos + k]
  {
    var high := LsbAt(s, pos + k, n - k);
    LsbSplit(s, pos, k, n);
    Quotient(LsbAt(s, pos, k), Pow2(k), high);
    LowBit(s, pos + k, n - k);
  }

  lemma {:induction false} LowBit(s: seq<bit>, pos: nat, n: nat)
    requires n > 0 && pos + n <= |s|
    ensures LsbAt(s, pos, n) % 2 == s[pos]
  {
    hide LsbAt;
    LsbSplit(s, pos, 1, n);
    OneBit(s, pos);
    assert Pow2(1) == 2;
  }

  /** Packing bits into bytes keeps them, in front. */
  lemma PackKeepsBits(s: seq<bit>)
    ensures At(StreamBits(Pack(s)), 0, s)
  {
    var padded := s + seq(8, _ => 0);
    forall p | 0 <= p < |s| ensures StreamBits(Pack(s))[p] == s[p] {
      DigitOf(padded, 8 * (p / 8), 8, p % 8);
    }
  }

  // --- every byte string has an encoding ---

  function Literals(data: seq<byte>): (ts: seq<Token>)
    ensures |ts| == |data|
  {
    if |data| == 0 then [] else [Literal(data[0])] + Literals(data[1..])
  }

  lemma FixedLiteralWord(symbol: nat)
    requires symbol <= END_OF_BLOCK
    ensures HasCode(FixedLiterals(), symbol)
    ensures |Word(FixedLiterals(), symbol)| <= if symbol == END_OF_BLOCK then 7 else 9
  {
  }

  lemma {:induction false} LiteralsEncode(data: seq<byte>, out: seq<byte>, limit: nat)
    requires |out| + |data| <= limit
    ensures var lit, dist, ts := FixedLiterals(), FixedDistances(), Literals(data);
      && CodableAll(lit, dist, ts) && LegalTokens(ts, out, limit)
      && ExpandAll(out, ts) == out + data
      && |BodyBits(lit, dist, ts)| <= 9 * |data| + 7
    decreases |data|
  {
    hide FixedLiterals, FixedDistances, Word;
    FixedLiteralWord(END_OF_BLOCK);
    if |data| == 0 {
      assert out + data == out;
    } else {
      var ts := Literals(data);
      assert ts[1..] == Literals(data[1..]);
      FixedLiteralWord(data[0]);
      assert Expand(out, ts[0]) == out + [data[0]];
      LiteralsEncode(data[1..], out + [data[0]], limit);
      assert out + [data[0]] + data[1..] == out + data;
    }
  }

  /** Every byte string the decoder may produce has an encoding it accepts. */
  lemma EveryByteStringEncodes(data: seq<byte>) returns (blocks: seq<Block>)
    requires |data| <= MEMBER_LIMIT
    ensures Encodes(blocks, Pack(BlocksBits(blocks)), |data|) && BlocksOutput(blocks, []) == data
  {
    hide BodyBits, ExpandAll, LegalTokens, CodableAll, LsbBits, At, StreamBits, Pack;
    var b := Fixed(Literals(data));
    blocks := [b];
    LiteralsEncode(data, [], |data|);
    assert [] + data == data;
    assert blocks[1..] == [];
    assert BlocksBits(blocks[1..]) == [] && BlocksOutput(blocks[1..], b.Output([])) == b.Output([]);
    PackKeepsBits(BlocksBits(blocks));
  }
}
