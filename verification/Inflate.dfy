/** The decoder itself: one pass over the bits that fills a preallocated output buffer. */
module Inflater {
  import opened Prelude
  import opened BitStrings
  import opened BitReader
  import opened CanonicalCode
  import opened Huffman
  import opened DeflateFormat
  import opened DeflateReading

  const MEMBER_LIMIT: nat := 128 * 1024 * 1024
  const BLOCK_QUOTA: nat := 1000000

  /** The window `bytes` is an encoding of exactly `expected` bytes by `blocks`: the blocks
      are legal, their bits start the window and end in its last byte. */
  ghost predicate Encodes(blocks: seq<Block>, bytes: seq<byte>, expected: int) {
    && 8 * |bytes| <= 0x7fff_ffff && 0 <= expected <= 0x800_0000
    && |blocks| <= 1_000_000
    && LegalBlocks(blocks, 0, [], expected)
    && |BlocksOutput(blocks, [])| == expected
    && At(StreamBits(bytes), 0, BlocksBits(blocks))
    && (|BlocksBits(blocks)| + 7) / 8 == |bytes|
  }

  /** A step that reports how much of the buffer is filled agrees with reading `spec`. */
  ghost predicate Agrees(used: Result<nat>, output: seq<byte>, position: nat, spec: Result<(seq<byte>, nat)>) {
    && used.Ok? == spec.Ok?
    && (used.Ok? ==> used.value <= |output| && output[..used.value] == spec.value.0 && position == spec.value.1)
  }

  // --- stored blocks ---

  method StoredBytes(r: Bits, output: array<byte>, used: nat, len: nat) returns (result: Result<nat>)
    requires r.Valid() && used + len <= output.Length
    modifies r`Position, output
    ensures r.Valid()
    ensures Agrees(result, output[..], r.Position, ReadBytes(r.Stream(), old(r.Position), old(output[..used]), len))
  {
    hide FieldAt, StreamBits;
    ghost var spec := ReadBytes(r.Stream(), r.Position, output[..used], len);
    assert Pow2(8) == 256;
    var at := used;
    for i := 0 to len
      invariant r.Valid() && at == used + i
      invariant ReadBytes(r.Stream(), r.Position, output[..at], len - i) == spec
    {
      ghost var before := output[..at];
      var b := r.Read(8);
      if b.Rejected? {
        return Rejected;
      }
      output[at] := b.value;
      at := at + 1;
      assert output[..at] == before + [b.value];
    }
    result := Ok(at);
  }

  method StoredBlock(r: Bits, output: array<byte>, used: nat) returns (result: Result<nat>)
    requires r.Valid() && used <= output.Length
    modifies r`Position, output
    ensures r.Valid()
    ensures Agrees(result, output[..], r.Position,
                   ReadStored(r.Stream(), old(r.Position), old(output[..used]), output.Length))
  {
    hide FieldAt, StreamBits, ReadBytes, AlignSkip;
    var _ :- r.Align();
    var len :- r.Read(16);
    var inverse :- r.Read(16);
    // The two 16-bit words are complements exactly when they add up to 65535.
    if len + inverse != 65535 || len > output.Length - used {
      return Rejected;
    }
    result := StoredBytes(r, output, used, len);
  }

  // --- dynamic tables ---

  method CodeLengthCode(r: Bits, n: nat) returns (result: Result<seq<nat>>)
    requires r.Valid() && n <= 19
    modifies r`Position
    ensures r.Valid()
    ensures var spec := ReadClc(r.Stream(), old(r.Position), [], n);
      && result.Ok? == spec.Ok?
      && (result.Ok? ==> result.value == Scatter(spec.value.0) && r.Position == spec.value.1)
  {
    ghost var spec := ReadClc(r.Stream(), r.Position, [], n);
    ghost var clc: seq<nat> := [];
    var cl := new nat[19](_ => 0);
    assert cl[..] == Scatter([]);
    for i := 0 to n
      invariant r.Valid() && |clc| == i && cl[..] == Scatter(clc)
      invariant ReadClc(r.Stream(), r.Position, clc, n) == spec
    {
      var l := r.Read(3);
      if l.Rejected? {
        return Rejected;
      }
      ScatterSnoc(clc, l.value);
      assert ORDER[i] < 19;
      cl[ORDER[i]] := l.value;
      clc := clc + [l.value];
    }
    result := Ok(cl[..]);
  }

  lemma {:induction false} ScatterSnoc(clc: seq<nat>, l: nat)
    requires |clc| < 19
    ensures ORDER[|clc|] < 19
    ensures Scatter(clc + [l]) == Scatter(clc)[ORDER[|clc|] := l]
  {
    hide ORDER;
    OrderIsPermutation();
    var more := clc + [l];
    assert more[..|more| - 1] == clc;
  }

  lemma OrderIsPermutation()
    ensures |ORDER| == 19 && forall i :: 0 <= i < 19 ==> ORDER[i] < 19
    ensures forall i, j :: 0 <= i < j < 19 ==> ORDER[i] != ORDER[j]
  {
  }

  /** Writes `repeat` copies of `value` from index `at` on. */
  method Fill(all: array<nat>, at: nat, repeat: nat, value: nat)
    requires at + repeat <= all.Length
    modifies all
    ensures all[..at + repeat] == old(all[..at]) + seq(repeat, _ => value)
  {
    for k := 0 to repeat
      invariant all[..at] == old(all[..at])
      invariant forall j :: at <= j < at + k ==> all[j] == value
    {
      all[at + k] := value;
    }
  }

  /** The repeat count and repeated value of the run that `symbol` starts. */
  method RunOf(r: Bits, symbol: nat, all: array<nat>, at: nat) returns (result: Result<(nat, nat)>)
    requires r.Valid() && 16 <= symbol && at <= all.Length
    modifies r`Position
    ensures r.Valid()
    ensures result.Ok? <==> symbol <= 18 && (symbol == 16 ==> at > 0)
                            && FieldAt(r.Stream(), old(r.Position), OpExtraBits(symbol)).Ok?
    ensures result.Ok? ==>
      && r.Position == old(r.Position) + OpExtraBits(symbol)
      && (var op := LengthOp(symbol, FieldAt(r.Stream(), old(r.Position), OpExtraBits(symbol)).value);
          OpLengths(all[..at], op) == seq(result.value.0, _ => result.value.1))
  {
    hide FieldAt, StreamBits;
    if symbol == 16 {
      if at == 0 {
        return Rejected;
      }
      var extra :- r.Read(2);
      result := Ok((extra + 3, all[at - 1]));
    } else if symbol == 17 {
      var extra :- r.Read(3);
      result := Ok((extra + 3, 0));
    } else if symbol == 18 {
      var extra :- r.Read(7);
      result := Ok((extra + 11, 0));
    } else {
      result := Rejected;
    }
  }

  /** One code length symbol: a length, or a run of them. */
  method OneOp(ch: Huff, r: Bits, all: array<nat>, at: nat) returns (result: Result<nat>)
    requires ch.Valid() && r.Valid() && at < all.Length
    modifies r`Position, all
    ensures r.Valid()
    ensures var spec := NextOp(ch.lengths, r.Stream(), old(r.Position), old(all[..at]), all.Length);
      && result.Ok? == spec.Ok?
      && (result.Ok? ==>
            && at < result.value <= all.Length && r.Position == spec.value.1
            && all[..result.value] == old(all[..at]) + OpLengths(old(all[..at]), spec.value.0))
  {
    hide SymbolAt, StreamBits, Huff.Valid;
    var symbol :- ch.Decode(r);
    if symbol <= 15 {
      all[at] := symbol;
      assert all[..at + 1] == old(all[..at]) + [symbol];
      return Ok(at + 1);
    }
    var run :- RunOf(r, symbol, all, at);
    if run.0 > all.Length - at {
      return Rejected;
    }
    Fill(all, at, run.0, run.1);
    result := Ok(at + run.0);
  }

  method CodeLengths(ch: Huff, r: Bits, total: nat) returns (result: Result<seq<nat>>)
    requires ch.Valid() && r.Valid()
    modifies r`Position
    ensures r.Valid()
    ensures var spec := ReadOps(ch.lengths, r.Stream(), old(r.Position), [], total);
      && result.Ok? == spec.Ok?
      && (result.Ok? ==> result.value == spec.value.0 && r.Position == spec.value.1)
  {
    hide NextOp, StreamBits, Huff.Valid, OpLengths;
    ghost var spec := ReadOps(ch.lengths, r.Stream(), r.Position, [], total);
    var all := new nat[total](_ => 0);
    var at := 0;
    assert all[..0] == [];
    while at < total
      invariant r.Valid() && at <= total
      invariant ReadOps(ch.lengths, r.Stream(), r.Position, all[..at], total) == spec
    {
      at :- OneOp(ch, r, all, at);
    }
    result := Ok(all[..]);
  }

  /** Header of a dynamic block: its literal and distance code lengths. The end-of-block
      check comes first, the two tables are built from the result. */
  method DynamicTables(r: Bits) returns (result: Result<(Huff, Huff)>)
    requires r.Valid()
    modifies r`Position
    ensures r.Valid()
    ensures var spec := ReadHeader(r.Stream(), old(r.Position));
      && result.Ok? == spec.Ok?
      && (result.Ok? ==>
            && result.value.0.Valid() && result.value.1.Valid()
            && (result.value.0.lengths, result.value.1.lengths) == spec.value.0 && r.Position == spec.value.1)
  {
    hide FieldAt, StreamBits, ReadClc, ReadOps, Scatter, Admissible, Huff.Valid;
    var hlit :- r.Read(5);
    var hdist :- r.Read(5);
    var hclen :- r.Read(4);
    assert Pow2(4) == 16;
    var nl, nd, nc := hlit + 257, hdist + 1, hclen + 4;
    if nl > 286 {
      return Rejected;
    }
    var cl :- CodeLengthCode(r, nc);
    var ch :- BuildHuff(cl, false, false);
    var all :- CodeLengths(ch, r, nl + nd);
    var lit, dist := all[..nl], all[nl..];
    if lit[256] == 0 {
      return Rejected;
    }
    var lh :- BuildHuff(lit, false, true);
    var dh :- BuildHuff(dist, true, true);
    result := Ok((lh, dh));
  }

  // --- compressed blocks ---

  lemma SmallMultiple(d: int, m: int)
    requires d > 0 && -d < d * m < d
    ensures m == 0
  {
    MultipleGrows(d, m);
    MultipleGrows(d, -m);
    assert d * -m == -(d * m);
  }

  lemma {:induction false} MultipleGrows(d: int, m: int)
    requires d > 0
    ensures m > 0 ==> d * m >= d
    decreases if m > 0 then m else 0
  {
    if m > 1 {
      MultipleGrows(d, m - 1);
      assert d * m == d * (m - 1) + d;
    }
  }

  /** One period earlier the same byte is repeated. */
  lemma RepeatedBack(out: seq<byte>, d: nat, k: nat)
    requires 0 < d <= |out| && d <= k
    ensures Repeated(out, d, k - d) == Repeated(out, d, k)
  {
    var x := k - d;
    var m := k / d - x / d - 1;
    assert d * m == d * (k / d) - d * (x / d) - d;
    SmallMultiple(d, m);
  }

  lemma RepeatedStart(out: seq<byte>, d: nat, k: nat)
    requires 0 < d <= |out| && k < d
    ensures Repeated(out, d, k) == out[|out| - d + k]
  {
    SmallMod(k, d);
  }

  lemma SmallMod(k: nat, d: nat)
    requires k < d
    ensures k % d == k
  {
  }

  /** Copies `len` bytes from `distance` back, one byte at a time, so that a copy longer
      than its distance repeats what it has just written. */
  method CopyBack(output: array<byte>, used: nat, distance: nat, len: nat)
    requires 0 < distance <= used && used + len <= output.Length
    modifies output
    ensures output[..used + len] == old(output[..used]) + Periodic(old(output[..used]), distance, len)
  {
    hide Repeated;
    ghost var out := output[..used];
    for i := 0 to len
      invariant output[..used] == out
      invariant forall k :: 0 <= k < i ==> output[used + k] == Repeated(out, distance, k)
    {
      if i >= distance {
        RepeatedBack(out, distance, i);
        assert output[used + (i - distance)] == Repeated(out, distance, i - distance);
      } else {
        RepeatedStart(out, distance, i);
        assert output[..used][used - distance + i] == output[used - distance + i];
      }
      output[used + i] := output[used + i - distance];
    }
    assert output[..used + len] == out + Periodic(out, distance, len);
  }

  /** The rest of a copy whose length symbol has been decoded. */
  method CopyToken(dh: Huff, r: Bits, output: array<byte>, used: nat, lx: nat) returns (result: Result<nat>)
    requires dh.Valid() && r.Valid() && used <= output.Length && lx < |LENGTH_EXTRA|
    modifies r`Position, output
    ensures r.Valid()
    ensures var spec := CopyTail(dh.lengths, r.Stream(), old(r.Position), lx);
      && (result.Ok? <==> spec.Ok? && spec.value.0.LegalAfter(used, output.Length))
      && (result.Ok? ==>
            && used <= result.value <= output.Length && r.Position == spec.value.1
            && output[..result.value] == Expand(old(output[..used]), spec.value.0))
  {
    hide FieldAt, SymbolAt, StreamBits, Huff.Valid, Periodic, LENGTH_BASE, LENGTH_EXTRA, DISTANCE_BASE, DISTANCE_EXTRA;
    AlphabetSizes();
    var le :- r.Read(LENGTH_EXTRA[lx]);
    var len := LENGTH_BASE[lx] + le;
    var dx :- dh.Decode(r);
    if dx >= 30 {
      return Rejected;
    }
    var de :- r.Read(DISTANCE_EXTRA[dx]);
    var distance := DISTANCE_BASE[dx] + de;
    ghost var t := Copy(lx, le, dx, de);
    assert t.WellFormed() && t.Length() == len && t.Distance() == distance;
    if !(distance <= used && distance <= 32768 && len <= output.Length - used) {
      return Rejected;
    }
    CopyBack(output, used, distance, len);
    result := Ok(used + len);
  }

  /** The tokens of a compressed block, up to its end-of-block symbol. */
  method BlockBody(lh: Huff, dh: Huff, r: Bits, output: array<byte>, used: nat) returns (result: Result<nat>)
    requires lh.Valid() && dh.Valid() && r.Valid() && used <= output.Length
    modifies r`Position, output
    ensures r.Valid()
    ensures Agrees(result, output[..], r.Position,
                   ReadTokens(lh.lengths, dh.lengths, r.Stream(), old(r.Position), old(output[..used]), output.Length))
  {
    hide SymbolAt, StreamBits, Huff.Valid, CopyTail, Token.LegalAfter, Expand;
    ghost var s := r.Stream();
    ghost var spec := ReadTokens(lh.lengths, dh.lengths, s, r.Position, output[..used], output.Length);
    var at: nat := used;
    while true
      invariant r.Valid() && at <= output.Length
      invariant ReadTokens(lh.lengths, dh.lengths, s, r.Position, output[..at], output.Length) == spec
      decreases |s| - r.Position
    {
      ghost var out := output[..at];
      var symbol :- lh.Decode(r);
      if symbol < 256 {
        LiteralStep(out, symbol, output.Length);
        if at >= output.Length {
          return Rejected;
        }
        output[at] := symbol;
        at := at + 1;
        assert output[..at] == out + [symbol];
      } else if symbol == 256 {
        return Ok(at);
      } else if symbol > 285 {
        return Rejected;
      } else {
        at :- CopyToken(dh, r, output, at, symbol - 257);
      }
    }
  }

  lemma LiteralStep(out: seq<byte>, b: byte, limit: nat)
    ensures Literal(b).LegalAfter(|out|, limit) <==> |out| < limit
    ensures Expand(out, Literal(b)) == out + [b]
  {
  }

  method OneBlock(r: Bits, kind: nat, output: array<byte>, used: nat) returns (result: Result<nat>)
    requires r.Valid() && used <= output.Length
    modifies r`Position, output
    ensures r.Valid()
    ensures Agrees(result, output[..], r.Position,
                   ReadPayload(r.Stream(), old(r.Position), kind, old(output[..used]), output.Length))
  {
    hide ReadStored, ReadTokens, ReadHeader, Huff.Valid, Admissible, FixedLiterals, FixedDistances, StreamBits;
    if kind == 0 {
      result := StoredBlock(r, output, used);
    } else if kind == 1 {
      FixedTablesComplete();
      var lh := BuildHuff(FixedLiterals(), false, true);
      var dh := BuildHuff(FixedDistances(), true, true);
      result := BlockBody(lh.value, dh.value, r, output, used);
    } else if kind == 2 {
      var tables :- DynamicTables(r);
      result := BlockBody(tables.0, tables.1, r, output, used);
    } else {
      result := Rejected;
    }
  }

  lemma PayloadAdvances(s: seq<bit>, pos: nat, kind: nat, out: seq<byte>, limit: nat)
    requires 3 <= pos <= |s| && ReadPayload(s, pos, kind, out, limit).Ok?
    ensures ReadPayload(s, pos, kind, out, limit).value.1 >= pos
  {
    hide ReadPayload, Block.Legal, Block.PayloadBits, Block.Output, At;
    var b := ReadPayloadSound(s, pos, kind, out, limit);
  }

  /** The blocks up to the final one. Each takes at least three bits, so the bits run out
      even without the quota. */
  method Blocks(r: Bits, output: array<byte>) returns (result: Result<nat>)
    requires r.Valid() && r.Position == 0
    modifies r`Position, output
    ensures r.Valid()
    ensures Agrees(result, output[..], r.Position, ReadBlocks(r.Stream(), 0, [], output.Length, BLOCK_QUOTA))
  {
    hide FieldAt, ReadPayload, StreamBits;
    ghost var s := r.Stream();
    ghost var spec := ReadBlocks(s, 0, [], output.Length, BLOCK_QUOTA);
    var used: nat, blocks := 0, 0;
    assert output[..0] == [];
    while true
      invariant r.Valid() && used <= output.Length && blocks <= BLOCK_QUOTA
      invariant ReadBlocks(s, r.Position, output[..used], output.Length, BLOCK_QUOTA - blocks) == spec
      decreases |s| - r.Position
    {
      blocks := blocks + 1;
      if blocks > BLOCK_QUOTA {
        return Rejected;
      }
      var final :- r.Read(1);
      var kind :- r.Read(2);
      ghost var from := r.Position;
      ghost var out := output[..used];
      used :- OneBlock(r, kind, output, used);
      PayloadAdvances(s, from, kind, out, output.Length);
      if final != 0 {
        return Ok(used);
      }
    }
  }

  datatype Inflated = Inflated(output: seq<byte>, consumedBits: nat)

  /** Decodes the window of `compressed` bytes at `offset` into exactly `expected` bytes.
      The result is exact in both directions: any encoding of `expected` bytes that fills
      the window decodes to the bytes it stands for and to its own bit length, and
      whatever decodes is such an encoding. */
  method Inflate(input: seq<byte>, offset: int, compressed: int, expected: int) returns (r: Result<Inflated>)
    ensures r.Ok? ==> 0 <= offset && 0 <= compressed && offset + compressed <= |input|
    ensures 0 <= offset && 0 <= compressed && offset + compressed <= |input| ==>
      var window := input[offset..offset + compressed];
      && (forall blocks :: Encodes(blocks, window, expected) ==>
            r == Ok(Inflated(BlocksOutput(blocks, []), |BlocksBits(blocks)|)))
      && (r.Ok? ==> exists blocks :: Encodes(blocks, window, expected))
  {
    hide LegalBlocks, BlocksOutput, BlocksBits, StreamBits, At, ReadBlocks, Encodes;
    if !(0 <= offset && 0 <= compressed && offset <= |input| - compressed) {
      return Rejected;
    }
    ghost var window := input[offset..offset + compressed];
    if !(0 <= expected <= MEMBER_LIMIT) {
      NothingExpected(window, expected);
      return Rejected;
    }
    var output := new byte[expected](_ => 0);
    var bits := new Bits(input, offset, compressed);
    var used := Blocks(bits, output);
    ReadsExactly(window, expected);
    if used.Rejected? || used.value != expected || (bits.Position + 7) / 8 != compressed {
      return Rejected;
    }
    assert output[..expected] == output[..];
    r := Ok(Inflated(output[..], bits.Position));
  }

  /** What reading the window's blocks says about its encodings. */
  lemma {:induction false} ReadsExactly(window: seq<byte>, expected: nat)
    requires expected <= MEMBER_LIMIT
    ensures var read := ReadBlocks(StreamBits(window), 0, [], expected, BLOCK_QUOTA);
      && (forall blocks :: Encodes(blocks, window, expected) ==>
            && read == Ok((BlocksOutput(blocks, []), |BlocksBits(blocks)|))
            && |read.value.0| == expected && (read.value.1 + 7) / 8 == |window|)
      && (read.Ok? && |read.value.0| == expected && (read.value.1 + 7) / 8 == |window| ==>
            exists blocks :: Encodes(blocks, window, expected))
  {
    hide LegalBlocks, BlocksOutput, BlocksBits, StreamBits, At, ReadBlocks;
    var s := StreamBits(window);
    var read := ReadBlocks(s, 0, [], expected, BLOCK_QUOTA);
    forall blocks | Encodes(blocks, window, expected)
      ensures read == Ok((BlocksOutput(blocks, []), |BlocksBits(blocks)|))
      ensures |read.value.0| == expected && (read.value.1 + 7) / 8 == |window|
    {
      ReadBlocksComplete(s, 0, blocks, [], expected, BLOCK_QUOTA);
    }
    if read.Ok? && |read.value.0| == expected && (read.value.1 + 7) / 8 == |window| {
      AddressableIfRead(s, expected);
      var blocks := ReadBlocksSound(s, 0, [], expected, BLOCK_QUOTA);
      assert Encodes(blocks, window, expected);
    }
  }

  lemma NothingExpected(window: seq<byte>, expected: int)
    requires !(0 <= expected <= MEMBER_LIMIT)
    ensures !exists blocks :: Encodes(blocks, window, expected)
  {
  }

  lemma {:induction false} AddressableIfRead(s: seq<bit>, limit: nat)
    requires ReadBlocks(s, 0, [], limit, BLOCK_QUOTA).Ok?
    ensures |s| <= INT_MAX
  {
    hide ReadPayload;
  }
}
