/** Reading a DEFLATE stream from the front, as functions of the bit sequence, and the
    proof that reading and writing are inverse: a reader accepts exactly the encodings
    the format allows, and recovers what they stand for. */
module DeflateReading {
  import opened Prelude
  import opened BitStrings
  import opened BitReader
  import opened CanonicalCode
  import opened Huffman
  import opened DeflateFormat

  /** A window short enough for the reader's 32-bit position arithmetic. */
  predicate Addressable(s: seq<bit>) {
    |s| <= INT_MAX
  }

  // --- fields and symbols ---

  lemma {:induction false} FieldIff(s: seq<bit>, pos: nat, n: nat, v: nat)
    requires n <= 16
    ensures FieldAt(s, pos, n) == Ok(v) <==> Addressable(s) && v < Pow2(n) && At(s, pos, LsbBits(v, n))
  {
    if pos + n <= |s| {
      LsbBitsOfValue(s, pos, n);
      if v < Pow2(n) && At(s, pos, LsbBits(v, n)) {
        LsbOfWord(s, pos, LsbBits(v, n), n);
        LsbRoundTrip(v, n);
      }
    }
  }

  lemma SymbolIff(lengths: seq<nat>, s: seq<bit>, pos: nat, sym: nat)
    requires Fits(lengths)
    ensures SymbolAt(lengths, s, pos) == Ok(sym)
       <==> Addressable(s) && HasCode(lengths, sym) && At(s, pos, Word(lengths, sym))
  {
    if HasCode(lengths, sym) {
      CodewordIffWord(lengths, s, pos, sym);
      if Addressable(s) && Codeword(lengths, s, pos, sym) {
        SymbolAtCodeword(lengths, s, pos, sym);
      }
    }
  }

  // --- code length ops ---

  ghost function NextOp(cl: seq<nat>, s: seq<bit>, pos: nat, all: seq<nat>, total: nat): (r: Result<(LengthOp, nat)>)
    ensures r.Ok? ==> pos < r.value.1 <= |s|
  {
    var symbol :- SymbolAt(cl, s, pos);
    if symbol > 18 || (symbol == 16 && |all| == 0) then Rejected
    else
      var extra :- FieldAt(s, pos + cl[symbol], OpExtraBits(symbol));
      var op := LengthOp(symbol, extra);
      if |all| + |OpLengths(all, op)| > total then Rejected
      else Ok((op, pos + cl[symbol] + OpExtraBits(symbol)))
  }

  /** Reads ops until `total` code lengths are known. */
  ghost function ReadOps(cl: seq<nat>, s: seq<bit>, pos: nat, all: seq<nat>, total: nat): (r: Result<(seq<nat>, nat)>)
    ensures r.Ok? ==> |r.value.0| == total
    decreases if pos < |s| then |s| - pos else 0
  {
    if |all| == total then Ok((all, pos))
    else
      var (op, next) :- NextOp(cl, s, pos, all, total);
      ReadOps(cl, s, next, all + OpLengths(all, op), total)
  }

  lemma NextOpIff(cl: seq<nat>, s: seq<bit>, pos: nat, all: seq<nat>, total: nat, op: LengthOp, next: nat)
    requires Fits(cl)
    ensures NextOp(cl, s, pos, all, total) == Ok((op, next))
       <==> Addressable(s) && LegalOp(cl, op, all, total) && At(s, pos, OpBits(cl, op))
            && next == pos + |OpBits(cl, op)|
  {
    hide At, LsbBits, Word, SymbolAt, FieldAt, Fits;
    SymbolIff(cl, s, pos, op.symbol);
    if HasCode(cl, op.symbol) {
      FieldIff(s, pos + cl[op.symbol], OpExtraBits(op.symbol), op.extra);
      AtConcat(s, pos, Word(cl, op.symbol), LsbBits(op.extra, OpExtraBits(op.symbol)));
    }
  }

  lemma {:induction false} ReadOpsComplete(cl: seq<nat>, s: seq<bit>, pos: nat, ops: seq<LengthOp>, all: seq<nat>,
                                           total: nat)
    requires Fits(cl) && Addressable(s) && LegalOps(cl, ops, all, total) && At(s, pos, OpsBits(cl, ops))
    ensures ReadOps(cl, s, pos, all, total) == Ok((OpsLengths(ops, all), pos + |OpsBits(cl, ops)|))
    decreases |ops|
  {
    hide OpBits, OpLengths, NextOp, At;
    if |ops| > 0 {
      var bits := OpBits(cl, ops[0]);
      AtConcat(s, pos, bits, OpsBits(cl, ops[1..]));
      NextOpIff(cl, s, pos, all, total, ops[0], pos + |bits|);
      ReadOpsComplete(cl, s, pos + |bits|, ops[1..], all + OpLengths(all, ops[0]), total);
    }
  }

  lemma {:induction false} ReadOpsSound(cl: seq<nat>, s: seq<bit>, pos: nat, all: seq<nat>, total: nat)
    returns (ops: seq<LengthOp>)
    requires Fits(cl) && pos <= |s| && ReadOps(cl, s, pos, all, total).Ok?
    ensures LegalOps(cl, ops, all, total) && At(s, pos, OpsBits(cl, ops))
    ensures ReadOps(cl, s, pos, all, total) == Ok((OpsLengths(ops, all), pos + |OpsBits(cl, ops)|))
    decreases if pos < |s| then |s| - pos else 0
  {
    hide OpBits, OpLengths, NextOp, LegalOp;
    if |all| == total {
      ops := [];
    } else {
      var (op, next) := NextOp(cl, s, pos, all, total).value;
      NextOpIff(cl, s, pos, all, total, op, next);
      var rest := ReadOpsSound(cl, s, next, all + OpLengths(all, op), total);
      ops := [op] + rest;
      assert ops[1..] == rest;
      AtConcat(s, pos, OpBits(cl, op), OpsBits(cl, rest));
    }
  }

  // --- tokens ---

  /** The rest of a copy token whose length symbol, the `lx`-th, ends at `p`. */
  ghost function CopyTail(dist: seq<nat>, s: seq<bit>, p: nat, lx: nat): (r: Result<(Token, nat)>)
    requires lx < |LENGTH_EXTRA|
    ensures r.Ok? ==> p < r.value.1 <= |s| && r.value.0.Copy? && r.value.0.lengthIndex == lx
  {
    var le :- FieldAt(s, p, LENGTH_EXTRA[lx]);
    var q := p + LENGTH_EXTRA[lx];
    var dx :- SymbolAt(dist, s, q);
    if dx >= 30 then Rejected
    else
      var de :- FieldAt(s, q + dist[dx], DISTANCE_EXTRA[dx]);
      Ok((Copy(lx, le, dx, de), q + dist[dx] + DISTANCE_EXTRA[dx]))
  }

  /** The next token, or None for the end of the block. */
  ghost function NextToken(lit: seq<nat>, dist: seq<nat>, s: seq<bit>, pos: nat): (r: Result<(Option<Token>, nat)>)
    ensures r.Ok? ==> pos < r.value.1 <= |s|
  {
    var symbol :- SymbolAt(lit, s, pos);
    var p := pos + lit[symbol];
    if symbol < 256 then Ok((Some(Literal(symbol)), p))
    else if symbol == 256 then Ok((None, p))
    else if symbol > 285 then Rejected
    else
      var (t, next) :- CopyTail(dist, s, p, symbol - 257);
      Ok((Some(t), next))
  }

  ghost function ReadTokens(lit: seq<nat>, dist: seq<nat>, s: seq<bit>, pos: nat, out: seq<byte>, limit: nat)
    : (r: Result<(seq<byte>, nat)>)
    decreases if pos < |s| then |s| - pos else 0
  {
    var (token, next) :- NextToken(lit, dist, s, pos);
    match token
    case None => Ok((out, next))
    case Some(t) =>
      if t.LegalAfter(|out|, limit) then ReadTokens(lit, dist, s, next, Expand(out, t), limit)
      else Rejected
  }

  lemma EndTokenIff(lit: seq<nat>, dist: seq<nat>, s: seq<bit>, pos: nat, next: nat)
    requires Fits(lit)
    ensures NextToken(lit, dist, s, pos) == Ok((None, next))
       <==> Addressable(s) && HasCode(lit, 256) && At(s, pos, Word(lit, 256)) && next == pos + |Word(lit, 256)|
  {
    SymbolIff(lit, s, pos, 256);
  }

  lemma LiteralTokenIff(lit: seq<nat>, dist: seq<nat>, s: seq<bit>, pos: nat, b: byte, next: nat)
    requires Fits(lit)
    ensures NextToken(lit, dist, s, pos) == Ok((Some(Literal(b)), next))
       <==> Addressable(s) && HasCode(lit, b) && At(s, pos, Word(lit, b)) && next == pos + |Word(lit, b)|
  {
    SymbolIff(lit, s, pos, b);
  }

  /** Everything of a copy token after its length symbol. */
  ghost function TailBits(dist: seq<nat>, t: Token): (s: seq<bit>)
    requires t.Copy? && t.WellFormed()
  {
    LsbBits(t.lengthExtra, LENGTH_EXTRA[t.lengthIndex])
      + (Word(dist, t.distanceIndex) + LsbBits(t.distanceExtra, DISTANCE_EXTRA[t.distanceIndex]))
  }

  lemma TailParts(dist: seq<nat>, s: seq<bit>, p: nat, t: Token)
    requires t.Copy? && t.WellFormed() && HasCode(dist, t.distanceIndex)
    ensures var Copy(lx, le, dx, de) := t;
      var q := p + LENGTH_EXTRA[lx];
      && |TailBits(dist, t)| == LENGTH_EXTRA[lx] + dist[dx] + DISTANCE_EXTRA[dx]
      && (At(s, p, TailBits(dist, t)) <==>
            && At(s, p, LsbBits(le, LENGTH_EXTRA[lx])) && At(s, q, Word(dist, dx))
            && At(s, q + dist[dx], LsbBits(de, DISTANCE_EXTRA[dx])))
  {
    hide At, LsbBits, Word, LENGTH_BASE, LENGTH_EXTRA, DISTANCE_BASE, DISTANCE_EXTRA;
    AlphabetSizes();
    var Copy(lx, le, dx, de) := t;
    var q := p + LENGTH_EXTRA[lx];
    var end := Word(dist, dx) + LsbBits(de, DISTANCE_EXTRA[dx]);
    AtConcat(s, q, Word(dist, dx), LsbBits(de, DISTANCE_EXTRA[dx]));
    AtConcat(s, p, LsbBits(le, LENGTH_EXTRA[lx]), end);
  }

  lemma CopyTailIff(dist: seq<nat>, s: seq<bit>, p: nat, t: Token, next: nat)
    requires Fits(dist) && t.Copy? && t.lengthIndex < |LENGTH_EXTRA|
    ensures CopyTail(dist, s, p, t.lengthIndex) == Ok((t, next))
       <==> Addressable(s) && t.WellFormed() && HasCode(dist, t.distanceIndex) && At(s, p, TailBits(dist, t))
            && next == p + |TailBits(dist, t)|
  {
    hide At, LsbBits, Word, SymbolAt, FieldAt, TailBits, Fits, LENGTH_BASE, LENGTH_EXTRA, DISTANCE_BASE, DISTANCE_EXTRA;
    AlphabetSizes();
    var Copy(lx, le, dx, de) := t;
    var q := p + LENGTH_EXTRA[lx];
    FieldIff(s, p, LENGTH_EXTRA[lx], le);
    SymbolIff(dist, s, q, dx);
    if HasCode(dist, dx) && dx < 30 {
      FieldIff(s, q + dist[dx], DISTANCE_EXTRA[dx], de);
      if t.WellFormed() {
        TailParts(dist, s, p, t);
      }
    }
  }

  lemma CopyTokenIff(lit: seq<nat>, dist: seq<nat>, s: seq<bit>, pos: nat, t: Token, next: nat)
    requires Fits(lit) && Fits(dist) && t.Copy?
    ensures NextToken(lit, dist, s, pos) == Ok((Some(t), next))
       <==> Addressable(s) && t.WellFormed() && Codable(lit, dist, t) && At(s, pos, TokenBits(lit, dist, t))
            && next == pos + |TokenBits(lit, dist, t)|
  {
    hide At, LsbBits, SymbolAt, CopyTail, Fits, Word, TailBits, TokenBits, LENGTH_BASE, LENGTH_EXTRA, DISTANCE_BASE,
        DISTANCE_EXTRA;
    AlphabetSizes();
    var lx := t.lengthIndex;
    SymbolIff(lit, s, pos, 257 + lx);
    if lx < |LENGTH_EXTRA| && HasCode(lit, 257 + lx) {
      CopyTailIff(dist, s, pos + lit[257 + lx], t, next);
      if t.WellFormed() {
        TokenParts(lit, dist, s, pos, t);
      }
    }
  }

  lemma TokenParts(lit: seq<nat>, dist: seq<nat>, s: seq<bit>, pos: nat, t: Token)
    requires Fits(lit) && Fits(dist) && t.Copy? && t.WellFormed() && HasCode(lit, 257 + t.lengthIndex)
    ensures var n := lit[257 + t.lengthIndex];
            && |TokenBits(lit, dist, t)| == n + |TailBits(dist, t)|
            && (At(s, pos, TokenBits(lit, dist, t)) <==>
                  At(s, pos, Word(lit, 257 + t.lengthIndex)) && At(s, pos + n, TailBits(dist, t)))
  {
    hide At, LsbBits, Fits, LENGTH_BASE, LENGTH_EXTRA, DISTANCE_BASE, DISTANCE_EXTRA;
    assert TokenBits(lit, dist, t) == Word(lit, 257 + t.lengthIndex) + TailBits(dist, t);
    AtConcat(s, pos, Word(lit, 257 + t.lengthIndex), TailBits(dist, t));
  }

  lemma TokenIff(lit: seq<nat>, dist: seq<nat>, s: seq<bit>, pos: nat, t: Token, next: nat)
    requires Fits(lit) && Fits(dist)
    ensures NextToken(lit, dist, s, pos) == Ok((Some(t), next))
       <==> Addressable(s) && t.WellFormed() && Codable(lit, dist, t) && At(s, pos, TokenBits(lit, dist, t))
            && next == pos + |TokenBits(lit, dist, t)|
  {
    hide NextToken, At;
    if t.Literal? {
      LiteralTokenIff(lit, dist, s, pos, t.b, next);
    } else {
      CopyTokenIff(lit, dist, s, pos, t, next);
    }
  }

  lemma {:induction false} ReadTokensComplete(lit: seq<nat>, dist: seq<nat>, s: seq<bit>, pos: nat,
                                              ts: seq<Token>, out: seq<byte>, limit: nat)
    requires Fits(lit) && Fits(dist) && Addressable(s) && HasCode(lit, END_OF_BLOCK)
    requires CodableAll(lit, dist, ts) && LegalTokens(ts, out, limit) && At(s, pos, BodyBits(lit, dist, ts))
    ensures ReadTokens(lit, dist, s, pos, out, limit)
         == Ok((ExpandAll(out, ts), pos + |BodyBits(lit, dist, ts)|))
    decreases |ts|
  {
    hide TokenBits, Expand, NextToken, Codable, Word, Token.WellFormed, LENGTH_BASE;
    if |ts| == 0 {
      EndTokenIff(lit, dist, s, pos, pos + |Word(lit, 256)|);
    } else {
      var bits := TokenBits(lit, dist, ts[0]);
      AtConcat(s, pos, bits, BodyBits(lit, dist, ts[1..]));
      TokenIff(lit, dist, s, pos, ts[0], pos + |bits|);
      ReadTokensComplete(lit, dist, s, pos + |bits|, ts[1..], Expand(out, ts[0]), limit);
    }
  }

  lemma {:induction false} ReadTokensSound(lit: seq<nat>, dist: seq<nat>, s: seq<bit>, pos: nat, out: seq<byte>,
                                           limit: nat)
    returns (ts: seq<Token>)
    requires Fits(lit) && Fits(dist) && ReadTokens(lit, dist, s, pos, out, limit).Ok?
    ensures CodableAll(lit, dist, ts) && LegalTokens(ts, out, limit) && At(s, pos, BodyBits(lit, dist, ts))
    ensures ReadTokens(lit, dist, s, pos, out, limit)
         == Ok((ExpandAll(out, ts), pos + |BodyBits(lit, dist, ts)|))
    decreases if pos < |s| then |s| - pos else 0
  {
    hide TokenBits, Expand, NextToken, Codable, Word, Token.WellFormed, LENGTH_BASE;
    var (token, next) := NextToken(lit, dist, s, pos).value;
    match token
    case None =>
      EndTokenIff(lit, dist, s, pos, next);
      ts := [];
    case Some(t) =>
      TokenIff(lit, dist, s, pos, t, next);
      var rest := ReadTokensSound(lit, dist, s, next, Expand(out, t), limit);
      ts := [t] + rest;
      assert ts[1..] == rest;
      AtConcat(s, pos, TokenBits(lit, dist, t), BodyBits(lit, dist, rest));
  }

  // --- dynamic headers ---

  /** Reads three-bit code length code lengths until `n` are known. */
  ghost function ReadClc(s: seq<bit>, pos: nat, clc: seq<nat>, n: nat): (r: Result<(seq<nat>, nat)>)
    requires |clc| <= n
    ensures r.Ok? ==> |r.value.0| == n && pos <= r.value.1 && (pos <= |s| ==> r.value.1 <= |s|)
    decreases n - |clc|
  {
    if |clc| == n then Ok((clc, pos))
    else
      var l :- FieldAt(s, pos, 3);
      ReadClc(s, pos + 3, clc + [l], n)
  }

  predicate ThreeBit(clc: seq<nat>) {
    forall i :: 0 <= i < |clc| ==> clc[i] < 8
  }

  lemma {:induction false} ReadClcComplete(s: seq<bit>, pos: nat, clc: seq<nat>, rest: seq<nat>)
    requires Addressable(s) && ThreeBit(rest) && At(s, pos, ClcBits(rest))
    ensures ReadClc(s, pos, clc, |clc| + |rest|) == Ok((clc + rest, pos + |ClcBits(rest)|))
    decreases |rest|
  {
    hide At, LsbBits, FieldAt;
    if |rest| == 0 {
      assert clc + rest == clc;
    } else {
      assert Pow2(3) == 8;
      AtConcat(s, pos, LsbBits(rest[0], 3), ClcBits(rest[1..]));
      FieldIff(s, pos, 3, rest[0]);
      ReadClcComplete(s, pos + 3, clc + [rest[0]], rest[1..]);
      assert clc + [rest[0]] + rest[1..] == clc + rest;
    }
  }

  lemma {:induction false} ReadClcSound(s: seq<bit>, pos: nat, clc: seq<nat>, n: nat) returns (rest: seq<nat>)
    requires |clc| <= n && pos <= |s| && ReadClc(s, pos, clc, n).Ok?
    ensures ThreeBit(rest) && At(s, pos, ClcBits(rest)) && |clc| + |rest| == n
    ensures ReadClc(s, pos, clc, n) == Ok((clc + rest, pos + |ClcBits(rest)|))
    decreases n - |clc|
  {
    hide At, LsbBits;
    if |clc| == n {
      rest := [];
      assert clc + rest == clc;
      AtNothing(s, pos);
    } else {
      var l := FieldAt(s, pos, 3).value;
      assert Pow2(3) == 8;
      FieldIff(s, pos, 3, l);
      var more := ReadClcSound(s, pos + 3, clc + [l], n);
      rest := [l] + more;
      assert rest[1..] == more;
      assert clc + [l] + more == clc + rest;
      AtConcat(s, pos, LsbBits(l, 3), ClcBits(more));
    }
  }

  /** The tables after the fixed-width fields of a header. */
  ghost function ReadTables(s: seq<bit>, pos: nat, hlit: nat, hdist: nat, n: nat)
    : (r: Result<((seq<nat>, seq<nat>), nat)>)
  {
    var (clc, p) :- ReadClc(s, pos, [], n);
    if !Admissible(Scatter(clc), false, false) then Rejected
    else
      var (all, q) :- ReadOps(Scatter(clc), s, p, [], hlit + 257 + (hdist + 1));
      var lit, dist := all[..hlit + 257], all[hlit + 257..];
      if LegalTables(lit, dist) then Ok(((lit, dist), q)) else Rejected
  }

  ghost function ReadHeader(s: seq<bit>, pos: nat): (r: Result<((seq<nat>, seq<nat>), nat)>)
    ensures r.Ok? ==> LegalTables(r.value.0.0, r.value.0.1)
  {
    var hlit :- FieldAt(s, pos, 5);
    var hdist :- FieldAt(s, pos + 5, 5);
    var hclen :- FieldAt(s, pos + 10, 4);
    if hlit + 257 > 286 then Rejected
    else ReadTables(s, pos + 14, hlit, hdist, hclen + 4)
  }

  /** Everything of a header after its fixed-width fields. */
  function TablesBits(h: Header): (s: seq<bit>) {
    ClcBits(h.clc) + OpsBits(Scatter(h.clc), h.ops)
  }

  lemma ReadTablesComplete(s: seq<bit>, pos: nat, h: Header)
    requires Addressable(s) && LegalHeader(h) && At(s, pos, TablesBits(h))
    ensures ReadTables(s, pos, h.hlit, h.hdist, |h.clc|) == Ok((HeaderTables(h), pos + |TablesBits(h)|))
  {
    hide At, Scatter, Admissible, LegalTables, ReadClc, ReadOps, ClcBits, OpsBits, LegalOps, OpsLengths;
    var cl := Scatter(h.clc);
    AtConcat(s, pos, ClcBits(h.clc), OpsBits(cl, h.ops));
    ReadClcComplete(s, pos, [], h.clc);
    assert [] + h.clc == h.clc;
    AdmissibleFits(cl, false, false);
    ReadOpsComplete(cl, s, pos + |ClcBits(h.clc)|, h.ops, [], h.Literals() + h.Distances());
  }

  lemma ReadTablesSound(s: seq<bit>, pos: nat, hlit: nat, hdist: nat, n: nat) returns (h: Header)
    requires hlit + 257 <= 286 && hdist < 32 && 4 <= n <= 19 && pos <= |s|
    requires ReadTables(s, pos, hlit, hdist, n).Ok?
    ensures h.hlit == hlit && h.hdist == hdist && |h.clc| == n && LegalHeader(h) && At(s, pos, TablesBits(h))
    ensures ReadTables(s, pos, hlit, hdist, n) == Ok((HeaderTables(h), pos + |TablesBits(h)|))
  {
    hide At, Scatter, Admissible, LegalTables, ReadClc, ReadOps, ClcBits, OpsBits, LegalOps, OpsLengths;
    var clc := ReadClcSound(s, pos, [], n);
    assert [] + clc == clc;
    var cl := Scatter(clc);
    AdmissibleFits(cl, false, false);
    var p := pos + |ClcBits(clc)|;
    var ops := ReadOpsSound(cl, s, p, [], hlit + 257 + (hdist + 1));
    h := Header(hlit, hdist, clc, ops);
    AtConcat(s, pos, ClcBits(clc), OpsBits(cl, ops));
  }

  lemma HeaderParts(s: seq<bit>, pos: nat, h: Header)
    requires 4 <= |h.clc|
    ensures |HeaderBits(h)| == 14 + |TablesBits(h)|
    ensures At(s, pos, HeaderBits(h)) <==>
      && At(s, pos, LsbBits(h.hlit, 5)) && At(s, pos + 5, LsbBits(h.hdist, 5))
      && At(s, pos + 10, LsbBits(|h.clc| - 4, 4)) && At(s, pos + 14, TablesBits(h))
  {
    hide At, LsbBits, ClcBits, OpsBits;
    var a, b, c := LsbBits(h.hlit, 5), LsbBits(h.hdist, 5), LsbBits(|h.clc| - 4, 4);
    AtConcat(s, pos, a, b + (c + TablesBits(h)));
    AtConcat(s, pos + 5, b, c + TablesBits(h));
    AtConcat(s, pos + 10, c, TablesBits(h));
  }

  lemma ReadHeaderComplete(s: seq<bit>, pos: nat, h: Header)
    requires Addressable(s) && LegalHeader(h) && At(s, pos, HeaderBits(h))
    ensures ReadHeader(s, pos) == Ok((HeaderTables(h), pos + |HeaderBits(h)|))
  {
    hide At, LsbBits, ClcBits, OpsBits, FieldAt, ReadTables, HeaderTables, LegalTables, TablesBits, HeaderBits;
    assert Pow2(5) == 32 && Pow2(4) == 16;
    HeaderParts(s, pos, h);
    FieldIff(s, pos, 5, h.hlit);
    FieldIff(s, pos + 5, 5, h.hdist);
    FieldIff(s, pos + 10, 4, |h.clc| - 4);
    ReadTablesComplete(s, pos + 14, h);
  }

  lemma ReadHeaderSound(s: seq<bit>, pos: nat) returns (h: Header)
    requires pos <= |s| && ReadHeader(s, pos).Ok?
    ensures LegalHeader(h) && At(s, pos, HeaderBits(h))
    ensures ReadHeader(s, pos) == Ok((HeaderTables(h), pos + |HeaderBits(h)|))
  {
    hide At, LsbBits, ClcBits, OpsBits, ReadTables, HeaderTables, LegalTables, TablesBits, HeaderBits, LegalHeader;
    var hlit, hdist, hclen := FieldAt(s, pos, 5).value, FieldAt(s, pos + 5, 5).value, FieldAt(s, pos + 10, 4).value;
    assert Pow2(5) == 32 && Pow2(4) == 16;
    FieldIff(s, pos, 5, hlit);
    FieldIff(s, pos + 5, 5, hdist);
    FieldIff(s, pos + 10, 4, hclen);
    h := ReadTablesSound(s, pos + 14, hlit, hdist, hclen + 4);
    HeaderParts(s, pos, h);
  }

  // --- stored blocks ---

  ghost function ReadBytes(s: seq<bit>, pos: nat, out: seq<byte>, n: nat): (r: Result<(seq<byte>, nat)>)
    decreases n
  {
    if n == 0 then Ok((out, pos))
    else
      assert Pow2(8) == 256;
      var b :- FieldAt(s, pos, 8);
      ReadBytes(s, pos + 8, out + [b], n - 1)
  }

  lemma {:induction false} ReadBytesComplete(s: seq<bit>, pos: nat, out: seq<byte>, data: seq<byte>)
    requires Addressable(s) && At(s, pos, DataBits(data))
    ensures ReadBytes(s, pos, out, |data|) == Ok((out + data, pos + |DataBits(data)|))
    decreases |data|
  {
    hide At, LsbBits, FieldAt;
    if |data| == 0 {
      assert out + data == out;
    } else {
      assert Pow2(8) == 256;
      AtConcat(s, pos, LsbBits(data[0], 8), DataBits(data[1..]));
      FieldIff(s, pos, 8, data[0]);
      ReadBytesComplete(s, pos + 8, out + [data[0]], data[1..]);
      assert out + [data[0]] + data[1..] == out + data;
    }
  }

  lemma {:induction false} ReadBytesSound(s: seq<bit>, pos: nat, out: seq<byte>, n: nat) returns (data: seq<byte>)
    requires pos <= |s| && ReadBytes(s, pos, out, n).Ok?
    ensures |data| == n && At(s, pos, DataBits(data))
    ensures ReadBytes(s, pos, out, n) == Ok((out + data, pos + |DataBits(data)|))
    decreases n
  {
    hide At, LsbBits;
    if n == 0 {
      data := [];
      assert out + data == out;
      AtNothing(s, pos);
    } else {
      var b := FieldAt(s, pos, 8).value;
      assert Pow2(8) == 256;
      FieldIff(s, pos, 8, b);
      var more := ReadBytesSound(s, pos + 8, out + [b], n - 1);
      data := [b] + more;
      assert data[1..] == more;
      assert out + [b] + more == out + data;
      AtConcat(s, pos, LsbBits(b, 8), DataBits(more));
    }
  }

  lemma AtNothing(s: seq<bit>, pos: nat)
    requires pos <= |s|
    ensures At(s, pos, [])
  {
  }

  /** A stored block after its three header bits. */
  ghost function ReadStored(s: seq<bit>, pos: nat, out: seq<byte>, limit: nat): (r: Result<(seq<byte>, nat)>) {
    var p := pos + AlignSkip(pos);
    var _ :- FieldAt(s, pos, AlignSkip(pos));
    var len :- FieldAt(s, p, 16);
    var inverse :- FieldAt(s, p + 16, 16);
    if len + inverse != 65535 || |out| + len > limit then Rejected
    else ReadBytes(s, p + 32, out, len)
  }

  lemma {:induction false} StoredParts(s: seq<bit>, pos: nat, padding: seq<bit>, data: seq<byte>)
    requires |data| <= 65535
    ensures var p := pos + |padding|;
      && |padding + StoredBits(data)| == |padding| + 32 + |DataBits(data)|
      && (At(s, pos, padding + StoredBits(data)) <==>
            && At(s, pos, padding) && At(s, p, LsbBits(|data|, 16))
            && At(s, p + 16, LsbBits(65535 - |data|, 16)) && At(s, p + 32, DataBits(data)))
  {
    hide At, LsbBits, DataBits;
    var p := pos + |padding|;
    var a, b := LsbBits(|data|, 16), LsbBits(65535 - |data|, 16);
    AtConcat(s, p + 16, b, DataBits(data));
    AtConcat(s, p, a, b + DataBits(data));
    AtConcat(s, pos, padding, StoredBits(data));
  }

  lemma FieldOfBits(s: seq<bit>, pos: nat, w: seq<bit>)
    requires Addressable(s) && At(s, pos, w) && |w| <= 16
    ensures FieldAt(s, pos, |w|).Ok?
  {
  }

  lemma SixteenBits()
    ensures Pow2(16) == 65536
  {
    assert Pow2(8) == 256;
    assert Pow2(12) == 16 * Pow2(8);
  }

  lemma ReadStoredComplete(s: seq<bit>, pos: nat, out: seq<byte>, limit: nat, padding: seq<bit>, data: seq<byte>)
    requires Addressable(s) && |padding| == AlignSkip(pos) && |data| <= 65535 && |out| + |data| <= limit
    requires At(s, pos, padding + StoredBits(data))
    ensures ReadStored(s, pos, out, limit) == Ok((out + data, pos + |padding + StoredBits(data)|))
  {
    hide At, LsbBits, DataBits, StoredBits, AlignSkip, FieldAt;
    StoredParts(s, pos, padding, data);
    var p := pos + |padding|;
    SixteenBits();
    FieldOfBits(s, pos, padding);
    FieldIff(s, p, 16, |data|);
    FieldIff(s, p + 16, 16, 65535 - |data|);
    ReadBytesComplete(s, p + 32, out, data);
  }

  lemma ReadStoredSound(s: seq<bit>, pos: nat, out: seq<byte>, limit: nat)
    returns (padding: seq<bit>, data: seq<byte>)
    requires pos <= |s| && ReadStored(s, pos, out, limit).Ok?
    ensures |padding| == AlignSkip(pos) && |data| <= 65535 && |out| + |data| <= limit
    ensures At(s, pos, padding + StoredBits(data))
    ensures ReadStored(s, pos, out, limit) == Ok((out + data, pos + |padding + StoredBits(data)|))
  {
    hide LsbBits, DataBits, StoredBits, AlignSkip;
    var p := pos + AlignSkip(pos);
    padding := s[pos..p];
    SixteenBits();
    var len, inverse := FieldAt(s, p, 16).value, FieldAt(s, p + 16, 16).value;
    FieldIff(s, p, 16, len);
    FieldIff(s, p + 16, 16, inverse);
    data := ReadBytesSound(s, p + 32, out, len);
    StoredParts(s, pos, padding, data);
  }

  // --- blocks ---

  /** A block of type `kind` after its three header bits. */
  ghost function ReadPayload(s: seq<bit>, pos: nat, kind: nat, out: seq<byte>,
                             limit: nat): (r: Result<(seq<byte>, nat)>) {
    if kind == 0 then ReadStored(s, pos, out, limit)
    else if kind == 1 then ReadTokens(FixedLiterals(), FixedDistances(), s, pos, out, limit)
    else if kind == 2 then
      var ((lit, dist), p) :- ReadHeader(s, pos);
      ReadTokens(lit, dist, s, p, out, limit)
    else Rejected
  }

  /** Reads blocks up to the final one, at most `quota` of them. */
  ghost function ReadBlocks(s: seq<bit>, pos: nat, out: seq<byte>, limit: nat,
                            quota: nat): (r: Result<(seq<byte>, nat)>)
    decreases quota
  {
    if quota == 0 then Rejected
    else
      var final :- FieldAt(s, pos, 1);
      var kind :- FieldAt(s, pos + 1, 2);
      var (more, p) :- ReadPayload(s, pos + 3, kind, out, limit);
      if final == 1 then Ok((more, p)) else ReadBlocks(s, p, more, limit, quota - 1)
  }

  lemma TablesFit(lit: seq<nat>, dist: seq<nat>)
    requires LegalTables(lit, dist)
    ensures Fits(lit) && Fits(dist) && HasCode(lit, END_OF_BLOCK)
  {
    AdmissibleFits(lit, false, true);
    AdmissibleFits(dist, true, true);
  }

  lemma ReadPayloadComplete(s: seq<bit>, pos: nat, b: Block, out: seq<byte>, limit: nat)
    requires Addressable(s) && pos >= 3 && b.Legal(pos - 3, out, limit) && At(s, pos, b.PayloadBits())
    ensures ReadPayload(s, pos, b.TypeCode(), out, limit) == Ok((b.Output(out), pos + |b.PayloadBits()|))
  {
    hide At, StoredBits, BodyBits, HeaderBits, LegalHeader, HeaderTables, CodableAll, LegalTokens, ExpandAll,
      FixedLiterals, FixedDistances, AlignSkip, ReadStored, ReadTokens, ReadHeader, LegalTables, Fits;
    match b
    case Stored(padding, data) =>
      ReadStoredComplete(s, pos, out, limit, padding, data);
    case Fixed(ts) =>
      FixedTablesComplete();
      TablesFit(FixedLiterals(), FixedDistances());
      ReadTokensComplete(FixedLiterals(), FixedDistances(), s, pos, ts, out, limit);
    case Dynamic(h, ts) =>
      var (lit, dist) := HeaderTables(h);
      AtConcat(s, pos, HeaderBits(h), BodyBits(lit, dist, ts));
      ReadHeaderComplete(s, pos, h);
      TablesFit(lit, dist);
      ReadTokensComplete(lit, dist, s, pos + |HeaderBits(h)|, ts, out, limit);
  }

  lemma ReadPayloadSound(s: seq<bit>, pos: nat, kind: nat, out: seq<byte>, limit: nat) returns (b: Block)
    requires 3 <= pos <= |s| && ReadPayload(s, pos, kind, out, limit).Ok?
    ensures b.TypeCode() == kind && b.Legal(pos - 3, out, limit) && At(s, pos, b.PayloadBits())
    ensures ReadPayload(s, pos, kind, out, limit) == Ok((b.Output(out), pos + |b.PayloadBits()|))
  {
    hide At, StoredBits, BodyBits, HeaderBits, LegalHeader, HeaderTables, CodableAll, LegalTokens, ExpandAll,
      FixedLiterals, FixedDistances, AlignSkip, ReadStored, ReadTokens, ReadHeader, LegalTables, Fits;
    if kind == 0 {
      var padding, data := ReadStoredSound(s, pos, out, limit);
      b := Stored(padding, data);
    } else if kind == 1 {
      FixedTablesComplete();
      TablesFit(FixedLiterals(), FixedDistances());
      var ts := ReadTokensSound(FixedLiterals(), FixedDistances(), s, pos, out, limit);
      b := Fixed(ts);
    } else {
      var h := ReadHeaderSound(s, pos);
      var (lit, dist) := HeaderTables(h);
      TablesFit(lit, dist);
      var ts := ReadTokensSound(lit, dist, s, pos + |HeaderBits(h)|, out, limit);
      b := Dynamic(h, ts);
      AtConcat(s, pos, HeaderBits(h), BodyBits(lit, dist, ts));
    }
  }

  lemma BlockParts(s: seq<bit>, pos: nat, b: Block, final: bool)
    ensures |b.Bits(final)| == 3 + |b.PayloadBits()|
    ensures Addressable(s) ==>
      (At(s, pos, b.Bits(final)) <==>
        && FieldAt(s, pos, 1) == Ok(if final then 1 else 0)
        && FieldAt(s, pos + 1, 2) == Ok(b.TypeCode())
        && At(s, pos + 3, b.PayloadBits()))
  {
    hide At, LsbBits, FieldAt, Block.PayloadBits;
    assert Pow2(1) == 2 && Pow2(2) == 4;
    var f := if final then 1 else 0;
    FieldIff(s, pos, 1, f);
    FieldIff(s, pos + 1, 2, b.TypeCode());
    AtConcat(s, pos + 1, LsbBits(b.TypeCode(), 2), b.PayloadBits());
    AtConcat(s, pos, LsbBits(f, 1), LsbBits(b.TypeCode(), 2) + b.PayloadBits());
  }

  /** Every legal encoding within the block quota is read back to the bytes it stands for. */
  lemma {:induction false} ReadBlocksComplete(s: seq<bit>, pos: nat, bs: seq<Block>, out: seq<byte>, limit: nat,
                                              quota: nat)
    requires Addressable(s) && LegalBlocks(bs, pos, out, limit) && |bs| <= quota && At(s, pos, BlocksBits(bs))
    ensures ReadBlocks(s, pos, out, limit, quota) == Ok((BlocksOutput(bs, out), pos + |BlocksBits(bs)|))
    decreases |bs|
  {
    hide At, FieldAt, Block.Legal, Block.PayloadBits, Block.Bits, Block.Output, Block.TypeCode, ReadPayload;
    var b, final := bs[0], |bs| == 1;
    AtConcat(s, pos, b.Bits(final), BlocksBits(bs[1..]));
    BlockParts(s, pos, b, final);
    BlockParts(s, pos, b, false);
    ReadPayloadComplete(s, pos + 3, b, out, limit);
    if final {
      assert BlocksBits(bs[1..]) == [] && BlocksOutput(bs[1..], b.Output(out)) == b.Output(out);
    } else {
      ReadBlocksComplete(s, pos + |b.Bits(false)|, bs[1..], b.Output(out), limit, quota - 1);
    }
  }

  /** Whatever is read is a legal encoding within the block quota. */
  lemma {:induction false} ReadBlocksSound(s: seq<bit>, pos: nat, out: seq<byte>, limit: nat, quota: nat)
    returns (bs: seq<Block>)
    requires pos <= |s| && ReadBlocks(s, pos, out, limit, quota).Ok?
    ensures LegalBlocks(bs, pos, out, limit) && |bs| <= quota && At(s, pos, BlocksBits(bs))
    ensures ReadBlocks(s, pos, out, limit, quota) == Ok((BlocksOutput(bs, out), pos + |BlocksBits(bs)|))
    decreases quota
  {
    hide At, Block.Legal, Block.PayloadBits, Block.Bits, Block.Output, Block.TypeCode, ReadPayload;
    var final, kind := FieldAt(s, pos, 1).value, FieldAt(s, pos + 1, 2).value;
    assert Pow2(1) == 2;
    var b := ReadPayloadSound(s, pos + 3, kind, out, limit);
    BlockParts(s, pos, b, final == 1);
    var p := pos + |b.Bits(final == 1)|;
    if final == 1 {
      bs := [b];
      assert bs[1..] == [];
      AtEnd(s, pos, b.Bits(true));
      AtNothing(s, p);
    } else {
      AtEnd(s, pos, b.Bits(false));
      var rest := ReadBlocksSound(s, p, b.Output(out), limit, quota - 1);
      bs := [b] + rest;
      assert bs[1..] == rest;
    }
    AtConcat(s, pos, b.Bits(final == 1), BlocksBits(bs[1..]));
  }

  lemma AtEnd(s: seq<bit>, pos: nat, w: seq<bit>)
    requires At(s, pos, w)
    ensures pos + |w| <= |s|
  {
  }
}
