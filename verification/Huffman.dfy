/** The decoder's Huffman tables: building a table from code lengths and decoding one
    symbol, proved against the canonical code the lengths define. */
module Huffman {
  import opened Prelude
  import opened BitStrings
  import opened BitReader
  import opened CanonicalCode

  /** The symbol whose codeword stands at `pos`. As for any read, a window of more than
      INT_MAX bits rejects. */
  ghost function SymbolAt(lengths: seq<nat>, s: seq<bit>, pos: nat): (r: Result<nat>)
    ensures r.Ok? ==> |s| <= INT_MAX && Codeword(lengths, s, pos, r.value)
  {
    if |s| <= INT_MAX && exists sym :: Codeword(lengths, s, pos, sym) then
      var sym :| Codeword(lengths, s, pos, sym);
      Ok(sym)
    else
      Rejected
  }

  lemma SymbolAtCodeword(lengths: seq<nat>, s: seq<bit>, pos: nat, sym: nat)
    requires Fits(lengths) && |s| <= INT_MAX && Codeword(lengths, s, pos, sym)
    ensures SymbolAt(lengths, s, pos) == Ok(sym)
  {
    CodewordUnique(lengths, s, pos, sym, SymbolAt(lengths, s, pos).value);
  }

  /** Decoding undoes encoding: wherever a symbol's codeword is written, that symbol is
      what stands there, whatever follows. */
  lemma DecodeInvertsEncode(lengths: seq<nat>, before: seq<bit>, sym: nat, after: seq<bit>)
    requires Fits(lengths) && HasCode(lengths, sym)
    requires |before + Word(lengths, sym) + after| <= INT_MAX
    ensures SymbolAt(lengths, before + Word(lengths, sym) + after, |before|) == Ok(sym)
  {
    var s := before + Word(lengths, sym) + after;
    assert At(s, |before|, Word(lengths, sym));
    CodewordIffWord(lengths, s, |before|, sym);
    SymbolAtCodeword(lengths, s, |before|, sym);
  }

  // --- the tests the table builder makes ---

  lemma {:induction false} MaxZeroIffEmpty(lengths: seq<nat>)
    ensures MaxLength(lengths) == 0 <==> IsEmpty(lengths)
  {
    if IsEmpty(lengths) {
      EmptyKraft(lengths);
    } else {
      var i :| 0 <= i < |lengths| && lengths[i] != 0;
      MaxLengthBounds(lengths, i);
    }
  }

  lemma {:induction false} CountsBoth(lengths: seq<nat>, i: nat, j: nat, n: nat)
    requires i < j < |lengths| && lengths[i] == lengths[j] == n
    ensures CountUpTo(lengths, |lengths|, n) >= 2
  {
    CountMonotone(lengths, i, j, n);
    CountMonotone(lengths, j, |lengths|, n);
  }

  /** The constructor's test for the one incomplete code it lets pass. */
  lemma {:induction false} SingleIff(lengths: seq<nat>)
    ensures MaxLength(lengths) == 1 && Count(lengths, 1) == 1 <==> IsSingle(lengths)
  {
    if MaxLength(lengths) == 1 && Count(lengths, 1) == 1 {
      var i := NthSymbol(lengths, |lengths|, 1, 0);
      forall j | 0 <= j < |lengths| && j != i ensures lengths[j] == 0 {
        MaxLengthBounds(lengths, j);
        if lengths[j] == 1 {
          CountsBoth(lengths, if i < j then i else j, if i < j then j else i, 1);
        }
      }
    } else if IsSingle(lengths) {
      SingleCounts(lengths);
    }
  }

  lemma {:induction false} SingleCounts(lengths: seq<nat>)
    requires IsSingle(lengths)
    ensures MaxLength(lengths) == 1 && Count(lengths, 1) == 1
  {
    var init, l := lengths[..|lengths| - 1], lengths[|lengths| - 1];
    assert lengths == init + [l];
    CountSnoc(init, l, 1);
    if l == 0 {
      SingleCounts(init);
    } else {
      EmptyKraft(init);
      EmptyCount(init, |init|, 1);
    }
  }

  lemma {:induction false} EmptyCount(lengths: seq<nat>, k: nat, n: nat)
    requires IsEmpty(lengths) && n > 0 && k <= |lengths|
    ensures CountUpTo(lengths, k, n) == 0
  {
    if k > 0 {
      EmptyCount(lengths, k - 1, n);
    }
  }

  // --- the dictionary ---

  /** Dictionary key of the `n` bits at `pos`: their number above 16 bits of the value
      they spell in stream order. */
  function KeyAt(s: seq<bit>, pos: nat, n: nat): (key: nat)
    requires pos + n <= |s|
  {
    n * 0x10000 + LsbAt(s, pos, n)
  }

  function SymbolKey(lengths: seq<nat>, sym: nat): (key: nat)
    requires Fits(lengths) && HasCode(lengths, sym)
  {
    KeyAt(Word(lengths, sym), 0, lengths[sym])
  }

  lemma {:induction false} Pow2Small(n: nat)
    requires n <= MAX_LENGTH
    ensures Pow2(n) <= 0x8000
  {
    Pow2Steps(n, MAX_LENGTH);
    assert Pow2(MAX_LENGTH) == 0x8000;
  }

  lemma {:induction false} Pow2Steps(m: nat, n: nat)
    requires m <= n
    ensures Pow2(m) <= Pow2(n)
  {
    if m < n {
      Pow2Steps(m, n - 1);
    }
  }

  /** `symbols` holds exactly the codewords of the first `k` symbols. */
  ghost predicate TableUpTo(symbols: map<nat, nat>, lengths: seq<nat>, k: nat)
    requires Fits(lengths) && k <= |lengths|
  {
    && (forall i :: 0 <= i < k && lengths[i] > 0 ==>
          SymbolKey(lengths, i) in symbols && symbols[SymbolKey(lengths, i)] == i)
    && (forall key :: key in symbols ==>
          symbols[key] < k && lengths[symbols[key]] > 0 && key == SymbolKey(lengths, symbols[key]))
  }

  /** The bits of `v` read backwards: a codeword's value in stream order. */
  method Reverse(v: nat, n: nat) returns (r: nat)
    ensures r == LsbAt(MsbBits(v, n), 0, n)
  {
    r := 0;
    var u: nat := v;
    ghost var tail: seq<bit> := [];
    for i := 0 to n
      invariant |tail| == i
      invariant MsbBits(v, n) == MsbBits(u, n - i) + tail
      invariant r == LsbAt(tail, 0, i)
    {
      LsbCons(u % 2, tail, i);
      r := 2 * r + u % 2;
      tail := [u % 2] + tail;
      u := u / 2;
    }
    assert MsbBits(v, n) == tail;
  }

  /** Number of codewords of each length, and the longest length. */
  method Tally(lengths: seq<nat>) returns (ok: bool, counts: array<nat>, max: nat)
    ensures ok <==> Bounded(lengths)
    ensures fresh(counts) && counts.Length == 16
    ensures ok ==> max == MaxLength(lengths) && forall n :: 0 <= n < 16 ==> counts[n] == Count(lengths, n)
  {
    counts := new nat[16](_ => 0);
    max := 0;
    for i := 0 to |lengths|
      invariant Bounded(lengths[..i]) && max == MaxLength(lengths[..i])
      invariant counts[0] == 0
      invariant forall n :: 1 <= n < 16 ==> counts[n] == CountUpTo(lengths, i, n)
    {
      var n := lengths[i];
      if n > 15 {
        return false, counts, max;
      }
      assert lengths[..i + 1][..i] == lengths[..i];
      if n > 0 {
        counts[n] := counts[n] + 1;
        max := if max < n then n else max;
      }
    }
    assert lengths[..|lengths|] == lengths;
    ok := true;
  }

  /** Code space left over after all codewords are placed; negative lengths of code space
      reject as soon as they appear. */
  method SpaceLeft(ghost lengths: seq<nat>, counts: array<nat>) returns (ok: bool, left: int)
    requires Bounded(lengths) && counts.Length == 16
    requires forall n :: 0 <= n < 16 ==> counts[n] == Count(lengths, n)
    ensures ok <==> Fits(lengths)
    ensures ok ==> left == Pow2(MAX_LENGTH) - KraftSum(lengths)
  {
    left := 1;
    EndIsKraft(lengths);
    EndAtZero(lengths);
    for i := 1 to 16
      invariant left == Pow2(i - 1) - End(lengths, i - 1) >= 0
    {
      left := 2 * left - counts[i];
      if left < 0 {
        OverflowPersists(lengths, i, MAX_LENGTH);
        return false, left;
      }
    }
    ok := true;
  }

  /** The first code of each length. */
  method FirstCodes(ghost lengths: seq<nat>, counts: array<nat>) returns (next: array<nat>)
    requires counts.Length == 16 && forall n :: 0 <= n < 16 ==> counts[n] == Count(lengths, n)
    ensures fresh(next) && NextCodes(next[..], lengths, 0)
  {
    next := new nat[16](_ => 0);
    var code := 0;
    for i := 1 to 16
      invariant code == First(lengths, i - 1)
      invariant forall n :: 1 <= n < i ==> next[n] == First(lengths, n)
    {
      assert counts[i - 1] == Count(lengths, i - 1);
      code := 2 * (code + counts[i - 1]);
      assert code == First(lengths, i);
      next[i] := code;
    }
  }

  /** `next` holds, for each length, the code the next symbol of that length gets. */
  ghost predicate NextCodes(next: seq<nat>, lengths: seq<nat>, k: nat)
    requires k <= |lengths|
  {
    |next| == 16 && forall n :: 1 <= n < 16 ==> next[n] == First(lengths, n) + CountUpTo(lengths, k, n)
  }

  lemma TakeCode(next: seq<nat>, lengths: seq<nat>, i: nat)
    requires Fits(lengths) && i < |lengths| && NextCodes(next, lengths, i)
    ensures |next| == 16 && lengths[i] < 16
    ensures lengths[i] == 0 ==> NextCodes(next, lengths, i + 1)
    ensures lengths[i] > 0 ==>
      && next[lengths[i]] == Code(lengths, i) < Pow2(lengths[i])
      && NextCodes(next[lengths[i] := next[lengths[i]] + 1], lengths, i + 1)
  {
    if lengths[i] > 0 {
      CodeFits(lengths, i);
    }
  }

  /** Gives each symbol the next code of its length. No key is ever added twice. */
  method FillTable(lengths: seq<nat>, next: array<nat>) returns (symbols: map<nat, nat>)
    requires Fits(lengths) && NextCodes(next[..], lengths, 0)
    modifies next
    ensures TableUpTo(symbols, lengths, |lengths|)
  {
    hide Fits, TableUpTo, NextCodes, Code, LsbAt, MsbBits, Pow2;
    symbols := map[];
    NothingInTable(lengths);
    for i := 0 to |lengths|
      invariant TableUpTo(symbols, lengths, i)
      invariant NextCodes(next[..], lengths, i)
    {
      var n := lengths[i];
      ghost var before := next[..];
      TakeCode(before, lengths, i);
      if n > 0 {
        var code := next[n];
        var reversed := Reverse(code, n);
        next[n] := code + 1;
        assert next[..] == before[n := code + 1];
        var key := n * 0x10000 + reversed;
        KeyIsNew(symbols, lengths, i, key);
        assert key !in symbols;
        symbols := symbols[key := i];
      } else {
        TableSkips(symbols, lengths, i);
      }
    }
  }

  lemma NothingInTable(lengths: seq<nat>)
    requires Fits(lengths)
    ensures TableUpTo(map[], lengths, 0)
  {
  }

  /** A symbol without a code adds nothing to the table. */
  lemma TableSkips(symbols: map<nat, nat>, lengths: seq<nat>, i: nat)
    requires Fits(lengths) && i < |lengths| && lengths[i] == 0 && TableUpTo(symbols, lengths, i)
    ensures TableUpTo(symbols, lengths, i + 1)
  {
    hide SymbolKey;
  }

  /** Adding the next symbol's key extends the table. */
  lemma TableExtends(symbols: map<nat, nat>, lengths: seq<nat>, i: nat)
    requires Fits(lengths) && i < |lengths| && lengths[i] > 0 && TableUpTo(symbols, lengths, i)
    ensures SymbolKey(lengths, i) !in symbols
    ensures TableUpTo(symbols[SymbolKey(lengths, i) := i], lengths, i + 1)
  {
    hide SymbolKey, KraftSum;
    forall j | 0 <= j < i && lengths[j] > 0 ensures SymbolKey(lengths, j) != SymbolKey(lengths, i) {
      KeysDistinct(lengths, j, i);
    }
  }

  lemma ReversedCodeIsKey(lengths: seq<nat>, i: nat)
    requires Fits(lengths) && i < |lengths| && lengths[i] > 0 && Code(lengths, i) < Pow2(lengths[i])
    ensures SymbolKey(lengths, i)
         == lengths[i] * 0x10000 + LsbAt(MsbBits(Code(lengths, i), lengths[i]), 0, lengths[i])
  {
  }

  lemma KeyIsNew(symbols: map<nat, nat>, lengths: seq<nat>, i: nat, key: nat)
    requires Fits(lengths) && i < |lengths| && lengths[i] > 0 && TableUpTo(symbols, lengths, i)
    requires Code(lengths, i) < Pow2(lengths[i])
    requires key == lengths[i] * 0x10000 + LsbAt(MsbBits(Code(lengths, i), lengths[i]), 0, lengths[i])
    ensures key !in symbols && TableUpTo(symbols[key := i], lengths, i + 1)
  {
    ReversedCodeIsKey(lengths, i);
    TableExtends(symbols, lengths, i);
  }

  /** Different symbols never share a dictionary key. */
  lemma KeysDistinct(lengths: seq<nat>, i: nat, j: nat)
    requires Fits(lengths) && i < j < |lengths| && lengths[i] > 0 && lengths[j] > 0
    ensures SymbolKey(lengths, i) != SymbolKey(lengths, j)
  {
    KeyIdentifies(lengths, Word(lengths, i), 0, lengths[i], j);
    WordValue(lengths, i);
    if lengths[i] == lengths[j] {
      SameLengthDistinctCodes(lengths, i, j);
    }
  }

  /** Builds a table, rejecting every length vector that is not admissible. */
  method BuildHuff(lengths: seq<nat>, emptyAllowed: bool, singleAllowed: bool) returns (r: Result<Huff>)
    ensures r.Ok? <==> Admissible(lengths, emptyAllowed, singleAllowed)
    ensures r.Ok? ==> r.value.Valid() && r.value.lengths == lengths
  {
    var ok, counts, max := Tally(lengths);
    if !ok {
      return Rejected;
    }
    MaxZeroIffEmpty(lengths);
    if max == 0 {
      if !emptyAllowed {
        NotAdmissibleEmpty(lengths, singleAllowed);
        return Rejected;
      }
      EmptyKraft(lengths);
      var empty := new Huff(map[], lengths, 0);
      return Ok(empty);
    }
    var left;
    ok, left := SpaceLeft(lengths, counts);
    if !ok {
      if Admissible(lengths, emptyAllowed, singleAllowed) {
        AdmissibleFits(lengths, emptyAllowed, singleAllowed);
      }
      return Rejected;
    }
    SingleIff(lengths);
    if !(left == 0 || (singleAllowed && max == 1 && counts[1] == 1)) {
      return Rejected;
    }
    var next := FirstCodes(lengths, counts);
    var symbols := FillTable(lengths, next);
    var table := new Huff(symbols, lengths, max);
    r := Ok(table);
  }

  lemma NotAdmissibleEmpty(lengths: seq<nat>, singleAllowed: bool)
    requires IsEmpty(lengths)
    ensures !Admissible(lengths, false, singleAllowed)
  {
    EmptyKraft(lengths);
  }

  class Huff {
    const symbols: map<nat, nat>
    const max: nat
    ghost const lengths: seq<nat>

    ghost predicate Valid() {
      Fits(lengths) && TableUpTo(symbols, lengths, |lengths|) && max == MaxLength(lengths)
    }

    constructor (symbols: map<nat, nat>, ghost lengths: seq<nat>, max: nat)
      requires Fits(lengths) && TableUpTo(symbols, lengths, |lengths|) && max == MaxLength(lengths)
      ensures Valid() && this.lengths == lengths
    {
      this.symbols, this.lengths, this.max := symbols, lengths, max;
    }

    /** Reads bits until they spell a codeword. */
    method Decode(r: Bits) returns (result: Result<nat>)
      requires Valid() && r.Valid()
      modifies r`Position
      ensures r.Valid() && r.Position >= old(r.Position)
      ensures result == SymbolAt(lengths, r.Stream(), old(r.Position))
      ensures result.Ok? ==> r.Position == old(r.Position) + lengths[result.value]
    {
      hide LsbAt, SymbolAt, StreamBits, KraftSum, TableUpTo, Missed;
      ghost var s, from := r.Stream(), r.Position;
      LengthsWithinMax(lengths);
      MissedNone(symbols, s, from);
      var bits := 0;
      var n := 1;
      while n <= max
        invariant 1 <= n <= max + 1 && r.Valid()
        invariant r.Position == from + n - 1
        invariant bits == LsbAt(s, from, n - 1)
        invariant n > 1 ==> |s| <= INT_MAX
        invariant Missed(symbols, s, from, n)
      {
        var b := r.Read(1);
        if b.Rejected? {
          MissedAll(symbols, lengths, s, from, n);
          return Rejected;
        }
        NextBit(s, from, n, b.value);
        bits := bits + b.value * Pow2(n - 1);
        var key := n * 0x10000 + bits;
        assert key == KeyAt(s, from, n);
        if key in symbols {
          HitIsCodeword(symbols, lengths, s, from, n);
          return Ok(symbols[key]);
        }
        MissedOneMore(symbols, s, from, n);
        n := n + 1;
      }
      MissedAll(symbols, lengths, s, from, n);
      result := Rejected;
    }
  }

  /** Placing one more stream bit above the bits gathered so far. */
  lemma NextBit(s: seq<bit>, from: nat, n: nat, b: nat)
    requires n > 0 && FieldAt(s, from + n - 1, 1) == Ok(b)
    ensures LsbAt(s, from, n) == LsbAt(s, from, n - 1) + b * Pow2(n - 1)
  {
    assert LsbAt(s, from + n - 1, 0) == 0;
    assert b == s[from + n - 1];
  }

  /** None of the first `n - 1` prefixes at `from` is a dictionary key. */
  ghost predicate Missed(symbols: map<nat, nat>, s: seq<bit>, from: nat, n: nat)
    requires from + n - 1 <= |s|
  {
    forall m :: 0 < m < n ==> KeyAt(s, from, m) !in symbols
  }

  lemma MissedNone(symbols: map<nat, nat>, s: seq<bit>, from: nat)
    requires from <= |s|
    ensures Missed(symbols, s, from, 1)
  {
  }

  lemma MissedOneMore(symbols: map<nat, nat>, s: seq<bit>, from: nat, n: nat)
    requires from + n <= |s| && Missed(symbols, s, from, n) && KeyAt(s, from, n) !in symbols
    ensures Missed(symbols, s, from, n + 1)
  {
  }

  lemma {:induction false} KeyIdentifies(lengths: seq<nat>, s: seq<bit>, pos: nat, n: nat, sym: nat)
    requires Fits(lengths) && HasCode(lengths, sym)
    requires n <= MAX_LENGTH && pos + n <= |s|
    ensures KeyAt(s, pos, n) == SymbolKey(lengths, sym)
       <==> n == lengths[sym] && MsbAt(s, pos, n) == Code(lengths, sym)
  {
    var w := Word(lengths, sym);
    WordValue(lengths, sym);
    Pow2Small(n);
    Pow2Small(|w|);
    if KeyAt(s, pos, n) == SymbolKey(lengths, sym) {
      LsbUnique(s, pos, w, n);
      MsbOfWord(s, pos, w, n);
    } else if n == |w| && MsbAt(s, pos, n) == MsbAt(w, 0, n) {
      MsbUnique(s, pos, w, n);
      LsbOfWord(s, pos, w, n);
    }
  }

  /** A dictionary hit is the symbol that stands at the start. */
  lemma HitIsCodeword(symbols: map<nat, nat>, lengths: seq<nat>, s: seq<bit>, from: nat, n: nat)
    requires Fits(lengths) && TableUpTo(symbols, lengths, |lengths|)
    requires 0 < n <= MAX_LENGTH && from + n <= |s| <= INT_MAX
    requires KeyAt(s, from, n) in symbols
    ensures var sym := symbols[KeyAt(s, from, n)];
      SymbolAt(lengths, s, from) == Ok(sym) && lengths[sym] == n
  {
    var sym := symbols[KeyAt(s, from, n)];
    KeyIdentifies(lengths, s, from, n, sym);
    SymbolAtCodeword(lengths, s, from, sym);
  }

  /** With no hit among all prefixes short enough to be a codeword, nothing decodes. */
  lemma {:induction false} MissedAll(symbols: map<nat, nat>, lengths: seq<nat>, s: seq<bit>, from: nat, n: nat)
    requires Fits(lengths) && TableUpTo(symbols, lengths, |lengths|)
    requires n > 0 && from + n - 1 <= |s| && Missed(symbols, s, from, n)
    requires n > MaxLength(lengths) || from + n > |s| || |s| > INT_MAX
    ensures SymbolAt(lengths, s, from).Rejected?
  {
    if SymbolAt(lengths, s, from).Ok? {
      var sym := SymbolAt(lengths, s, from).value;
      MaxLengthBounds(lengths, sym);
      KeyIdentifies(lengths, s, from, lengths[sym], sym);
    }
  }
}
