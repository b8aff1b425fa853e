/** Canonical prefix codes (RFC 1951 section 3.2.2), defined from code lengths alone,
    and the facts a decoder needs: the codewords fit their lengths, no codeword begins
    another, and a complete code recognises every long enough bit string. */
module CanonicalCode {
  import opened BitStrings

  const MAX_LENGTH: nat := 15

  /** How many of the first `k` symbols have a codeword of `n` bits. */
  function CountUpTo(lengths: seq<nat>, k: nat, n: nat): (c: nat)
    requires k <= |lengths|
  {
    if k == 0 then 0
    else CountUpTo(lengths, k - 1, n) + if lengths[k - 1] == n then 1 else 0
  }

  /** Number of codewords of `n` bits; symbols of length 0 have no codeword. */
  function Count(lengths: seq<nat>, n: nat): (c: nat) {
    if n == 0 then 0 else CountUpTo(lengths, |lengths|, n)
  }

  /** One past the largest `n`-bit code. */
  function End(lengths: seq<nat>, n: nat): (c: nat) {
    First(lengths, n) + Count(lengths, n)
  }

  /** The smallest `n`-bit code: code = (code + bl_count[n - 1]) << 1. */
  function First(lengths: seq<nat>, n: nat): (c: nat)
    decreases n, 0
  {
    if n == 0 then 0 else 2 * (First(lengths, n - 1) + Count(lengths, n - 1))
  }

  function Code(lengths: seq<nat>, sym: nat): (c: nat)
    requires sym < |lengths|
  {
    First(lengths, lengths[sym]) + CountUpTo(lengths, sym, lengths[sym])
  }

  function MaxLength(lengths: seq<nat>): (m: nat) {
    if |lengths| == 0 then 0
    else
      var m, l := MaxLength(lengths[..|lengths| - 1]), lengths[|lengths| - 1];
      if m < l then l else m
  }

  /** The Kraft sum in units of 2^-15: how much of the code space the lengths claim. */
  function KraftSum(lengths: seq<nat>): (k: nat)
    requires Bounded(lengths)
  {
    if |lengths| == 0 then 0
    else
      var l := lengths[|lengths| - 1];
      KraftSum(lengths[..|lengths| - 1]) + if l > 0 then Pow2(MAX_LENGTH - l) else 0
  }

  predicate Bounded(lengths: seq<nat>) {
    forall i :: 0 <= i < |lengths| ==> lengths[i] <= MAX_LENGTH
  }

  predicate Fits(lengths: seq<nat>) {
    Bounded(lengths) && KraftSum(lengths) <= Pow2(MAX_LENGTH)
  }

  predicate Complete(lengths: seq<nat>) {
    Bounded(lengths) && KraftSum(lengths) == Pow2(MAX_LENGTH)
  }

  predicate IsEmpty(lengths: seq<nat>) {
    forall i :: 0 <= i < |lengths| ==> lengths[i] == 0
  }

  /** Exactly one symbol has a codeword, and it is one bit long. */
  predicate IsSingle(lengths: seq<nat>) {
    exists i :: 0 <= i < |lengths| && lengths[i] == 1
      && forall j :: 0 <= j < |lengths| && j != i ==> lengths[j] == 0
  }

  /** The length vectors a table may be built from. */
  predicate Admissible(lengths: seq<nat>, emptyAllowed: bool, singleAllowed: bool) {
    || (emptyAllowed && IsEmpty(lengths))
    || Complete(lengths)
    || (singleAllowed && IsSingle(lengths))
  }

  predicate HasCode(lengths: seq<nat>, sym: nat) {
    sym < |lengths| && lengths[sym] > 0
  }

  /** The codeword of `sym`, most significant bit first. */
  function Word(lengths: seq<nat>, sym: nat): (w: seq<bit>)
    ensures HasCode(lengths, sym) ==> |w| == lengths[sym]
  {
    if HasCode(lengths, sym) then MsbBits(Code(lengths, sym), lengths[sym]) else []
  }

  lemma WordValue(lengths: seq<nat>, sym: nat)
    requires Fits(lengths) && HasCode(lengths, sym)
    ensures MsbAt(Word(lengths, sym), 0, lengths[sym]) == Code(lengths, sym)
  {
    CodeFits(lengths, sym);
    MsbRoundTrip(Code(lengths, sym), lengths[sym]);
  }

  /** `sym`'s codeword stands at `pos` in `s`. */
  predicate Codeword(lengths: seq<nat>, s: seq<bit>, pos: nat, sym: nat) {
    && HasCode(lengths, sym)
    && pos + lengths[sym] <= |s|
    && MsbAt(s, pos, lengths[sym]) == Code(lengths, sym)
  }

  // --- counting ---

  lemma {:induction false} CountPrefix(lengths: seq<nat>, l: nat, k: nat, n: nat)
    requires k <= |lengths|
    ensures CountUpTo(lengths + [l], k, n) == CountUpTo(lengths, k, n)
  {
    if k > 0 {
      CountPrefix(lengths, l, k - 1, n);
    }
  }

  lemma CountSnoc(lengths: seq<nat>, l: nat, n: nat)
    ensures Count(lengths + [l], n) == Count(lengths, n) + if l == n && n > 0 then 1 else 0
  {
    CountPrefix(lengths, l, |lengths|, n);
  }

  lemma {:induction false} CountMonotone(lengths: seq<nat>, j: nat, k: nat, n: nat)
    requires j <= k <= |lengths|
    ensures CountUpTo(lengths, j, n) <= CountUpTo(lengths, k, n)
    ensures j < k && lengths[j] == n ==> CountUpTo(lengths, j, n) < CountUpTo(lengths, k, n)
  {
    if j < k {
      CountMonotone(lengths, j, k - 1, n);
    }
  }

  /** Every index below the count belongs to some symbol. */
  lemma {:induction false} NthSymbol(lengths: seq<nat>, k: nat, n: nat, c: nat) returns (sym: nat)
    requires k <= |lengths| && c < CountUpTo(lengths, k, n)
    ensures sym < k && lengths[sym] == n && CountUpTo(lengths, sym, n) == c
  {
    if lengths[k - 1] == n && CountUpTo(lengths, k - 1, n) == c {
      sym := k - 1;
    } else {
      sym := NthSymbol(lengths, k - 1, n, c);
    }
  }

  // --- the code space ---

  /** A new symbol of `l` bits claims 2^(n - l) of the n-bit codes. */
  lemma {:induction false} EndSnoc(lengths: seq<nat>, l: nat, n: nat)
    ensures End(lengths + [l], n) == End(lengths, n) + if 0 < l <= n then Pow2(n - l) else 0
  {
    CountSnoc(lengths, l, n);
    if n > 0 {
      EndSnoc(lengths, l, n - 1);
    }
  }

  lemma {:induction false} EndOfNothing(n: nat)
    ensures End([], n) == 0
  {
    if n > 0 {
      EndOfNothing(n - 1);
    }
  }

  /** The code space used at length 15 is the Kraft sum. */
  lemma {:induction false} EndIsKraft(lengths: seq<nat>)
    requires Bounded(lengths)
    ensures End(lengths, MAX_LENGTH) == KraftSum(lengths)
  {
    if |lengths| == 0 {
      EndOfNothing(MAX_LENGTH);
    } else {
      var init, l := lengths[..|lengths| - 1], lengths[|lengths| - 1];
      EndIsKraft(init);
      EndSnoc(init, l, MAX_LENGTH);
      assert lengths == init + [l];
    }
  }

  lemma EndAtZero(lengths: seq<nat>)
    ensures End(lengths, 0) == 0
  {
  }

  /** Using too much space at some length means using too much at every longer one. */
  lemma {:induction false} OverflowPersists(lengths: seq<nat>, m: nat, n: nat)
    requires m <= n && End(lengths, m) > Pow2(m)
    ensures End(lengths, n) > Pow2(n)
  {
    if m < n {
      OverflowPersists(lengths, m, n - 1);
    }
  }

  lemma {:induction false} FitsEverywhere(lengths: seq<nat>, n: nat)
    requires Fits(lengths) && n <= MAX_LENGTH
    ensures End(lengths, n) <= Pow2(n)
  {
    EndIsKraft(lengths);
    if End(lengths, n) > Pow2(n) {
      OverflowPersists(lengths, n, MAX_LENGTH);
    }
  }

  /** Codes lie in their length's block, hence below 2^length. */
  lemma {:induction false} CodeFits(lengths: seq<nat>, sym: nat)
    requires Fits(lengths) && HasCode(lengths, sym)
    ensures First(lengths, lengths[sym]) <= Code(lengths, sym) < End(lengths, lengths[sym])
    ensures Code(lengths, sym) < Pow2(lengths[sym])
  {
    CountMonotone(lengths, sym, |lengths|, lengths[sym]);
    FitsEverywhere(lengths, lengths[sym]);
  }

  // --- prefix-freeness ---

  /** Bits whose first m spell less than the end of the m-bit codes stay below the start
      of every longer length's codes. */
  lemma {:induction false} BelowStaysBelow(lengths: seq<nat>, s: seq<bit>, pos: nat, m: nat, n: nat)
    requires m < n && pos + n <= |s| && MsbAt(s, pos, m) < End(lengths, m)
    ensures MsbAt(s, pos, n) < First(lengths, n)
  {
    if m < n - 1 {
      BelowStaysBelow(lengths, s, pos, m, n - 1);
    }
  }

  /** Two codewords of different lengths cannot stand at one position. */
  lemma ShorterExcludesLonger(lengths: seq<nat>, s: seq<bit>, pos: nat, a: nat, b: nat)
    requires Fits(lengths) && Codeword(lengths, s, pos, a) && Codeword(lengths, s, pos, b)
    ensures lengths[a] >= lengths[b]
  {
    if lengths[a] < lengths[b] {
      CodeFits(lengths, a);
      BelowStaysBelow(lengths, s, pos, lengths[a], lengths[b]);
    }
  }

  lemma SameLengthDistinctCodes(lengths: seq<nat>, a: nat, b: nat)
    requires a < b < |lengths| && lengths[a] == lengths[b]
    ensures Code(lengths, a) < Code(lengths, b)
  {
    CountMonotone(lengths, a, b, lengths[a]);
  }

  /** At most one symbol's codeword stands at any position. */
  lemma CodewordUnique(lengths: seq<nat>, s: seq<bit>, pos: nat, a: nat, b: nat)
    requires Fits(lengths) && Codeword(lengths, s, pos, a) && Codeword(lengths, s, pos, b)
    ensures a == b
  {
    ShorterExcludesLonger(lengths, s, pos, a, b);
    ShorterExcludesLonger(lengths, s, pos, b, a);
    if a < b {
      SameLengthDistinctCodes(lengths, a, b);
    } else if b < a {
      SameLengthDistinctCodes(lengths, b, a);
    }
  }

  /** RFC 1951 section 3.2.1: no codeword is a prefix of another symbol's. */
  lemma PrefixFree(lengths: seq<nat>, a: nat, b: nat)
    requires Fits(lengths) && HasCode(lengths, a) && HasCode(lengths, b) && a != b
    ensures !(Word(lengths, a) <= Word(lengths, b))
  {
    var s := Word(lengths, b);
    if Word(lengths, a) <= s {
      MsbOfWord(s, 0, Word(lengths, a), lengths[a]);
      WordValue(lengths, a);
      WordValue(lengths, b);
      CodewordUnique(lengths, s, 0, a, b);
    }
  }

  /** A codeword stands at a position exactly when its bits do. */
  lemma CodewordIffWord(lengths: seq<nat>, s: seq<bit>, pos: nat, sym: nat)
    requires Fits(lengths) && HasCode(lengths, sym)
    ensures Codeword(lengths, s, pos, sym) <==> At(s, pos, Word(lengths, sym))
  {
    var w := Word(lengths, sym);
    WordValue(lengths, sym);
    if Codeword(lengths, s, pos, sym) {
      MsbUnique(s, pos, w, |w|);
    } else if At(s, pos, w) {
      MsbOfWord(s, pos, w, |w|);
    }
  }

  // --- completeness ---

  lemma {:induction false} NoLongerCodes(lengths: seq<nat>, n: nat, k: nat)
    requires MaxLength(lengths) < n && k <= |lengths|
    ensures CountUpTo(lengths, k, n) == 0
  {
    if k > 0 {
      NoLongerCodes(lengths, n, k - 1);
      MaxLengthBounds(lengths, k - 1);
    }
  }

  lemma {:induction false} MaxLengthBounds(lengths: seq<nat>, i: nat)
    requires i < |lengths|
    ensures lengths[i] <= MaxLength(lengths)
  {
    if i < |lengths| - 1 {
      MaxLengthBounds(lengths[..|lengths| - 1], i);
    }
  }

  lemma {:induction false} MaxLengthReached(lengths: seq<nat>) returns (i: nat)
    requires MaxLength(lengths) > 0
    ensures i < |lengths| && lengths[i] == MaxLength(lengths)
  {
    if lengths[|lengths| - 1] == MaxLength(lengths) {
      i := |lengths| - 1;
    } else {
      i := MaxLengthReached(lengths[..|lengths| - 1]);
    }
  }

  lemma {:induction false} LengthsWithinMax(lengths: seq<nat>)
    requires Bounded(lengths)
    ensures MaxLength(lengths) <= MAX_LENGTH
  {
    if MaxLength(lengths) > 0 {
      var i := MaxLengthReached(lengths);
    }
  }

  /** A complete code fills the space already at its longest length. */
  lemma {:induction false} FullAtMax(lengths: seq<nat>, n: nat)
    requires MaxLength(lengths) <= n && End(lengths, n) == Pow2(n)
    ensures End(lengths, MaxLength(lengths)) == Pow2(MaxLength(lengths))
    decreases n
  {
    if MaxLength(lengths) < n {
      NoLongerCodes(lengths, n, |lengths|);
      FullAtMax(lengths, n - 1);
    }
  }

  /** The shortest prefix that drops below the end of its length's codes is a codeword. */
  lemma {:induction false} SearchFinds(lengths: seq<nat>, s: seq<bit>, pos: nat, n: nat, max: nat)
    returns (sym: nat)
    requires n < max && pos + max <= |s|
    requires MsbAt(s, pos, n) >= End(lengths, n) && MsbAt(s, pos, max) < End(lengths, max)
    ensures Codeword(lengths, s, pos, sym)
    decreases max - n
  {
    if MsbAt(s, pos, n + 1) < End(lengths, n + 1) {
      sym := NthSymbol(lengths, |lengths|, n + 1, MsbAt(s, pos, n + 1) - First(lengths, n + 1));
    } else {
      sym := SearchFinds(lengths, s, pos, n + 1, max);
    }
  }

  /** A complete code recognises any position followed by as many bits as its longest
      codeword. */
  lemma CompleteRecognises(lengths: seq<nat>, s: seq<bit>, pos: nat) returns (sym: nat)
    requires Complete(lengths) && pos + MaxLength(lengths) <= |s|
    ensures Codeword(lengths, s, pos, sym)
  {
    var max := MaxLength(lengths);
    EndIsKraft(lengths);
    LengthsWithinMax(lengths);
    FullAtMax(lengths, MAX_LENGTH);
    assert End(lengths, 0) == 0;
    sym := SearchFinds(lengths, s, pos, 0, max);
  }

  // --- admissible vectors ---

  lemma {:induction false} EmptyKraft(lengths: seq<nat>)
    requires IsEmpty(lengths)
    ensures KraftSum(lengths) == 0 && MaxLength(lengths) == 0
  {
    if |lengths| > 0 {
      EmptyKraft(lengths[..|lengths| - 1]);
    }
  }

  lemma {:induction false} SingleKraft(lengths: seq<nat>)
    requires IsSingle(lengths)
    ensures KraftSum(lengths) == Pow2(MAX_LENGTH - 1)
  {
    var init := lengths[..|lengths| - 1];
    if lengths[|lengths| - 1] == 0 {
      SingleKraft(init);
    } else {
      EmptyKraft(init);
    }
  }

  lemma AdmissibleFits(lengths: seq<nat>, emptyAllowed: bool, singleAllowed: bool)
    requires Admissible(lengths, emptyAllowed, singleAllowed)
    ensures Fits(lengths)
  {
    if IsEmpty(lengths) {
      EmptyKraft(lengths);
    } else if IsSingle(lengths) {
      SingleKraft(lengths);
    }
  }
}
