/** Bit sequences and the two ways RFC 1951 reads numbers out of them (section 3.1.1):
    ordinary fields arrive least significant bit first, Huffman codes most significant
    bit first. */
module BitStrings {
  import opened Prelude

  type bit = b: int | 0 <= b < 2

  function Pow2(n: nat): (p: nat)
    ensures p >= 1
  {
    if n == 0 then 1 else 2 * Pow2(n - 1)
  }

  /** The number spelled by the `n` bits at `pos`, least significant first. */
  function LsbAt(s: seq<bit>, pos: nat, n: nat): (v: nat)
    requires pos + n <= |s|
    ensures v < Pow2(n)
  {
    if n == 0 then 0 else LsbAt(s, pos, n - 1) + s[pos + n - 1] * Pow2(n - 1)
  }

  /** The number spelled by the `n` bits at `pos`, most significant first. */
  function MsbAt(s: seq<bit>, pos: nat, n: nat): (v: nat)
    requires pos + n <= |s|
    ensures v < Pow2(n)
  {
    if n == 0 then 0 else 2 * MsbAt(s, pos, n - 1) + s[pos + n - 1]
  }

  /** The low `n` binary digits of `v`, least significant first. */
  function LsbBits(v: nat, n: nat): (t: seq<bit>)
    ensures |t| == n
    decreases n
  {
    if n == 0 then [] else LsbBits(v % Pow2(n - 1), n - 1) + [v / Pow2(n - 1) % 2]
  }

  /** The low `n` binary digits of `v`, most significant first. */
  function MsbBits(v: nat, n: nat): (t: seq<bit>)
    ensures |t| == n
  {
    if n == 0 then [] else MsbBits(v / 2, n - 1) + [v % 2]
  }

  /** `w` is written at `pos` in `s`. */
  predicate At(s: seq<bit>, pos: nat, w: seq<bit>) {
    pos + |w| <= |s| && forall k :: 0 <= k < |w| ==> s[pos + k] == w[k]
  }

  lemma DivBound(v: nat, p: nat)
    requires p >= 1 && v < 2 * p
    ensures 0 <= v / p < 2 && v % p < p
    ensures v == v / p * p + v % p
  {
    if v < p {
      assert v / p == 0;
    } else {
      assert v == p + (v - p);
      assert v / p == 1;
    }
  }

  /** The value at a position is the value of the word written there. */
  lemma {:induction false} LsbOfWord(s: seq<bit>, pos: nat, w: seq<bit>, n: nat)
    requires At(s, pos, w) && n <= |w|
    ensures LsbAt(s, pos, n) == LsbAt(w, 0, n)
  {
    if n > 0 {
      LsbOfWord(s, pos, w, n - 1);
      assert s[pos + (n - 1)] == w[n - 1];
    }
  }

  lemma {:induction false} MsbOfWord(s: seq<bit>, pos: nat, w: seq<bit>, n: nat)
    requires At(s, pos, w) && n <= |w|
    ensures MsbAt(s, pos, n) == MsbAt(w, 0, n)
  {
    if n > 0 {
      MsbOfWord(s, pos, w, n - 1);
      assert s[pos + (n - 1)] == w[n - 1];
    }
  }

  lemma {:induction false} LsbRoundTrip(v: nat, n: nat)
    requires v < Pow2(n)
    ensures LsbAt(LsbBits(v, n), 0, n) == v
    decreases n
  {
    if n > 0 {
      var p := Pow2(n - 1);
      DivBound(v, p);
      LsbRoundTrip(v % p, n - 1);
      LsbOfWord(LsbBits(v, n), 0, LsbBits(v % p, n - 1), n - 1);
    }
  }

  lemma {:induction false} MsbRoundTrip(v: nat, n: nat)
    requires v < Pow2(n)
    ensures MsbAt(MsbBits(v, n), 0, n) == v
  {
    if n > 0 {
      MsbRoundTrip(v / 2, n - 1);
      MsbOfWord(MsbBits(v, n), 0, MsbBits(v / 2, n - 1), n - 1);
    }
  }

  /** Equal values of equally many bits come from equal bits. */
  lemma {:induction false} LsbUnique(s: seq<bit>, pos: nat, w: seq<bit>, n: nat)
    requires pos + n <= |s| && n <= |w| && LsbAt(s, pos, n) == LsbAt(w, 0, n)
    ensures forall k :: 0 <= k < n ==> s[pos + k] == w[k]
  {
    if n > 0 {
      assert LsbAt(s, pos, n - 1) < Pow2(n - 1) && LsbAt(w, 0, n - 1) < Pow2(n - 1);
      assert s[pos + n - 1] == w[n - 1];
      LsbUnique(s, pos, w, n - 1);
    }
  }

  lemma {:induction false} MsbUnique(s: seq<bit>, pos: nat, w: seq<bit>, n: nat)
    requires pos + n <= |s| && n <= |w| && MsbAt(s, pos, n) == MsbAt(w, 0, n)
    ensures forall k :: 0 <= k < n ==> s[pos + k] == w[k]
  {
    if n > 0 {
      assert s[pos + n - 1] == w[n - 1];
      MsbUnique(s, pos, w, n - 1);
    }
  }

  /** A field's bits are what its value encodes to. */
  lemma {:induction false} LsbBitsOfValue(s: seq<bit>, pos: nat, n: nat)
    requires pos + n <= |s|
    ensures At(s, pos, LsbBits(LsbAt(s, pos, n), n))
  {
    LsbRoundTrip(LsbAt(s, pos, n), n);
    LsbUnique(s, pos, LsbBits(LsbAt(s, pos, n), n), n);
  }

  /** The bits of a byte string in the order RFC 1951 section 3.1.1 packs them. */
  function StreamBits(bytes: seq<byte>): (s: seq<bit>)
    ensures |s| == 8 * |bytes|
  {
    seq(8 * |bytes|, p requires 0 <= p < 8 * |bytes| => bytes[p / 8] / Pow2(p % 8) % 2)
  }

  lemma AtConcat(s: seq<bit>, pos: nat, v: seq<bit>, w: seq<bit>)
    ensures At(s, pos, v + w) <==> At(s, pos, v) && At(s, pos + |v|, w)
  {
    if At(s, pos, v + w) {
      forall k | 0 <= k < |v| ensures s[pos + k] == v[k] {
        assert (v + w)[k] == v[k];
      }
      forall k | 0 <= k < |w| ensures s[pos + |v| + k] == w[k] {
        assert (v + w)[|v| + k] == w[k];
      }
    }
  }

  lemma Regroup(p: nat, high: nat, x: nat, q: nat)
    ensures p * (high + x * q) == p * high + x * (p * q)
  {
  }

  /** The value of n bits from its low k bits and the rest. */
  lemma {:induction false} LsbSplit(s: seq<bit>, pos: nat, k: nat, n: nat)
    requires k <= n && pos + n <= |s|
    ensures LsbAt(s, pos, n) == LsbAt(s, pos, k) + Pow2(k) * LsbAt(s, pos + k, n - k)
  {
    if k < n {
      LsbSplit(s, pos, k, n - 1);
      PowSum(k, n - 1 - k);
      Regroup(Pow2(k), LsbAt(s, pos + k, n - k - 1), s[pos + n - 1], Pow2(n - 1 - k));
    } else {
      assert LsbAt(s, pos + k, 0) == 0;
    }
  }

  lemma {:induction false} PowSum(a: nat, b: nat)
    ensures Pow2(a) * Pow2(b) == Pow2(a + b)
  {
    if a > 0 {
      PowSum(a - 1, b);
      assert Pow2(a) * Pow2(b) == 2 * (Pow2(a - 1) * Pow2(b));
    }
  }

  /** A bit string is what its own value encodes to. */
  lemma {:induction false} BitsOfValue(w: seq<bit>)
    ensures LsbBits(LsbAt(w, 0, |w|), |w|) == w
  {
    LsbBitsOfValue(w, 0, |w|);
  }

  lemma {:induction false} OneBit(s: seq<bit>, pos: nat)
    requires pos < |s|
    ensures LsbAt(s, pos, 1) == s[pos]
  {
    assert LsbAt(s, pos, 0) == 0;
  }

  lemma {:induction false} LsbCons(b: bit, t: seq<bit>, n: nat)
    requires n <= |t|
    ensures LsbAt([b] + t, 0, n + 1) == b + 2 * LsbAt(t, 0, n)
  {
    if n > 0 {
      LsbCons(b, t, n - 1);
    }
  }
}
