/** The bit reader of the DEFLATE decoder. */
module BitReader {
  import opened Prelude
  import opened BitStrings

  /** Reading `n` bits at `pos`: the value they spell, least significant bit first, or a
      rejection when the window is too short. The position is computed in checked 32-bit
      arithmetic, so a window of more than INT_MAX bits rejects every read. */
  function FieldAt(s: seq<bit>, pos: nat, n: nat): (r: Result<nat>)
    ensures r.Ok? ==> pos + n <= |s| && r.value < Pow2(n)
  {
    if n <= 16 && |s| <= INT_MAX && pos + n <= |s| then Ok(LsbAt(s, pos, n)) else Rejected
  }

  /** Bits from `pos` to the next byte boundary. */
  function AlignSkip(pos: nat): (n: nat)
    ensures n < 8 && (pos + n) % 8 == 0
  {
    var n := (8 - pos % 8) % 8;
    assert (pos + n) % 8 == 0 by {
      var q := pos / 8;
      assert pos == 8 * q + pos % 8;
      if pos % 8 == 0 {
        assert n == 0;
      } else {
        assert pos + n == 8 * (q + 1);
      }
    }
    n
  }

  /** Aligning a window of whole bytes never runs past its end. */
  lemma AlignStaysInside(pos: nat, count: nat)
    requires pos <= 8 * count
    ensures pos + AlignSkip(pos) <= 8 * count
  {
    var m := pos + AlignSkip(pos);
    assert m == 8 * (m / 8);
  }

  class Bits {
    const bytes: seq<byte>
    const start: nat
    const count: nat
    var Position: nat

    /** The window as the bit sequence the decoder consumes. */
    ghost function Stream(): (s: seq<bit>)
      requires start + count <= |bytes|
      ensures |s| == 8 * count
    {
      StreamBits(bytes[start..start + count])
    }

    ghost predicate Valid()
      reads this`Position
    {
      start + count <= |bytes| && Position <= 8 * count
    }

    constructor (bytes: seq<byte>, offset: nat, length: nat)
      requires offset + length <= |bytes|
      ensures Valid() && Position == 0
      ensures this.bytes == bytes && start == offset && count == length
    {
      this.bytes, start, count := bytes, offset, length;
      Position := 0;
    }

    method Read(n: nat) returns (r: Result<nat>)
      requires Valid()
      modifies this`Position
      ensures Valid()
      ensures r == FieldAt(Stream(), old(Position), n)
      ensures Position == if r.Ok? then old(Position) + n else old(Position)
    {
      if !(n <= 16 && count * 8 <= INT_MAX && Position <= count * 8 - n) {
        return Rejected;
      }
      ghost var s := Stream();
      ghost var from := Position;
      var v := 0;
      for i := 0 to n
        invariant Position == from + i <= 8 * count
        invariant v == LsbAt(s, from, i)
      {
        var b := bytes[start + Position / 8] / Pow2(Position % 8) % 2;
        assert b == s[Position];
        v := v + b * Pow2(i);
        Position := Position + 1;
      }
      r := Ok(v);
    }

    /** Skips to the next byte boundary. */
    method Align() returns (r: Result<nat>)
      requires Valid()
      modifies this`Position
      ensures Valid()
      ensures r == FieldAt(Stream(), old(Position), AlignSkip(old(Position)))
      ensures r.Ok? == (8 * count <= INT_MAX)
      ensures Position == if r.Ok? then old(Position) + AlignSkip(old(Position)) else old(Position)
    {
      AlignStaysInside(Position, count);
      r := Read(AlignSkip(Position));
    }
  }
}
