/** What the names of accepted members can be: paths that stay inside the directory they are
    unpacked to and name no device, whatever the file system makes of case. */
module ZipNames {
  import opened ZipRecords

  /** A stretch of `s` between separators. */
  predicate Segment(s: string, c: char, i: nat, j: nat) {
    && i <= j <= |s| && (i == 0 || s[i - 1] == c) && (j == |s| || s[j] == c)
    && forall k :: i <= k < j ==> s[k] != c
  }

  /** Where the first segment ends. */
  function FirstEnd(s: string, c: char): (j: nat)
    ensures Segment(s, c, 0, j)
  {
    if |s| == 0 || s[0] == c then 0 else 1 + FirstEnd(s[1..], c)
  }

  lemma {:induction false} SplitFirst(s: string, c: char)
    ensures Split(s, c)[0] == s[..FirstEnd(s, c)]
  {
    if |s| > 0 && s[0] != c {
      SplitFirst(s[1..], c);
      assert s[..FirstEnd(s, c)] == [s[0]] + s[1..][..FirstEnd(s[1..], c)];
    }
  }

  lemma SliceShifts(s: string, i: nat, j: nat)
    requires 0 < i <= j <= |s|
    ensures s[i..j] == s[1..][i - 1..j - 1]
  {
    var v, rest := s[i..j], s[1..];
    var w := rest[i - 1..j - 1];
    forall k | 0 <= k < j - i ensures v[k] == w[k] {
      assert w[k] == rest[i - 1 + k] == s[i + k];
    }
    assert v == w;
  }

  lemma SegmentShifts(s: string, c: char, i: nat, j: nat)
    requires |s| > 0 && 0 < i <= j <= |s|
    ensures Segment(s, c, i, j) <==> Segment(s[1..], c, i - 1, j - 1) && (i == 1 ==> s[0] == c)
    ensures s[i..j] == s[1..][i - 1..j - 1]
  {
    var rest := s[1..];
    SliceShifts(s, i, j);
    assert i > 1 ==> rest[i - 2] == s[i - 1];
    assert j < |s| ==> rest[j - 1] == s[j];
    if Segment(rest, c, i - 1, j - 1) {
      forall k | i <= k < j ensures s[k] != c {
        assert rest[k - 1] == s[k];
      }
    }
    if Segment(s, c, i, j) {
      forall k | i - 1 <= k < j - 1 ensures rest[k] != c {
        assert rest[k] == s[k + 1];
      }
      assert Segment(rest, c, i - 1, j - 1);
    }
  }

  /** The pieces of a split are exactly the segments; here, every segment is a piece. */
  lemma {:induction false} SegmentIsPiece(s: string, c: char, i: nat, j: nat)
    requires Segment(s, c, i, j)
    ensures s[i..j] in Split(s, c)
    ensures i > 0 ==> s[i..j] in Split(s, c)[1..]
  {
    if i == 0 {
      SplitFirst(s, c);
      FirstEndOnly(s, c, j);
    } else {
      var rest := Split(s[1..], c);
      SegmentShifts(s, c, i, j);
      SegmentIsPiece(s[1..], c, i - 1, j - 1);
      if s[0] == c {
        assert Split(s, c) == [""] + rest && Split(s, c)[1..] == rest;
      } else {
        assert Split(s, c)[1..] == rest[1..];
      }
    }
  }

  lemma {:induction false} FirstEndOnly(s: string, c: char, j: nat)
    requires Segment(s, c, 0, j)
    ensures j == FirstEnd(s, c)
  {
    if |s| > 0 && s[0] != c {
      if j == 0 {
        assert false;
      }
      forall k | 0 <= k < j - 1 ensures s[1..][k] != c {
        assert s[1..][k] == s[k + 1];
      }
      FirstEndOnly(s[1..], c, j - 1);
    }
  }

  /** And every piece is a segment. */
  lemma {:induction false} PieceIsSegment(s: string, c: char, x: string) returns (i: nat, j: nat)
    requires x in Split(s, c)
    ensures Segment(s, c, i, j) && s[i..j] == x
    ensures x in Split(s, c)[1..] ==> i > 0
  {
    if |s| == 0 {
      i, j := 0, 0;
    } else {
      var rest := Split(s[1..], c);
      var later := Split(s, c)[1..];
      assert later == if s[0] == c then rest else rest[1..];
      if x in later {
        i, j := PieceIsSegment(s[1..], c, x);
        i, j := i + 1, j + 1;
        SegmentShifts(s, c, i, j);
      } else {
        SplitFirst(s, c);
        assert Split(s, c) == [Split(s, c)[0]] + later;
        i, j := 0, FirstEnd(s, c);
      }
    }
  }

  // --- accepted names ---

  const DEVICES: set<string> :=
    {"CON", "PRN", "AUX", "NUL", "COM1", "COM2", "COM3", "COM4", "COM5", "COM6", "COM7", "COM8", "COM9",
     "LPT1", "LPT2", "LPT3", "LPT4", "LPT5", "LPT6", "LPT7", "LPT8", "LPT9"}

  /** Every step of an accepted path goes down into something with a name of its own: it is not
      empty, not the directory itself or the one above, and does not end in a dot or a space. */
  lemma {:induction false} PathGoesDown(u: Unicode, s: string, i: nat, j: nat)
    requires GoodName(u, s) && Segment(PathOf(s), '/', i, j)
    ensures i < j <= |s| && s[i..j] != "." && s[i..j] != ".." && s[j - 1] != '.' && s[j - 1] != ' '
    ensures s[0] != '/' && forall k :: 0 <= k < |s| ==> s[k] !in {'\\', ':', '\0'} && !u.control(s[k])
    ensures forall k :: i <= k < j ==> s[k] !in {'<', '>', '|', '?', '*'}
  {
    hide Split;
    var path := PathOf(s);
    SegmentIsPiece(path, '/', i, j);
    var x := path[i..j];
    assert x == s[i..j] && GoodComponent(u, x);
    assert x[|x| - 1] == s[j - 1];
    forall k | i <= k < j ensures s[k] !in {'<', '>', '|', '?', '*'} {
      assert x[k - i] == s[k];
    }
  }

  /** The part of a step before its first dot is no device, in any case. */
  lemma {:induction false} NoDevice(u: Unicode, s: string, i: nat, j: nat, k: nat)
    requires GoodName(u, s) && Segment(PathOf(s), '/', i, j) && Segment(s[i..j], '.', 0, k)
    ensures Fold(u, s[i..i + k]) !in DEVICES
  {
    hide Split, Fold;
    var path := PathOf(s);
    SegmentIsPiece(path, '/', i, j);
    var x := path[i..j];
    assert x == s[i..j] && GoodComponent(u, x);
    SplitFirst(x, '.');
    FirstEndOnly(x, '.', k);
    assert x[..k] == s[i..i + k];
    DevicesAreStems(Fold(u, s[i..i + k]));
  }

  lemma DevicesAreStems(stem: string)
    ensures stem in DEVICES ==> IsDeviceStem(stem)
  {
  }

  predicate IsPlain(c: char) {
    'a' <= c <= 'z' || '0' <= c <= '9' || c == '-' || c == '_'
  }

  /** Paths of lower-case words of five and more letters and digits are accepted. */
  lemma {:induction false} PlainNames(u: Unicode, s: string)
    requires |s| > 0 && s[0] != '/' && u.normal(s)
    requires forall k :: 0 <= k < |s| ==> (IsPlain(s[k]) || s[k] == '/') && !u.control(s[k])
    requires forall i: nat, j: nat :: Segment(PathOf(s), '/', i, j) ==> j - i >= 5
    ensures GoodName(u, s)
  {
    hide Split;
    var path := PathOf(s);
    forall x | x in Split(path, '/') ensures GoodComponent(u, x) {
      var i, j := PieceIsSegment(path, '/', x);
      forall k | 0 <= k < |x| ensures IsPlain(x[k]) {
        assert x[k] == s[i + k] && path[i + k] != '/';
      }
      PlainComponent(u, x);
    }
  }

  lemma {:induction false} PlainComponent(u: Unicode, x: string)
    requires |x| >= 5 && forall k :: 0 <= k < |x| ==> IsPlain(x[k])
    ensures GoodComponent(u, x)
  {
    hide Split;
    SplitFirst(x, '.');
    var k := FirstEnd(x, '.');
    assert k == |x|;
    assert |Fold(u, x[..k])| == |x|;
  }
}
