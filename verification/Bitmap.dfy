/** The progress bitmap of mupgrade.h: bit k of a byte array, as MUPGRADE_GET_BITS reads it and
    MUPGRADE_SET_BITS writes it, and the merge the root computes by AND.
 */
module Bitmap {
  import opened Bytes

  predicate IsMask(m: Byte) {
    m == 0x01 || m == 0x02 || m == 0x04 || m == 0x08 || m == 0x10 || m == 0x20 || m == 0x40 || m == 0x80
  }

  /** 1 << (k & 7). */
  function Mask(k: nat): (m: Byte)
    ensures IsMask(m)
  {
    match k % 8
    case 0 => 0x01
    case 1 => 0x02
    case 2 => 0x04
    case 3 => 0x08
    case 4 => 0x10
    case 5 => 0x20
    case 6 => 0x40
    case _ => 0x80
  }

  predicate Meets(x: Byte, m: Byte) {
    x & m != 0
  }

  predicate HasBit(x: Byte, k: nat) {
    Meets(x, Mask(k))
  }

  /** MUPGRADE_GET_BITS. */
  predicate Get(a: seq<Byte>, k: nat)
    requires k / 8 < |a|
  {
    HasBit(a[k / 8], k)
  }

  /** MUPGRADE_SET_BITS, as the new contents of the array. */
  function Set(a: seq<Byte>, k: nat): (b: seq<Byte>)
    requires k / 8 < |a|
    ensures |b| == |a|
  {
    a[k / 8 := a[k / 8] | Mask(k)]
  }

  /** The AND of two bitmaps of one length. */
  function Merge(a: seq<Byte>, b: seq<Byte>): (c: seq<Byte>)
    requires |a| == |b|
    ensures |c| == |a|
    ensures forall i :: 0 <= i < |a| ==> c[i] == a[i] & b[i]
  {
    seq(|a|, i requires 0 <= i < |a| => a[i] & b[i])
  }

  lemma OrBit(x: Byte, m: Byte, n: Byte)
    requires IsMask(m) && IsMask(n)
    ensures Meets(x | m, n) <==> m == n || Meets(x, n)
  {
  }

  lemma MaskInjective(j: nat, k: nat)
    ensures Mask(j) == Mask(k) <==> j % 8 == k % 8
  {
  }

  lemma MaskBits(x: Byte, j: nat, k: nat)
    ensures HasBit(x | Mask(j), k) <==> j % 8 == k % 8 || HasBit(x, k)
  {
    MaskInjective(j, k);
    OrBit(x, Mask(j), Mask(k));
  }

  /** Setting bit j makes j set and leaves every other bit as it was. */
  lemma GetAfterSet(a: seq<Byte>, j: nat, k: nat)
    requires j / 8 < |a| && k / 8 < |a|
    ensures Get(Set(a, j), k) <==> j == k || Get(a, k)
  {
    if j / 8 == k / 8 {
      MaskBits(a[j / 8], j, k);
    }
  }

  /** A single-bit mask selects one bit, so AND of bytes is AND of every bit. */
  lemma MaskOfAnd(x: Byte, y: Byte, k: nat)
    ensures HasBit(x & y, k) <==> HasBit(x, k) && HasBit(y, k)
  {
    AndBit(x, y, Mask(k));
  }

  lemma AndBit(x: Byte, y: Byte, m: Byte)
    requires IsMask(m)
    ensures Meets(x & y, m) <==> Meets(x, m) && Meets(y, m)
  {
  }

  /** A bit survives the merge exactly when both bitmaps have it. */
  lemma GetAfterMerge(a: seq<Byte>, b: seq<Byte>, k: nat)
    requires |a| == |b| && k / 8 < |a|
    ensures Get(Merge(a, b), k) <==> Get(a, k) && Get(b, k)
  {
    var c, i := Merge(a, b), k / 8;
    assert c[i] == a[i] & b[i];
    MaskOfAnd(a[i], b[i], k);
  }

  lemma GetFilled(n: nat, k: nat)
    requires k / 8 < n
    ensures Get(Fill(n, 0xFF), k) && !Get(Fill(n, 0), k)
  {
    assert 0xFF as Byte & Mask(k) == Mask(k);
  }

  /** A byte differs from 0xFF exactly when one of its bits is clear. */
  lemma FullByte(x: Byte)
    ensures x == 0xFF <==> forall j :: 0 <= j < 8 ==> x & Mask(j) != 0
  {
    if forall j :: 0 <= j < 8 ==> x & Mask(j) != 0 {
      assert x & Mask(0) != 0 && x & Mask(1) != 0 && x & Mask(2) != 0 && x & Mask(3) != 0;
      assert x & Mask(4) != 0 && x & Mask(5) != 0 && x & Mask(6) != 0 && x & Mask(7) != 0;
      assert x & 0x01 != 0 && x & 0x02 != 0 && x & 0x04 != 0 && x & 0x08 != 0;
      assert x & 0x10 != 0 && x & 0x20 != 0 && x & 0x40 != 0 && x & 0x80 != 0;
    } else {
      var j :| 0 <= j < 8 && x & Mask(j) == 0;
      assert 0xFF as Byte & Mask(j) != 0;
    }
  }

  /** An array of 0xFF bytes is one in which every bit is set. */
  lemma AllSet(a: seq<Byte>)
    ensures (forall i :: 0 <= i < |a| ==> a[i] == 0xFF) <==> (forall k: nat :: k / 8 < |a| ==> Get(a, k))
  {
    if forall k: nat :: k / 8 < |a| ==> Get(a, k) {
      forall i | 0 <= i < |a| ensures a[i] == 0xFF {
        forall j | 0 <= j < 8 ensures a[i] & Mask(j) != 0 {
          var k: nat := 8 * i + j;
          assert k / 8 == i && k % 8 == j;
          assert Get(a, k);
        }
        FullByte(a[i]);
      }
    }
    if forall i :: 0 <= i < |a| ==> a[i] == 0xFF {
      forall k: nat | k / 8 < |a| ensures Get(a, k) {
        assert 0xFF as Byte & Mask(k) == Mask(k);
      }
    }
  }

  // ---- A bitmap as the set of its marked packets ----

  function Marks(a: seq<Byte>): (m: set<nat>)
    ensures forall k: nat :: k in m <==> k < 8 * |a| && Get(a, k)
  {
    set k: nat | k < 8 * |a| && Get(a, k)
  }

  /** Every packet number an array of n bytes can mark. */
  function AllMarks(n: nat): (m: set<nat>)
    ensures forall k: nat :: k in m <==> k < 8 * n
  {
    Below(8 * n)
  }

  function Below(n: nat): (m: set<nat>)
    ensures forall k: nat :: k in m <==> k < n
  {
    if n == 0 then {} else Below(n - 1) + {n - 1}
  }

  lemma MarksAfterSet(a: seq<Byte>, j: nat)
    requires j < 8 * |a|
    ensures Marks(Set(a, j)) == Marks(a) + {j}
  {
    var b := Set(a, j);
    forall k: nat ensures k in Marks(b) <==> k in Marks(a) + {j} {
      if k < 8 * |a| {
        GetAfterSet(a, j, k);
      }
    }
  }

  lemma MarksOfMerge(a: seq<Byte>, b: seq<Byte>)
    requires |a| == |b|
    ensures Marks(Merge(a, b)) == Marks(a) * Marks(b)
  {
    var c := Merge(a, b);
    forall k: nat ensures k in Marks(c) <==> k in Marks(a) * Marks(b) {
      if k < 8 * |a| {
        GetAfterMerge(a, b, k);
      }
    }
  }

  lemma MarksOfFill(n: nat)
    ensures Marks(Fill(n, 0)) == {} && Marks(Fill(n, 0xFF)) == AllMarks(n)
  {
    forall k: nat ensures k !in Marks(Fill(n, 0)) && (k in Marks(Fill(n, 0xFF)) <==> k < 8 * n) {
      if k < 8 * n {
        GetFilled(n, k);
      }
    }
  }

  /** Keeping the first n bytes and clearing the rest keeps exactly the marks below 8 * n. */
  lemma MarksOfPrefix(a: seq<Byte>, n: nat)
    requires n <= |a|
    ensures Marks(a[..n] + Fill(|a| - n, 0)) == (set k | k in Marks(a) && k < 8 * n)
  {
    var b := a[..n] + Fill(|a| - n, 0);
    forall k: nat ensures k in Marks(b) <==> k in Marks(a) && k < 8 * n {
      if k < 8 * |a| {
        if k < 8 * n {
          assert b[k / 8] == a[k / 8];
        } else {
          assert b[k / 8] == 0;
          ClearByte(k);
        }
      }
    }
  }

  lemma ClearByte(k: nat)
    ensures !HasBit(0, k)
  {
  }

  /** No byte differs from 0xFF exactly when every packet number is marked. */
  lemma MarksFull(a: seq<Byte>)
    ensures (forall i :: 0 <= i < |a| ==> a[i] == 0xFF) <==> Marks(a) == AllMarks(|a|)
  {
    AllSet(a);
    if Marks(a) == AllMarks(|a|) {
      forall k: nat | k / 8 < |a| ensures Get(a, k) {
        assert k in AllMarks(|a|);
      }
    }
    if forall k: nat :: k / 8 < |a| ==> Get(a, k) {
      forall k: nat ensures k in Marks(a) <==> k in AllMarks(|a|) {
      }
    }
  }
}
