/** Binary digits of a machine word held as a natural number, and the two bitmap
    updates of kernel/src/mm/pmm.c and kernel/src/fs/ext2.c:
    `w |= 1 << i` is SetBit(w, i) and `w &= ~(1 << i)` is ClearBit(w, i).
    The same functions serve 64-bit frame-bitmap words and 8-bit ext2 bitmap bytes. */
module Bits {

  function Pow2(n: nat): (r: nat)
    ensures r >= 1
  {
    if n == 0 then 1 else 2 * Pow2(n - 1)
  }

  lemma {:induction false} Pow2Doubles(n: nat)
    ensures Pow2(n + n) == Pow2(n) * Pow2(n)
  {
    if n > 0 {
      Pow2Doubles(n - 1);
      var h := Pow2(n - 1);
      assert Pow2(n + n) == 2 * Pow2(n + n - 1) == 4 * Pow2(n - 1 + (n - 1));
      assert (2 * h) * (2 * h) == 4 * (h * h);
    }
  }

  /** The widths the kernel uses: bytes of a bitmap block and 64-bit words. */
  lemma Widths()
    ensures Pow2(8) == 0x100
    ensures Pow2(64) == 0x1_0000_0000_0000_0000
  {
    assert Pow2(4) == 16;
    Pow2Doubles(4);
    Pow2Doubles(8);
    Pow2Doubles(16);
    Pow2Doubles(32);
  }

  predicate Bit(w: nat, i: nat) {
    if i == 0 then w % 2 == 1 else Bit(w / 2, i - 1)
  }

  function SetBit(w: nat, i: nat): nat {
    if i == 0 then w / 2 * 2 + 1 else SetBit(w / 2, i - 1) * 2 + w % 2
  }

  function ClearBit(w: nat, i: nat): nat {
    if i == 0 then w / 2 * 2 else ClearBit(w / 2, i - 1) * 2 + w % 2
  }

  lemma {:induction false} SetBitMeaning(w: nat, i: nat, j: nat)
    ensures Bit(SetBit(w, i), j) <==> i == j || Bit(w, j)
  {
    if i != 0 && j != 0 {
      SetBitMeaning(w / 2, i - 1, j - 1);
    }
  }

  lemma {:induction false} ClearBitMeaning(w: nat, i: nat, j: nat)
    ensures Bit(ClearBit(w, i), j) <==> i != j && Bit(w, j)
  {
    if i != 0 && j != 0 {
      ClearBitMeaning(w / 2, i - 1, j - 1);
    }
  }

  /** Neither update leaves the width of the word. */
  lemma {:induction false} UpdatesKeepWidth(w: nat, i: nat, width: nat)
    requires i < width && w < Pow2(width)
    ensures SetBit(w, i) < Pow2(width) && ClearBit(w, i) < Pow2(width)
  {
    var half := Pow2(width - 1);
    assert w / 2 < half;
    if i != 0 {
      UpdatesKeepWidth(w / 2, i - 1, width - 1);
    }
  }

  /** Setting a clear bit and clearing it again gives the word back. */
  lemma {:induction false} ClearUndoesSet(w: nat, i: nat)
    requires !Bit(w, i)
    ensures ClearBit(SetBit(w, i), i) == w
  {
    if i != 0 {
      ClearUndoesSet(w / 2, i - 1);
    }
  }

  ghost predicate AllSet(w: nat, width: nat) {
    forall i: nat | i < width :: Bit(w, i)
  }

  /** A word is all ones exactly when every one of its bits is set. */
  lemma {:induction false} AllOnesMeaning(w: nat, width: nat)
    requires w < Pow2(width)
    ensures w == Pow2(width) - 1 <==> AllSet(w, width)
  {
    if width > 0 {
      var half := Pow2(width - 1);
      assert w / 2 < half;
      AllOnesMeaning(w / 2, width - 1);
      AllSetFromHalf(w, width);
    }
  }

  lemma AllSetFromHalf(w: nat, width: nat)
    requires width > 0
    ensures AllSet(w, width) <==> Bit(w, 0) && AllSet(w / 2, width - 1)
  {
    if AllSet(w, width) {
      var zero: nat := 0;
      assert Bit(w, zero);
      forall i: nat | i < width - 1 ensures Bit(w / 2, i) {
        assert Bit(w, i + 1);
      }
    } else if Bit(w, 0) && AllSet(w / 2, width - 1) {
      forall i: nat | i < width ensures Bit(w, i) {
        assert i > 0 ==> Bit(w / 2, i - 1);
      }
    }
  }
}
