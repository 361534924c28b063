/** One 32-bit word of the frame bitmap, bit by bit. */
module BitWords {
  function Pow2(n: nat): (p: nat)
    ensures p > 0
  {
    if n == 0 then 1 else 2 * Pow2(n - 1)
  }

  const WORD_BITS := 32
  const FULL := 0xFFFF_FFFF

  type Word32 = w: nat | w <= FULL

  type Bit = j: nat | j < WORD_BITS

  // w & (1U << j)
  predicate Test(w: nat, j: nat) {
    BitAt(w, j)
  }

  // The recursion behind it, kept out of quantifiers over Test.
  predicate BitAt(w: nat, j: nat) {
    if j == 0 then w % 2 == 1 else BitAt(w / 2, j - 1)
  }

  // w | (1U << j)
  function Set(w: nat, j: nat): nat {
    if j == 0 then w - w % 2 + 1 else 2 * Set(w / 2, j - 1) + w % 2
  }

  // w & ~(1U << j)
  function Clear(w: nat, j: nat): nat {
    if j == 0 then w - w % 2 else 2 * Clear(w / 2, j - 1) + w % 2
  }

  lemma {:induction false} SetTest(w: nat, j: nat, k: nat)
    ensures Test(Set(w, j), k) <==> j == k || Test(w, k)
  {
    if j == 0 && k != 0 {
      assert (w - w % 2 + 1) / 2 == w / 2;
    } else if j != 0 {
      assert Set(w, j) / 2 == Set(w / 2, j - 1) && Set(w, j) % 2 == w % 2;
      if k != 0 {
        SetTest(w / 2, j - 1, k - 1);
      }
    }
  }

  lemma {:induction false} ClearTest(w: nat, j: nat, k: nat)
    ensures Test(Clear(w, j), k) <==> j != k && Test(w, k)
  {
    if j == 0 && k != 0 {
      assert (w - w % 2) / 2 == w / 2;
    } else if j != 0 {
      assert Clear(w, j) / 2 == Clear(w / 2, j - 1) && Clear(w, j) % 2 == w % 2;
      if k != 0 {
        ClearTest(w / 2, j - 1, k - 1);
      }
    }
  }

  lemma {:induction false} UpdateInRange(w: nat, j: nat, n: nat)
    requires w < Pow2(n) && j < n
    ensures Set(w, j) < Pow2(n) && Clear(w, j) < Pow2(n)
  {
    if j != 0 {
      UpdateInRange(w / 2, j - 1, n - 1);
    }
  }

  lemma {:induction false} OnesTest(n: nat, j: nat)
    requires j < n
    ensures Test(Pow2(n) - 1, j)
  {
    assert (Pow2(n) - 1) / 2 == Pow2(n - 1) - 1;
    if j != 0 {
      OnesTest(n - 1, j - 1);
    }
  }

  lemma {:induction false} AllBits(w: nat, n: nat)
    requires w < Pow2(n)
    requires forall j: nat :: j < n ==> Test(w, j)
    ensures w == Pow2(n) - 1
  {
    if n != 0 {
      forall j: nat | j < n - 1 ensures Test(w / 2, j) {
        var k := j + 1;
        assert Test(w, k);
      }
      assert Test(w, 0);
      AllBits(w / 2, n - 1);
    }
  }

  lemma WordRange()
    ensures Pow2(WORD_BITS) == FULL + 1
  {
    assert Pow2(8) == 0x100;
    assert Pow2(16) == 0x1_0000;
    assert Pow2(24) == 0x100_0000;
  }

  // Comparing a word with UINT32_MAX tells exactly whether it still has a clear bit.
  lemma FullWord(w: Word32)
    ensures w == FULL <==> forall j: nat :: j < WORD_BITS ==> Test(w, j)
  {
    WordRange();
    if forall j: nat :: j < WORD_BITS ==> Test(w, j) {
      AllBits(w, WORD_BITS);
    } else {
      var j: nat :| j < WORD_BITS && !Test(w, j);
      OnesTest(WORD_BITS, j);
    }
  }

  lemma WordUpdate(w: Word32, j: Bit)
    ensures Set(w, j) <= FULL && Clear(w, j) <= FULL
  {
    WordRange();
    UpdateInRange(w, j, WORD_BITS);
  }
}
