/**
 Machine words of any width as natural numbers, with their bitwise operators and the
 bit counting instructions.
 */
module Bits {
  /** Bit `i` of a word. */
  predicate Bit(w: nat, i: nat) {
    if i == 0 then w % 2 == 1 else Bit(w / 2, i - 1)
  }

  function Pow2(n: nat): (r: nat)
    ensures r > 0
  {
    if n == 0 then 1 else 2 * Pow2(n - 1)
  }

  function And(a: nat, b: nat): nat {
    if a == 0 || b == 0 then 0 else 2 * And(a / 2, b / 2) + (if a % 2 == 1 && b % 2 == 1 then 1 else 0)
  }

  function Or(a: nat, b: nat): nat {
    if a == 0 then b else 2 * Or(a / 2, b / 2) + (if a % 2 == 1 || b % 2 == 1 then 1 else 0)
  }

  function Xor(a: nat, b: nat): nat {
    if a == 0 then b else 2 * Xor(a / 2, b / 2) + (if a % 2 != b % 2 then 1 else 0)
  }

  /** The complement of a word of `width` bits. */
  function Not(a: nat, width: nat): nat {
    if width == 0 then 0 else 2 * Not(a / 2, width - 1) + (1 - a % 2)
  }

  /** Number of zero bits below the lowest one. */
  function TrailingZeros(w: nat): (n: nat)
    requires w > 0
    ensures Bit(w, n) && forall i :: 0 <= i < n ==> !Bit(w, i)
  {
    if w % 2 == 1 then 0
    else
      var n := TrailingZeros(w / 2) + 1;
      assert forall i :: 0 < i < n ==> Bit(w, i) == Bit(w / 2, i - 1);
      n
  }

  /** Number of one bits below the lowest zero. */
  function TrailingOnes(w: nat): (n: nat)
    ensures !Bit(w, n) && forall i :: 0 <= i < n ==> Bit(w, i)
  {
    if w % 2 == 0 then 0
    else
      var n := TrailingOnes(w / 2) + 1;
      assert forall i :: 0 < i < n ==> Bit(w, i) == Bit(w / 2, i - 1);
      n
  }

  /** Number of zero bits above the highest one, in a word of `width` bits. */
  function LeadingZeros(w: nat, width: nat): (n: nat)
    requires w < Pow2(width)
    ensures n <= width
  {
    if w == 0 then width else LeadingZeros(w / 2, width - 1)
  }

  lemma {:induction false} ZeroBits(i: nat)
    ensures !Bit(0, i)
  {
    if i > 0 {
      ZeroBits(i - 1);
    }
  }

  /** A word below two to the n has no bits from n on. */
  lemma {:induction false} HighBits(w: nat, n: nat, i: nat)
    requires w < Pow2(n) && n <= i
    ensures !Bit(w, i)
  {
    if n == 0 {
      ZeroBits(i);
    } else {
      HighBits(w / 2, n - 1, i - 1);
    }
  }

  lemma {:induction false} Pow2Bits(n: nat, i: nat)
    ensures Bit(Pow2(n), i) <==> i == n
  {
    if n == 0 {
      if i > 0 {
        ZeroBits(i - 1);
      }
    } else if i > 0 {
      Pow2Bits(n - 1, i - 1);
      assert Pow2(n) / 2 == Pow2(n - 1);
    }
  }

  lemma {:induction false} AndBits(a: nat, b: nat, i: nat)
    ensures Bit(And(a, b), i) <==> Bit(a, i) && Bit(b, i)
  {
    if a == 0 || b == 0 {
      ZeroBits(i);
    } else if i > 0 {
      AndBits(a / 2, b / 2, i - 1);
      assert And(a, b) / 2 == And(a / 2, b / 2);
    }
  }

  lemma {:induction false} OrBits(a: nat, b: nat, i: nat)
    ensures Bit(Or(a, b), i) <==> Bit(a, i) || Bit(b, i)
  {
    if a == 0 {
      ZeroBits(i);
    } else if i > 0 {
      OrBits(a / 2, b / 2, i - 1);
      assert Or(a, b) / 2 == Or(a / 2, b / 2);
    }
  }

  lemma NotHalves(a: nat, width: nat)
    requires width > 0
    ensures Not(a, width) / 2 == Not(a / 2, width - 1) && Not(a, width) % 2 == 1 - a % 2
  {
  }

  lemma {:induction false} NotBits(a: nat, width: nat, i: nat)
    ensures Bit(Not(a, width), i) <==> i < width && !Bit(a, i)
  {
    if width == 0 {
      ZeroBits(i);
    } else {
      NotHalves(a, width);
      hide Not;
      if i > 0 {
        NotBits(a / 2, width - 1, i - 1);
      }
    }
  }

  lemma {:induction false} AndBound(a: nat, b: nat, n: nat)
    requires a < Pow2(n)
    ensures And(a, b) < Pow2(n) && And(a, b) <= a
  {
    if a != 0 && b != 0 {
      AndBound(a / 2, b / 2, n - 1);
    }
  }

  lemma {:induction false} OrBound(a: nat, b: nat, n: nat)
    requires a < Pow2(n) && b < Pow2(n)
    ensures Or(a, b) < Pow2(n)
  {
    if a != 0 {
      OrBound(a / 2, b / 2, n - 1);
    }
  }

  lemma {:induction false} Pow2Below(i: nat, n: nat)
    requires i < n
    ensures Pow2(i) < Pow2(n)
  {
    if i == 0 {
      assert Pow2(n) == 2 * Pow2(n - 1);
    } else {
      Pow2Below(i - 1, n - 1);
    }
  }

  /** A nonzero word of `width` bits has its lowest one within the width. */
  lemma TrailingZerosBound(w: nat, width: nat)
    requires 0 < w < Pow2(width)
    ensures TrailingZeros(w) < width
  {
    if TrailingZeros(w) >= width {
      HighBits(w, width, TrailingZeros(w));
    }
  }

  /** The all-ones word is the only one without a zero within the width. */
  lemma {:induction false} TrailingOnesBound(w: nat, width: nat)
    requires w < Pow2(width)
    ensures TrailingOnes(w) <= width
    ensures TrailingOnes(w) == width <==> w == Pow2(width) - 1
  {
    if width > 0 {
      if w % 2 == 1 {
        TrailingOnesBound(w / 2, width - 1);
      }
    }
  }

  /** The highest one of a word sits just below its leading zeros. */
  lemma {:induction false} LeadingZerosBits(w: nat, width: nat)
    requires 0 < w < Pow2(width)
    ensures LeadingZeros(w, width) < width
    ensures Bit(w, width - 1 - LeadingZeros(w, width))
    ensures forall i :: width - 1 - LeadingZeros(w, width) < i ==> !Bit(w, i)
  {
    var top := width - 1 - LeadingZeros(w, width);
    if w == 1 {
      assert LeadingZeros(0, width - 1) == width - 1;
      forall i | 0 < i
        ensures !Bit(w, i)
      {
        ZeroBits(i - 1);
      }
    } else {
      LeadingZerosBits(w / 2, width - 1);
      forall i | top < i
        ensures !Bit(w, i)
      {
        assert !Bit(w / 2, i - 1);
      }
    }
  }

  /** Clearing the lowest one by `w & (w - 1)`. */
  lemma {:induction false} ClearLowest(w: nat)
    requires w > 0
    ensures var cleared := And(w, w - 1);
            && cleared < w
            && forall i: nat :: Bit(cleared, i) <==> Bit(w, i) && i != TrailingZeros(w)
  {
    var low := TrailingZeros(w);
    var cleared := And(w, w - 1);
    if w % 2 == 1 {
      AndSelf(w / 2);
      assert (w - 1) / 2 == w / 2;
      assert cleared == w - 1;
      forall i: nat
        ensures Bit(cleared, i) <==> Bit(w, i) && i != low
      {
        if i > 0 {
          assert cleared / 2 == w / 2;
        }
      }
    } else {
      ClearLowest(w / 2);
      assert (w - 1) / 2 == w / 2 - 1;
      assert cleared == 2 * And(w / 2, w / 2 - 1);
      forall i: nat
        ensures Bit(cleared, i) <==> Bit(w, i) && i != low
      {
        if i > 0 {
          assert cleared / 2 == And(w / 2, w / 2 - 1);
          assert Bit(And(w / 2, w / 2 - 1), i - 1) <==> Bit(w / 2, i - 1) && i - 1 != TrailingZeros(w / 2);
        }
      }
    }
  }

  lemma {:induction false} AndSelf(w: nat)
    ensures And(w, w) == w
  {
    if w > 0 {
      AndSelf(w / 2);
    }
  }
}
