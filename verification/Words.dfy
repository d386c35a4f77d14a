/** The C operators on unsigned words, as functions on natural numbers, and their meaning
    bit by bit. */
module Words {

  /** Bit `i` of `a`. */
  predicate Bit(a: nat, i: nat)
    decreases i
  {
    if i == 0 then a % 2 == 1 else Bit(a / 2, i - 1)
  }

  /** `a & b` */
  function And(a: nat, b: nat): nat {
    if a == 0 || b == 0 then 0
    else 2 * And(a / 2, b / 2) + (if a % 2 == 1 && b % 2 == 1 then 1 else 0)
  }

  /** `a | b` */
  function Or(a: nat, b: nat): nat {
    if a == 0 then b else if b == 0 then a
    else 2 * Or(a / 2, b / 2) + (if a % 2 == 1 || b % 2 == 1 then 1 else 0)
  }

  /** `a & ~b` */
  function AndNot(a: nat, b: nat): nat {
    if a == 0 then 0
    else 2 * AndNot(a / 2, b / 2) + (if a % 2 == 1 && b % 2 == 0 then 1 else 0)
  }

  /** `a << s`, of which no bit is lost */
  function Shl(a: nat, s: nat): nat
    decreases s
  {
    if s == 0 then a else 2 * Shl(a, s - 1)
  }

  /** `a >> s` */
  function Shr(a: nat, s: nat): nat
    decreases s
  {
    if s == 0 then a else Shr(a / 2, s - 1)
  }

  /** The mask of `w` low bits. */
  function Ones(w: nat): nat {
    if w == 0 then 0 else 2 * Ones(w - 1) + 1
  }

  /** c_mask: the bits `lo` to `hi`. */
  function CMask(hi: nat, lo: nat): nat
    requires lo <= hi
  {
    Shl(Ones(hi - lo + 1), lo)
  }

  lemma {:induction false} ZeroBits(i: nat)
    ensures !Bit(0, i)
    decreases i
  {
    if i > 0 { ZeroBits(i - 1); }
  }

  lemma {:induction false} BitAnd(a: nat, b: nat, i: nat)
    ensures Bit(And(a, b), i) <==> Bit(a, i) && Bit(b, i)
    decreases i
  {
    if a == 0 || b == 0 {
      ZeroBits(i);
    } else if i > 0 {
      BitAnd(a / 2, b / 2, i - 1);
      assert And(a, b) / 2 == And(a / 2, b / 2);
    }
  }

  lemma {:induction false} BitOr(a: nat, b: nat, i: nat)
    ensures Bit(Or(a, b), i) <==> Bit(a, i) || Bit(b, i)
    decreases i
  {
    if a == 0 || b == 0 {
      ZeroBits(i);
    } else if i > 0 {
      BitOr(a / 2, b / 2, i - 1);
      assert Or(a, b) / 2 == Or(a / 2, b / 2);
    }
  }

  lemma {:induction false} BitAndNot(a: nat, b: nat, i: nat)
    ensures Bit(AndNot(a, b), i) <==> Bit(a, i) && !Bit(b, i)
    decreases i
  {
    if a == 0 {
      ZeroBits(i);
    } else if i > 0 {
      BitAndNot(a / 2, b / 2, i - 1);
      assert AndNot(a, b) / 2 == AndNot(a / 2, b / 2);
    }
  }

  lemma {:induction false} BitShl(a: nat, s: nat, i: nat)
    ensures Bit(Shl(a, s), i) <==> i >= s && Bit(a, i - s)
    decreases s
  {
    if s > 0 {
      assert Shl(a, s) / 2 == Shl(a, s - 1) && Shl(a, s) % 2 == 0;
      if i > 0 {
        BitShl(a, s - 1, i - 1);
      }
    }
  }

  lemma {:induction false} BitShr(a: nat, s: nat, i: nat)
    ensures Bit(Shr(a, s), i) <==> Bit(a, i + s)
    decreases s
  {
    if s > 0 {
      BitShr(a / 2, s - 1, i);
    }
  }

  lemma {:induction false} BitOnes(w: nat, i: nat)
    ensures Bit(Ones(w), i) <==> i < w
    decreases i
  {
    if w == 0 {
      ZeroBits(i);
    } else if i > 0 {
      assert Ones(w) / 2 == Ones(w - 1);
      BitOnes(w - 1, i - 1);
    }
  }

  lemma BitCMask(hi: nat, lo: nat, i: nat)
    requires lo <= hi
    ensures Bit(CMask(hi, lo), i) <==> lo <= i <= hi
  {
    BitShl(Ones(hi - lo + 1), lo, i);
    if i >= lo {
      BitOnes(hi - lo + 1, i - lo);
    }
  }

  /** Two numbers with the same bits are equal. */
  lemma {:induction false} SameBits(a: nat, b: nat)
    requires forall i: nat :: Bit(a, i) <==> Bit(b, i)
    ensures a == b
    decreases a + b
  {
    if a != 0 || b != 0 {
      forall i: nat ensures Bit(a / 2, i) <==> Bit(b / 2, i) {
        assert Bit(a, i + 1) <==> Bit(b, i + 1);
      }
      SameBits(a / 2, b / 2);
      assert Bit(a, 0) <==> Bit(b, 0);
    }
  }

  /** A number with no bit at `w` or above is at most `w` ones. */
  lemma {:induction false} HighBitsClear(a: nat, w: nat)
    requires forall i: nat :: i >= w ==> !Bit(a, i)
    ensures a <= Ones(w)
    decreases w
  {
    if w == 0 {
      forall i: nat ensures Bit(a, i) <==> Bit(0, i) { ZeroBits(i); }
      SameBits(a, 0);
    } else {
      forall i: nat | i >= w - 1 ensures !Bit(a / 2, i) {
        assert !Bit(a, i + 1);
      }
      HighBitsClear(a / 2, w - 1);
    }
  }

  lemma {:induction false} AtMostOnes(a: nat, w: nat, i: nat)
    requires a <= Ones(w) && i >= w
    ensures !Bit(a, i)
    decreases i
  {
    if w == 0 {
      ZeroBits(i);
    } else {
      AtMostOnes(a / 2, w - 1, i - 1);
    }
  }
}
