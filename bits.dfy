/**
 * Unsigned bytes and 32-bit register words as bounded integers, with the
 * bitwise operations the driver applies to them defined one bit at a time,
 * and the laws about them that the rest of the model relies on.
 */
module Bits {

  type Byte = b: int | 0 <= b < 0x100
  type Word = w: int | 0 <= w < 0x1_0000_0000

  function Pow2(n: nat): (r: nat)
    ensures r >= 1
  {
    if n == 0 then 1 else 2 * Pow2(n - 1)
  }

  lemma {:induction false} Pow2Add(a: nat, b: nat)
    ensures Pow2(a + b) == Pow2(a) * Pow2(b)
    decreases a
  {
    if a > 0 {
      Pow2Add(a - 1, b);
      assert Pow2(a + b) == 2 * Pow2(a - 1 + b);
    }
  }

  lemma Pow2Word()
    ensures Pow2(32) == 0x1_0000_0000
  {
    assert Pow2(8) == 0x100;
    Pow2Add(8, 8);
    Pow2Add(16, 16);
  }

  /** The three bitwise combinations the driver uses: `a & b`, `a | b` and `a & ~b`. */
  datatype Op = AndOp | OrOp | ClearOp

  /** One bit of a bitwise combination. */
  function Bit(op: Op, x: nat, y: nat): (r: nat)
    requires x < 2 && y < 2
    ensures r < 2
  {
    match op
    case AndOp => if x == 1 && y == 1 then 1 else 0
    case OrOp => if x == 1 || y == 1 then 1 else 0
    case ClearOp => if x == 1 && y == 0 then 1 else 0
  }

  /** The bitwise combination of two naturals, least significant bit first. */
  function Bitwise(op: Op, a: nat, b: nat): nat
    decreases a + b
  {
    if a == 0 && b == 0 then 0 else 2 * Bitwise(op, a / 2, b / 2) + Bit(op, a % 2, b % 2)
  }

  /** Splitting off the lowest bit commutes with every bitwise combination. */
  lemma Halves(op: Op, a: nat, b: nat)
    ensures Bitwise(op, a, b) / 2 == Bitwise(op, a / 2, b / 2)
    ensures Bitwise(op, a, b) % 2 == Bit(op, a % 2, b % 2)
  {
  }

  /** Two naturals with the same lowest bit and the same remaining bits are equal. */
  lemma ByHalves(x: nat, y: nat)
    requires x / 2 == y / 2 && x % 2 == y % 2
    ensures x == y
  {
  }

  lemma {:induction false} BitwiseBelow(op: Op, a: nat, b: nat, n: nat)
    requires a < Pow2(n) && b < Pow2(n)
    ensures Bitwise(op, a, b) < Pow2(n)
    decreases n
  {
    if n > 0 && a + b > 0 {
      BitwiseBelow(op, a / 2, b / 2, n - 1);
    }
  }

  /** A conjunction, or a clearing, keeps no bit its first operand lacks. */
  lemma {:induction false} BitwiseAtMost(op: Op, a: nat, b: nat)
    requires op != OrOp
    ensures Bitwise(op, a, b) <= a
    ensures op == AndOp ==> Bitwise(op, a, b) <= b
    decreases a + b
  {
    if a + b > 0 {
      BitwiseAtMost(op, a / 2, b / 2);
    }
  }

  lemma {:induction false} BitwiseCommutes(op: Op, a: nat, b: nat)
    requires op != ClearOp
    ensures Bitwise(op, a, b) == Bitwise(op, b, a)
    decreases a + b
  {
    if a + b > 0 {
      BitwiseCommutes(op, a / 2, b / 2);
    }
  }

  function And(a: Word, b: Word): (r: Word)
    ensures r <= a && r <= b
  {
    BitwiseAtMost(AndOp, a, b);
    Bitwise(AndOp, a, b)
  }

  function Or(a: Word, b: Word): Word {
    Pow2Word();
    BitwiseBelow(OrOp, a, b, 32);
    Bitwise(OrOp, a, b)
  }

  /** `a & ~m`: the bits of `a` outside `m`. */
  function Clear(a: Word, m: Word): (r: Word)
    ensures r <= a
  {
    BitwiseAtMost(ClearOp, a, m);
    Bitwise(ClearOp, a, m)
  }

  /** The masked update `(prev & ~mask) | (data & mask)`. */
  function Masked(prev: Word, data: Word, mask: Word): Word {
    Or(Clear(prev, mask), And(data, mask))
  }

  lemma OrCommutes(a: Word, b: Word)
    ensures Or(a, b) == Or(b, a)
  {
    BitwiseCommutes(OrOp, a, b);
  }

  /** The lowest bit and the remaining bits of a masked update. */
  lemma MaskedHalves(p: nat, d: nat, m: nat)
    ensures var r := Bitwise(OrOp, Bitwise(ClearOp, p, m), Bitwise(AndOp, d, m));
            && r / 2 == Bitwise(OrOp, Bitwise(ClearOp, p / 2, m / 2), Bitwise(AndOp, d / 2, m / 2))
            && r % 2 == (if m % 2 == 1 then d % 2 else p % 2)
  {
    Halves(ClearOp, p, m);
    Halves(AndOp, d, m);
    Halves(OrOp, Bitwise(ClearOp, p, m), Bitwise(AndOp, d, m));
  }

  /** Under the mask, a masked update holds the data; outside it, the old value. */
  lemma {:induction false} MaskedSelects(p: nat, d: nat, m: nat)
    ensures var r := Bitwise(OrOp, Bitwise(ClearOp, p, m), Bitwise(AndOp, d, m));
            && Bitwise(AndOp, r, m) == Bitwise(AndOp, d, m)
            && Bitwise(ClearOp, r, m) == Bitwise(ClearOp, p, m)
    decreases p + d + m
  {
    var r := Bitwise(OrOp, Bitwise(ClearOp, p, m), Bitwise(AndOp, d, m));
    if p + d + m > 0 {
      MaskedSelects(p / 2, d / 2, m / 2);
      MaskedHalves(p, d, m);
      Halves(AndOp, r, m);
      Halves(AndOp, d, m);
      Halves(ClearOp, r, m);
      Halves(ClearOp, p, m);
      ByHalves(Bitwise(AndOp, r, m), Bitwise(AndOp, d, m));
      ByHalves(Bitwise(ClearOp, r, m), Bitwise(ClearOp, p, m));
    }
  }

  lemma {:induction false} MaskedTwiceBits(p: nat, d: nat, m: nat)
    ensures var r := Bitwise(OrOp, Bitwise(ClearOp, p, m), Bitwise(AndOp, d, m));
            Bitwise(OrOp, Bitwise(ClearOp, r, m), Bitwise(AndOp, d, m)) == r
    decreases p + d + m
  {
    var r := Bitwise(OrOp, Bitwise(ClearOp, p, m), Bitwise(AndOp, d, m));
    if p + d + m > 0 {
      MaskedTwiceBits(p / 2, d / 2, m / 2);
      MaskedHalves(p, d, m);
      MaskedHalves(r, d, m);
      ByHalves(Bitwise(OrOp, Bitwise(ClearOp, r, m), Bitwise(AndOp, d, m)), r);
    }
  }

  /** The bits of a masked update under the mask are those of the data,
      and the bits outside it are those of the old value. */
  lemma MaskedFields(prev: Word, data: Word, mask: Word)
    ensures And(Masked(prev, data, mask), mask) == And(data, mask)
    ensures Clear(Masked(prev, data, mask), mask) == Clear(prev, mask)
  {
    MaskedSelects(prev, data, mask);
  }

  /** Repeating a masked update changes nothing more. */
  lemma MaskedTwice(prev: Word, data: Word, mask: Word)
    ensures Masked(Masked(prev, data, mask), data, mask) == Masked(prev, data, mask)
  {
    MaskedTwiceBits(prev, data, mask);
  }

  /** A conjunction with `b` has no bit outside `b`. */
  lemma {:induction false} AndInside(a: nat, b: nat)
    ensures Bitwise(ClearOp, Bitwise(AndOp, a, b), b) == 0
    decreases a + b
  {
    if a + b > 0 {
      AndInside(a / 2, b / 2);
      Halves(AndOp, a, b);
      Halves(ClearOp, Bitwise(AndOp, a, b), b);
      ByHalves(Bitwise(ClearOp, Bitwise(AndOp, a, b), b), 0);
    }
  }

  /** A conjunction with `b` keeps only bits of `a`. */
  lemma {:induction false} AndWithin(a: nat, b: nat)
    ensures Bitwise(AndOp, Bitwise(AndOp, a, b), a) == Bitwise(AndOp, a, b)
    decreases a + b
  {
    if a + b > 0 {
      AndWithin(a / 2, b / 2);
      Halves(AndOp, a, b);
      Halves(AndOp, Bitwise(AndOp, a, b), a);
      ByHalves(Bitwise(AndOp, Bitwise(AndOp, a, b), a), Bitwise(AndOp, a, b));
    }
  }

  lemma {:induction false} OrZero(y: nat)
    ensures Bitwise(OrOp, 0, y) == y
    decreases y
  {
    if y > 0 {
      OrZero(y / 2);
    }
  }

  /** `x | y << k` is `x + y * 2^k` when `x` fits below bit `k`: the byte
      lanes the packer combines with `|` never overlap. */
  lemma {:induction false} OrDisjoint(x: nat, y: nat, k: nat)
    requires x < Pow2(k)
    ensures Bitwise(OrOp, x, y * Pow2(k)) == x + y * Pow2(k)
    decreases k
  {
    if k == 0 {
      OrZero(y);
    } else {
      var h := y * Pow2(k - 1);
      var z := y * Pow2(k);
      assert z == 2 * h;
      assert z / 2 == h && z % 2 == 0;
      assert (x + z) / 2 == x / 2 + h && (x + z) % 2 == x % 2;
      OrDisjoint(x / 2, y, k - 1);
      Halves(OrOp, x, z);
      ByHalves(Bitwise(OrOp, x, z), x + z);
    }
  }

  /** Or-ing a value with itself gives the value. */
  lemma {:induction false} OrIdempotent(x: nat)
    ensures Bitwise(OrOp, x, x) == x
    decreases x
  {
    if x > 0 {
      OrIdempotent(x / 2);
      Halves(OrOp, x, x);
      ByHalves(Bitwise(OrOp, x, x), x);
    }
  }

  /** And-ing a value with itself gives the value. */
  lemma {:induction false} AndIdempotent(x: nat)
    ensures Bitwise(AndOp, x, x) == x
    decreases x
  {
    if x > 0 {
      AndIdempotent(x / 2);
      Halves(AndOp, x, x);
      ByHalves(Bitwise(AndOp, x, x), x);
    }
  }

  /** A masked update whose data is its mask sets the mask's bits, and one
      whose data is 0 clears them; the other bits keep their old value. */
  lemma MaskedSetsAndClears(prev: Word, mask: Word)
    ensures And(Masked(prev, mask, mask), mask) == mask
    ensures And(Masked(prev, 0, mask), mask) == 0
    ensures Clear(Masked(prev, mask, mask), mask) == Clear(prev, mask)
    ensures Clear(Masked(prev, 0, mask), mask) == Clear(prev, mask)
  {
    MaskedFields(prev, mask, mask);
    MaskedFields(prev, 0, mask);
    AndIdempotent(mask);
    AndZero(mask);
  }

  lemma {:induction false} AndZero(b: nat)
    ensures Bitwise(AndOp, 0, b) == 0
    decreases b
  {
    if b > 0 {
      AndZero(b / 2);
    }
  }

  lemma {:induction false} AndAssociates(a: nat, b: nat, c: nat)
    ensures Bitwise(AndOp, Bitwise(AndOp, a, b), c) == Bitwise(AndOp, a, Bitwise(AndOp, b, c))
    decreases a + b + c
  {
    if a + b + c > 0 {
      AndAssociates(a / 2, b / 2, c / 2);
      Halves(AndOp, a, b);
      Halves(AndOp, b, c);
      Halves(AndOp, Bitwise(AndOp, a, b), c);
      Halves(AndOp, a, Bitwise(AndOp, b, c));
      ByHalves(Bitwise(AndOp, Bitwise(AndOp, a, b), c), Bitwise(AndOp, a, Bitwise(AndOp, b, c)));
    }
  }

  /** The bits of `y` are among those of `x | y`. */
  lemma {:induction false} AndOrAbsorbs(x: nat, y: nat)
    ensures Bitwise(AndOp, Bitwise(OrOp, x, y), y) == y
    decreases x + y
  {
    if x + y > 0 {
      AndOrAbsorbs(x / 2, y / 2);
      Halves(OrOp, x, y);
      Halves(AndOp, Bitwise(OrOp, x, y), y);
      ByHalves(Bitwise(AndOp, Bitwise(OrOp, x, y), y), y);
    }
  }
}
