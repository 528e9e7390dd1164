/** The bit operations of unsigned machine words, on the numbers they stand for. */
module Words {

  function Pow2(n: nat): (p: nat)
    ensures p > 0
  {
    if n == 0 then 1 else 2 * Pow2(n - 1)
  }

  /** Bit c of x. */
  predicate Bit(x: nat, c: nat) {
    if c == 0 then x % 2 == 1 else Bit(x / 2, c - 1)
  }

  function Of(b: bool): nat {
    if b then 1 else 0
  }

  /** x | y, x & y and ~x on words of n bits. */
  function Or(x: nat, y: nat, n: nat): nat {
    if n == 0 then 0 else 2 * Or(x / 2, y / 2, n - 1) + Of(x % 2 == 1 || y % 2 == 1)
  }

  function And(x: nat, y: nat, n: nat): nat {
    if n == 0 then 0 else 2 * And(x / 2, y / 2, n - 1) + Of(x % 2 == 1 && y % 2 == 1)
  }

  function Not(x: nat, n: nat): nat {
    if n == 0 then 0 else 2 * Not(x / 2, n - 1) + Of(x % 2 == 0)
  }

  lemma {:induction false} Width(x: nat, y: nat, n: nat)
    ensures Or(x, y, n) < Pow2(n) && And(x, y, n) < Pow2(n) && Not(x, n) < Pow2(n)
  {
    if n > 0 {
      Width(x / 2, y / 2, n - 1);
    }
  }

  lemma {:induction false} OrBit(x: nat, y: nat, n: nat, c: nat)
    requires c < n
    ensures Bit(Or(x, y, n), c) <==> Bit(x, c) || Bit(y, c)
  {
    if c > 0 {
      OrBit(x / 2, y / 2, n - 1, c - 1);
    }
  }

  lemma {:induction false} AndBit(x: nat, y: nat, n: nat, c: nat)
    requires c < n
    ensures Bit(And(x, y, n), c) <==> Bit(x, c) && Bit(y, c)
  {
    if c > 0 {
      AndBit(x / 2, y / 2, n - 1, c - 1);
    }
  }

  lemma {:induction false} NotBit(x: nat, n: nat, c: nat)
    requires c < n
    ensures Bit(Not(x, n), c) <==> !Bit(x, c)
  {
    if c > 0 {
      NotBit(x / 2, n - 1, c - 1);
    }
  }

  /** 1 << b has exactly bit b. */
  lemma {:induction false} MaskBit(b: nat, c: nat)
    ensures Bit(Pow2(b), c) <==> b == c
  {
    if b > 0 && c > 0 {
      MaskBit(b - 1, c - 1);
    } else if b == 0 && c > 0 {
      ZeroBit(c - 1);
    }
  }

  lemma {:induction false} ZeroBit(c: nat)
    ensures !Bit(0, c)
  {
    if c > 0 {
      ZeroBit(c - 1);
    }
  }

  lemma {:induction false} AndZero(x: nat, n: nat)
    ensures And(x, 0, n) == 0
  {
    if n > 0 {
      AndZero(x / 2, n - 1);
    }
  }

  /** A word and-ed with 1 << b is 0 exactly if its bit b is clear. */
  lemma {:induction false} AndMask(x: nat, b: nat, n: nat)
    requires b < n
    ensures And(x, Pow2(b), n) == 0 <==> !Bit(x, b)
  {
    if b == 0 {
      AndZero(x / 2, n - 1);
    } else {
      AndMask(x / 2, b - 1, n - 1);
    }
  }
}
