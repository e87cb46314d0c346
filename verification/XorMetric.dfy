/** The XOR metric on node ids read as natural numbers. */
module XorMetric {
  import opened PartLists

  /** Bitwise exclusive or. */
  function Xor(a: nat, b: nat): nat {
    if a == 0 && b == 0 then 0
    else 2 * Xor(a / 2, b / 2) + if a % 2 == b % 2 then 0 else 1
  }

  /** Binary digit number i, the lowest being number 0. */
  function Bit(n: nat, i: nat): nat {
    (n / Pow2(i)) % 2
  }

  lemma BitZero(n: nat)
    ensures Bit(n, 0) == n % 2
  {
    assert Pow2(0) == 1;
  }

  lemma {:induction false} BitNext(n: nat, i: nat)
    ensures Bit(n, i + 1) == Bit(n / 2, i)
  {
    Pow2Monotone(0, i);
    DivideTwice(n, Pow2(i));
  }

  lemma DivideTwice(n: nat, p: nat)
    requires p > 0
    ensures n / (2 * p) == (n / 2) / p
  {
    var h := n / 2;
    var q, r := h / p, h % p;
    assert n == 2 * (q * p + r) + n % 2;
    assert n == q * (2 * p) + (2 * r + n % 2);
    DivIs(n, 2 * p, q, 2 * r + n % 2);
  }

  /** A digit of the exclusive or is set exactly when the digits differ. */
  lemma {:induction false} XorBits(a: nat, b: nat, i: nat)
    ensures Bit(Xor(a, b), i) == if Bit(a, i) == Bit(b, i) then 0 else 1
    decreases i
  {
    if i == 0 {
      BitZero(a);
      BitZero(b);
      BitZero(Xor(a, b));
    } else {
      BitNext(a, i - 1);
      BitNext(b, i - 1);
      BitNext(Xor(a, b), i - 1);
      assert Xor(a, b) / 2 == Xor(a / 2, b / 2);
      XorBits(a / 2, b / 2, i - 1);
    }
  }

  function BitLength(d: nat): nat {
    if d == 0 then 0 else 1 + BitLength(d / 2)
  }

  function Pow2(n: nat): (p: nat)
    ensures p > 0
  {
    if n == 0 then 1 else 2 * Pow2(n - 1)
  }

  lemma {:induction false} BitLengthBounds(d: nat)
    ensures d > 0 ==> Pow2(BitLength(d) - 1) <= d
    ensures d < Pow2(BitLength(d))
    decreases d
  {
    if d > 1 {
      BitLengthBounds(d / 2);
    }
  }

  lemma {:induction false} Pow2Monotone(m: nat, n: nat)
    requires m <= n
    ensures Pow2(m) <= Pow2(n)
    decreases n
  {
    if m < n { Pow2Monotone(m, n - 1); }
  }

  lemma {:induction false} BitLengthUnique(d: nat, n: nat)
    requires Pow2(n) <= d < Pow2(n + 1)
    ensures BitLength(d) == n + 1
  {
    BitLengthBounds(d);
    if BitLength(d) < n + 1 { Pow2Monotone(BitLength(d), n); }
    if BitLength(d) > n + 1 { Pow2Monotone(n + 1, BitLength(d) - 1); }
  }

  lemma {:induction false} XorSymmetric(a: nat, b: nat)
    ensures Xor(a, b) == Xor(b, a)
    decreases a + b
  {
    if a != 0 || b != 0 { XorSymmetric(a / 2, b / 2); }
  }

  lemma {:induction false} XorZero(a: nat, b: nat)
    ensures Xor(a, b) == 0 <==> a == b
    decreases a + b
  {
    if a != 0 || b != 0 { XorZero(a / 2, b / 2); }
  }

  /** Distances compose: going from a to c by way of b. */
  lemma {:induction false} XorCompose(a: nat, b: nat, c: nat)
    ensures Xor(a, c) == Xor(Xor(a, b), Xor(b, c))
    decreases a + b + c
  {
    if a != 0 || b != 0 || c != 0 { XorCompose(a / 2, b / 2, c / 2); }
  }

  /** Two numbers with the same top bit cancel it. */
  lemma {:induction false} XorSameTop(d: nat, e: nat, n: nat)
    requires Pow2(n) <= d < Pow2(n + 1) && Pow2(n) <= e < Pow2(n + 1)
    ensures Xor(d, e) < Pow2(n)
    decreases n
  {
    if n > 0 { XorSameTop(d / 2, e / 2, n - 1); }
  }

  /** The larger top bit survives. */
  lemma {:induction false} XorHigherTop(d: nat, e: nat, n: nat)
    requires Pow2(n) <= d < Pow2(n + 1) && e < Pow2(n)
    ensures Pow2(n) <= Xor(d, e) < Pow2(n + 1)
    decreases n
  {
    if n > 0 { XorHigherTop(d / 2, e / 2, n - 1); }
  }

  lemma {:induction false} XorBounded(d: nat, e: nat, n: nat)
    requires d < Pow2(n) && e < Pow2(n)
    ensures Xor(d, e) < Pow2(n)
    decreases n
  {
    if n > 0 { XorBounded(d / 2, e / 2, n - 1); }
  }
}
