/** Powers of two, bit length, and the walk from a heap-numbered node towards the root. */
module Bits {

  function Pow2(n: nat): (r: nat)
    ensures r >= 1
  {
    if n == 0 then 1 else 2 * Pow2(n - 1)
  }

  lemma {:induction false} Pow2Monotone(a: nat, b: nat)
    requires a <= b
    ensures Pow2(a) <= Pow2(b)
  {
    if a < b { Pow2Monotone(a, b - 1); }
  }

  /** Number of binary digits of m; zero has none. */
  function BitLen(m: nat): nat {
    if m == 0 then 0 else 1 + BitLen(m / 2)
  }

  lemma {:induction false} BitLenBounds(m: nat)
    ensures m < Pow2(BitLen(m))
    ensures m > 0 ==> BitLen(m) > 0 && Pow2(BitLen(m) - 1) <= m
  {
    if m > 0 { BitLenBounds(m / 2); }
  }

  /** Height of the smallest binary tree with room for n leaves. */
  function CeilLog2(n: int): nat {
    if n <= 0 then 0 else BitLen(n - 1)
  }

  lemma CeilLog2Bounds(n: int)
    ensures n <= Pow2(CeilLog2(n))
    ensures CeilLog2(n) > 0 ==> Pow2(CeilLog2(n) - 1) < n
  {
    if n > 0 { BitLenBounds(n - 1); }
  }

  /** CeilLog2 is the least exponent whose power reaches n. */
  lemma CeilLog2Least(n: int, h: nat)
    ensures n <= Pow2(h) <==> CeilLog2(n) <= h
  {
    CeilLog2Bounds(n);
    if CeilLog2(n) <= h {
      Pow2Monotone(CeilLog2(n), h);
    } else {
      Pow2Monotone(h, CeilLog2(n) - 1);
    }
  }

  /** The ancestor h levels above node x in heap numbering. */
  function Ancestor(x: nat, h: nat): nat {
    if h == 0 then x else Ancestor(x / 2, h - 1)
  }

  lemma {:induction false} AncestorStep(x: nat, h: nat)
    ensures Ancestor(x, h + 1) == Ancestor(x, h) / 2
  {
    if h > 0 { AncestorStep(x / 2, h - 1); }
  }

  /** Leftmost descendant h levels below node x. */
  function FirstBelow(x: nat, h: nat): nat
    decreases h
  {
    if h == 0 then x else FirstBelow(2 * x, h - 1)
  }

  lemma {:induction false} FirstBelowNext(x: nat, h: nat)
    ensures FirstBelow(x + 1, h) == FirstBelow(x, h) + Pow2(h)
    decreases h
  {
    if h > 0 {
      FirstBelowNext(2 * x, h - 1);
      FirstBelowNext(2 * x + 1, h - 1);
    }
  }

  lemma {:induction false} FirstBelowStep(x: nat, h: nat)
    ensures FirstBelow(x, h + 1) == 2 * FirstBelow(x, h)
    decreases h
  {
    if h > 0 { FirstBelowStep(2 * x, h - 1); }
  }

  lemma {:induction false} FirstBelowPow2(a: nat, h: nat)
    ensures FirstBelow(Pow2(a), h) == Pow2(a + h)
    decreases h
  {
    if h > 0 { FirstBelowPow2(a + 1, h - 1); }
  }

  lemma {:induction false} FirstBelowMonotone(x: nat, y: nat, h: nat)
    requires x <= y
    ensures FirstBelow(x, h) <= FirstBelow(y, h)
    decreases h
  {
    if h > 0 { FirstBelowMonotone(2 * x, 2 * y, h - 1); }
  }

  /** A node is the h-th ancestor of exactly the block of Pow2(h) nodes below it. */
  lemma {:induction false} AncestorBlock(l: nat, h: nat, x: nat)
    ensures Ancestor(l, h) == x <==> FirstBelow(x, h) <= l < FirstBelow(x, h) + Pow2(h)
  {
    if h > 0 {
      AncestorBlock(l / 2, h - 1, x);
      FirstBelowStep(x, h - 1);
    }
  }

  /** Ancestors of a node of row a stay within row a - h. */
  lemma AncestorRow(l: nat, a: nat, h: nat)
    requires h <= a && Pow2(a) <= l < Pow2(a + 1)
    ensures Pow2(a - h) <= Ancestor(l, h) < Pow2(a - h + 1)
  {
    var x := Ancestor(l, h);
    AncestorBlock(l, h, x);
    FirstBelowPow2(a - h, h);
    FirstBelowPow2(a - h + 1, h);
    FirstBelowNext(x, h);
    if x < Pow2(a - h) { FirstBelowMonotone(x + 1, Pow2(a - h), h); }
    if x >= Pow2(a - h + 1) { FirstBelowMonotone(Pow2(a - h + 1), x, h); }
  }

  /** A node belongs to one row only. */
  lemma RowUnique(x: nat, a: nat, b: nat)
    requires Pow2(a) <= x < Pow2(a + 1) && Pow2(b) <= x < Pow2(b + 1)
    ensures a == b
  {
    if a < b { Pow2Monotone(a + 1, b); }
    if b < a { Pow2Monotone(b + 1, a); }
  }
}
