/** Division facts used by several modules. */
module Arithmetic {

  lemma {:induction false} NestedDiv(x: nat, a: nat, b: nat)
    requires a > 0 && b > 0
    ensures a * b > 0 && x / (a * b) == x / a / b
  {
    NestedParts(a, b, x / a / b, x / a % b, x % a);
    var ab := a * b;
    DivUnique(x, ab, x / a / b, a * (x / a % b) + x % a);
  }

  lemma {:induction false} NestedParts(a: nat, b: nat, q: nat, r: nat, t: nat)
    requires r < b && t < a
    ensures a * b > 0 && a * (b * q + r) + t == (a * b) * q + (a * r + t) && a * r + t < a * b
  {
    Distribute(a, b, q, r);
    MulMonotone(a, r + 1, b);
  }

  lemma {:induction false} Distribute(a: nat, b: nat, q: nat, r: nat)
    ensures a * (b * q + r) == (a * b) * q + a * r
  {
  }

  lemma {:induction false} MulMonotone(a: nat, x: nat, y: nat)
    requires x <= y
    ensures a * x <= a * y
  {
  }

  lemma {:induction false} DivAdd(a: nat, v: nat, w: nat)
    requires w > 0
    ensures (w * a + v) / w == a + v / w
  {
    assert w * a + v == w * (a + v / w) + v % w;
    DivUnique(w * a + v, w, a + v / w, v % w);
  }

  lemma {:induction false} ModAdd(a: nat, v: nat, w: nat)
    requires w > 0
    ensures (w * a + v) % w == v % w
  {
    DivAdd(a, v, w);
    assert w * (a + v / w) == w * a + w * (v / w);
  }

  lemma {:induction false} LowThree(a: nat, l: nat)
    requires l < 8
    ensures (8 * a + l) % 2 == l % 2 && (8 * a + l) / 2 % 2 == l / 2 % 2 && (8 * a + l) / 4 % 2 == l / 4
  {
    ModAdd(4 * a, l, 2);
    DivAdd(4 * a, l, 2);
    ModAdd(2 * a, l / 2, 2);
    DivAdd(2 * a, l, 4);
    ModAdd(a, l / 4, 2);
  }

  lemma {:induction false} Regroup(a: nat, b: nat, c: nat)
    ensures a * (b * c) == c * (a * b)
  {
  }

  lemma {:induction false} DivUnique(x: nat, w: nat, q: nat, r: nat)
    requires w > 0 && x == w * q + r && r < w
    ensures x / w == q
  {
    var d := x / w - q;
    assert w * d == r - x % w;
  }
}
