/** Bit fields of words held as natural numbers. */
module BitFields {

  function Pow2(n: nat): (p: nat)
    ensures p > 0
  {
    if n == 0 then 1 else 2 * Pow2(n - 1)
  }

  /** `(w >> lo) & ((1 << len) - 1)`. */
  function Bits(w: nat, lo: nat, len: nat): (r: nat)
    ensures r < Pow2(len)
  {
    (w / Pow2(lo)) % Pow2(len)
  }

  lemma {:induction false} Pow2Add(m: nat, n: nat)
    ensures Pow2(m + n) == Pow2(m) * Pow2(n)
  {
    if m != 0 {
      Pow2Add(m - 1, n);
    }
  }

  lemma Pow2Values()
    ensures Pow2(0) == 1 && Pow2(8) == 0x100 && Pow2(16) == 0x1_0000
    ensures Pow2(24) == 0x100_0000 && Pow2(32) == 0x1_0000_0000
  {
    assert Pow2(8) == 0x100;
    Pow2Add(8, 8);
    Pow2Add(8, 16);
    Pow2Add(8, 24);
  }

  lemma DivUnique(a: int, b: int, q: int, r: int)
    requires b > 0 && a == b * q + r && 0 <= r < b
    ensures a / b == q && a % b == r
  {
    var d := a / b - q;
    assert b * (a / b) + a % b == a;
    assert b * d == r - a % b;
    assert d >= 1 ==> b * d >= b;
    assert d <= -1 ==> b * d <= -b;
  }

  lemma DivDiv(w: nat, a: nat, b: nat)
    requires a > 0 && b > 0
    ensures a * b > 0 && w / a / b == w / (a * b)
  {
    var q := w / a / b;
    var r := w / a % b;
    assert w / a == b * q + r;
    assert w == a * (b * q + r) + w % a;
    assert a * (b * q + r) == a * b * q + a * r;
    assert a * r <= a * (b - 1);
    assert a * b > 0;
    DivUnique(w, a * b, q, a * r + w % a);
  }

  lemma ModDivMod(y: nat, b: nat, n: nat, t: nat)
    requires b > 0 && n > 0 && t > 0
    ensures b * n * t > 0
    ensures (y % (b * n * t) / b) % n == (y / b) % n
  {
    assert b * n > 0 && b * n * t > 0;
    var m := b * n * t;
    var q, r := y / m, y % m;
    var x, z := r / b, r % b;
    assert m * q == b * (n * t * q);
    assert y == b * (n * t * q + x) + z;
    DivUnique(y, b, n * t * q + x, z);
    var u, v := x / n, x % n;
    assert n * t * q + x == n * (t * q + u) + v;
    DivUnique(n * t * q + x, n, t * q + u, v);
  }

  lemma FieldOfField(w: nat, a: nat, b: nat, n: nat, t: nat)
    requires a > 0 && b > 0 && n > 0 && t > 0
    ensures b * n * t > 0 && a * b > 0
    ensures (w / a % (b * n * t) / b) % n == (w / (a * b)) % n
  {
    ModDivMod(w / a, b, n, t);
    DivDiv(w, a, b);
  }

  /** A field of a field is a field of the whole word. */
  lemma BitsOfBits(w: nat, a: nat, m: nat, b: nat, n: nat)
    requires b + n <= m
    ensures Bits(Bits(w, a, m), b, n) == Bits(w, a + b, n)
  {
    var pa, pb, pn, pt := Pow2(a), Pow2(b), Pow2(n), Pow2(m - b - n);
    assert Pow2(a + b) == pa * pb by {
      Pow2Add(a, b);
    }
    assert Pow2(m) == pb * pn * pt by {
      Pow2Add(b, n);
      Pow2Add(b + n, m - b - n);
    }
    FieldOfField(w, pa, pb, pn, pt);
  }

  /** Bitwise or of two natural numbers. */
  function Or(a: nat, b: nat): nat
  {
    if a == 0 then b else if b == 0 then a
    else 2 * Or(a / 2, b / 2) + (if a % 2 == 1 || b % 2 == 1 then 1 else 0)
  }

  /** An or of fields that do not overlap is their sum. */
  lemma {:induction false} OrDisjoint(a: nat, b: nat, n: nat)
    requires a < Pow2(n)
    ensures Or(a, b * Pow2(n)) == a + b * Pow2(n)
  {
    if n != 0 && a != 0 && b != 0 {
      var p := Pow2(n - 1);
      assert b * Pow2(n) == 2 * (b * p);
      OrDisjoint(a / 2, b, n - 1);
    }
  }
}
