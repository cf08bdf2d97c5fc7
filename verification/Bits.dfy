/** The C operators `&`, `|`, `<<` and `>>` on unsigned machine words, as functions on naturals,
    and what they mean arithmetically for the masks this kernel uses. */
module Bits {

  type byte = b: int | 0 <= b < 0x100
  type u16 = w: int | 0 <= w < 0x1_0000
  type u32 = w: int | 0 <= w < 0x1_0000_0000

  function Min(a: int, b: int): int { if a <= b then a else b }

  function Pow2(n: nat): (p: nat)
    ensures p >= 1
  {
    if n == 0 then 1 else 2 * Pow2(n - 1)
  }

  /** Bitwise `x & y`. */
  function And(x: nat, y: nat): (r: nat)
    ensures r <= x && r <= y
  {
    if x == 0 || y == 0 then 0
    else (if x % 2 == 1 && y % 2 == 1 then 1 else 0) + 2 * And(x / 2, y / 2)
  }

  /** Bitwise `x | y`. */
  function Or(x: nat, y: nat): (r: nat)
    ensures x <= r && y <= r && r <= x + y
  {
    if x == 0 then y
    else if y == 0 then x
    else (if x % 2 == 1 || y % 2 == 1 then 1 else 0) + 2 * Or(x / 2, y / 2)
  }

  /** One step of the bitwise recursion, also valid for zero operands. */
  lemma {:induction false} OrStep(x: nat, y: nat)
    ensures Or(x, y) % 2 == (if x % 2 == 1 || y % 2 == 1 then 1 else 0)
    ensures Or(x, y) / 2 == Or(x / 2, y / 2)
  {
  }

  lemma {:induction false} AndStep(x: nat, y: nat)
    ensures And(x, y) == (if x % 2 == 1 && y % 2 == 1 then 1 else 0) + 2 * And(x / 2, y / 2)
  {
  }

  lemma OrCommutes(x: nat, y: nat)
    ensures Or(x, y) == Or(y, x)
  {
  }

  lemma DivModUnique(a: nat, b: nat, q: nat, r: nat)
    requires r < b && a == q * b + r
    ensures a / b == q && a % b == r
  {
    var q', r' := a / b, a % b;
    assert a == q' * b + r';
    assert (q - q') * b == r' - r;
    SmallMultiple(q - q', b);
  }

  lemma SmallMultiple(d: int, b: int)
    requires -b < d * b < b
    ensures d == 0
  {
    assert d >= 1 ==> d * b >= b;
    assert d <= -1 ==> -d * b >= b;
  }

  lemma {:induction false} DivModDouble(x: nat, p: nat)
    requires p > 0
    ensures x % (2 * p) == x % 2 + 2 * ((x / 2) % p)
    ensures x / (2 * p) == (x / 2) / p
  {
    var h := x / 2;
    assert h == (h / p) * p + h % p;
    assert x == (h / p) * (2 * p) + (x % 2 + 2 * (h % p)) by {
      assert (h / p) * (2 * p) == 2 * ((h / p) * p);
    }
    DivModUnique(x, 2 * p, h / p, x % 2 + 2 * (h % p));
  }

  /** `x & (2^n - 1)` keeps the low n bits. */
  lemma {:induction false} AndLowMask(x: nat, n: nat)
    ensures And(x, Pow2(n) - 1) == x % Pow2(n)
  {
    if n > 0 {
      var p := Pow2(n - 1);
      AndLowMask(x / 2, n - 1);
      DivModDouble(x, p);
      assert (2 * p - 1) / 2 == p - 1 && (2 * p - 1) % 2 == 1;
      AndStep(x, 2 * p - 1);
      hide And;
    }
  }

  /** `x & (2^m - 2^n)` clears the low n bits of an m-bit word. */
  lemma {:induction false} AndHighMask(x: nat, n: nat, m: nat)
    requires n <= m && x < Pow2(m)
    ensures Pow2(n) <= Pow2(m)
    ensures And(x, Pow2(m) - Pow2(n)) == x - x % Pow2(n)
  {
    hide And;
    if n == 0 {
      AndLowMask(x, m);
      DivModUnique(x, Pow2(m), 0, x);
    } else {
      var q, p := Pow2(m - 1), Pow2(n - 1);
      AndHighMask(x / 2, n - 1, m - 1);
      var h := And(x / 2, q - p);
      assert (2 * q - 2 * p) / 2 == q - p && (2 * q - 2 * p) % 2 == 0;
      assert And(x, 2 * q - 2 * p) == 2 * h by { AndStep(x, 2 * q - 2 * p); }
      assert x % (2 * p) == x % 2 + 2 * ((x / 2) % p) by { DivModDouble(x, p); }
    }
  }

  /** `|` of words whose set bits do not overlap is `+`. */
  lemma {:induction false} OrDisjoint(x: nat, y: nat, n: nat)
    requires x % Pow2(n) == 0 && y < Pow2(n)
    ensures Or(x, y) == x + y
  {
    if n > 0 {
      DivModDouble(x, Pow2(n - 1));
      OrDisjoint(x / 2, y / 2, n - 1);
      OrStep(x, y);
    }
  }

  /** The bits of x from position n on, and those below it. */
  function High(x: nat, n: nat): nat { hide Pow2; x / Pow2(n) }
  function Low(x: nat, n: nat): nat { x % Pow2(n) }

  /** `&` and `|` act separately on the bits below position n and on those from it on. */
  lemma {:induction false} AndSplit(x: nat, y: nat, n: nat)
    ensures High(And(x, y), n) == And(High(x, n), High(y, n))
    ensures Low(And(x, y), n) == And(Low(x, n), Low(y, n))
  {
    hide And;
    if n == 0 {
      AndStep(0, 0);
      assert And(0, 0) == 0;
      assert x / 1 == x && y / 1 == y;
    } else {
      var p := Pow2(n - 1);
      var xr, yr := x % (2 * p), y % (2 * p);
      AndSplit(x / 2, y / 2, n - 1);
      AndStep(x, y);
      AndStep(xr, yr);
      var c := if x % 2 == 1 && y % 2 == 1 then 1 else 0;
      Halves(x, p);
      Halves(y, p);
      Carry(And(x, y), c, And(x / 2, y / 2), p);
    }
  }

  lemma {:induction false} OrSplit(x: nat, y: nat, n: nat)
    ensures High(Or(x, y), n) == Or(High(x, n), High(y, n))
    ensures Low(Or(x, y), n) == Or(Low(x, n), Low(y, n))
  {
    if n == 0 {
      assert Or(0, 0) == 0;
      hide Or;
      assert x / 1 == x && y / 1 == y;
    } else {
      hide Or;
      var p := Pow2(n - 1);
      var xr, yr := x % (2 * p), y % (2 * p);
      OrSplit(x / 2, y / 2, n - 1);
      OrStep(x, y);
      OrStep(xr, yr);
      var c := if x % 2 == 1 || y % 2 == 1 then 1 else 0;
      Halves(x, p);
      Halves(y, p);
      Carry(Or(x, y), c, Or(x / 2, y / 2), p);
    }
  }

  lemma Halves(x: nat, p: nat)
    requires p > 0
    ensures (x % (2 * p)) % 2 == x % 2 && (x % (2 * p)) / 2 == (x / 2) % p
    ensures x / (2 * p) == (x / 2) / p
  {
    DivModDouble(x, p);
  }

  lemma Carry(r: nat, c: nat, h: nat, p: nat)
    requires p > 0 && c < 2 && r == c + 2 * h
    ensures r / (2 * p) == h / p
    ensures r % (2 * p) == c + 2 * (h % p)
  {
    DivModDouble(r, p);
    assert r % 2 == c && r / 2 == h;
  }
}
