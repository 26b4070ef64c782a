/** Bitwise operations of fixed-width unsigned C integers, on natural numbers.

    The sources compute with `|`, `<<` and `>>` on uint8_t to uint64_t. Here a machine word is the
    natural number it denotes: `x >> k` is `x / Pow2(k)`, `x << k` in a w-bit word is
    `x * Pow2(k) % Pow2(w)`, and `|` is the function Or below. */
module Bits {

  type byte = x: int | 0 <= x < 256

  const TWO_TO_THE_31: int := 0x8000_0000
  const TWO_TO_THE_32: int := 0x1_0000_0000
  const TWO_TO_THE_63: int := 0x8000_0000_0000_0000
  const TWO_TO_THE_64: int := 0x1_0000_0000_0000_0000

  /** Conversion to uint32_t and to uint64_t. */
  function Trunc32(x: nat): (r: nat)
    ensures r < TWO_TO_THE_32
    ensures x < TWO_TO_THE_32 ==> r == x
  {
    x % 0x1_0000_0000
  }

  function Trunc64(x: nat): (r: nat)
    ensures r < TWO_TO_THE_64
    ensures x < TWO_TO_THE_64 ==> r == x
  {
    x % 0x1_0000_0000_0000_0000
  }

  function Pow2(k: nat): (p: nat)
    ensures p > 0
  {
    if k == 0 then 1 else 2 * Pow2(k - 1)
  }

  lemma {:induction false} Pow2Monotone(a: nat, b: nat)
    requires a <= b
    ensures Pow2(a) <= Pow2(b)
  {
    if a < b { Pow2Monotone(a, b - 1); }
  }

  lemma Pow2Values()
    ensures Pow2(7) == 0x80 && Pow2(8) == 0x100 && Pow2(14) == 0x4000 && Pow2(21) == 0x20_0000
    ensures Pow2(28) == 0x1000_0000 && Pow2(31) == TWO_TO_THE_31 && Pow2(32) == TWO_TO_THE_32
    ensures Pow2(63) == TWO_TO_THE_63 && Pow2(64) == TWO_TO_THE_64 && Pow2(70) == 64 * TWO_TO_THE_64
  {
    Pow2Add(7, 7);
    Pow2Add(14, 7);
    Pow2Add(14, 14);
    Pow2Add(28, 3);
    Pow2Add(28, 4);
    Pow2Add(32, 32);
    Pow2Add(64, 6);
  }

  /** Bitwise inclusive or. */
  function Or(a: nat, b: nat): nat
    decreases a + b
  {
    if a == 0 then b
    else if b == 0 then a
    else (if a % 2 == 1 || b % 2 == 1 then 1 else 0) + 2 * Or(a / 2, b / 2)
  }

  /** Is bit k of w set? */
  predicate BitAt(w: nat, k: nat) {
    ShiftRight(w, k) % 2 == 1
  }

  function ShiftRight(w: nat, k: nat): nat {
    if k == 0 then w else ShiftRight(w / 2, k - 1)
  }

  lemma {:induction false} Pow2Add(a: nat, b: nat)
    ensures Pow2(a + b) == Pow2(a) * Pow2(b)
  {
    if a == 0 {
    } else {
      Pow2Add(a - 1, b);
      assert Pow2(a + b) == 2 * Pow2(a - 1 + b);
      assert 2 * (Pow2(a - 1) * Pow2(b)) == (2 * Pow2(a - 1)) * Pow2(b);
    }
  }

  lemma {:induction false} ZeroHasNoBits(k: nat)
    ensures !BitAt(0, k)
  {
    if k > 0 { ZeroHasNoBits(k - 1); }
  }

  lemma {:induction false} OrBits(a: nat, b: nat, k: nat)
    ensures BitAt(Or(a, b), k) <==> BitAt(a, k) || BitAt(b, k)
    decreases k
  {
    ZeroHasNoBits(k);
    if k > 0 && a > 0 && b > 0 { OrBits(a / 2, b / 2, k - 1); }
  }

  lemma {:induction false} Pow2Bits(s: nat, k: nat)
    ensures BitAt(Pow2(s), k) <==> k == s
    decreases k
  {
    if k == 0 {
    } else if s == 0 {
      ZeroHasNoBits(k - 1);
    } else {
      Pow2Bits(s - 1, k - 1);
    }
  }

  lemma {:induction false} MaskBits(n: nat, k: nat)
    ensures BitAt(Pow2(n) - 1, k) <==> k < n
    decreases k
  {
    if n == 0 {
      ZeroHasNoBits(k);
    } else if k > 0 {
      assert (Pow2(n) - 1) / 2 == Pow2(n - 1) - 1;
      MaskBits(n - 1, k - 1);
    }
  }

  /** A word is determined by its bits. */
  lemma {:induction false} SameBits(w: nat, a: nat, b: nat)
    requires a < Pow2(w) && b < Pow2(w)
    requires forall k: nat | k < w :: BitAt(a, k) <==> BitAt(b, k)
    ensures a == b
  {
    if w > 0 {
      assert BitAt(a, 0) <==> BitAt(b, 0);
      forall k: nat | k < w - 1 ensures BitAt(a / 2, k) <==> BitAt(b / 2, k) {
        assert BitAt(a, k + 1) <==> BitAt(b, k + 1);
      }
      SameBits(w - 1, a / 2, b / 2);
    }
  }

  lemma {:induction false} OrBound(w: nat, a: nat, b: nat)
    requires a < Pow2(w) && b < Pow2(w)
    ensures Or(a, b) < Pow2(w)
  {
    if a > 0 && b > 0 { OrBound(w - 1, a / 2, b / 2); }
  }

  lemma {:induction false} OrGrows(a: nat, b: nat)
    ensures Or(a, b) >= a
    decreases a + b
  {
    if a > 0 && b > 0 { OrGrows(a / 2, b / 2); }
  }

  /** `|` of words that share no bit position is their sum. */
  lemma {:induction false} OrDisjoint(a: nat, m: nat, k: nat)
    requires a < Pow2(k)
    ensures Or(a, m * Pow2(k)) == a + m * Pow2(k)
    decreases k
  {
    if k > 0 {
      hide Pow2;
      Pow2Step(k);
      TwiceOutside(m, Pow2(k - 1));
      OrDisjoint(a / 2, m, k - 1);
      OrDouble(a, m * Pow2(k - 1));
    }
  }

  lemma TwiceOutside(m: nat, w: nat)
    ensures m * (2 * w) == 2 * (m * w)
  {
  }

  lemma OrDouble(a: nat, h: nat)
    ensures Or(a, 2 * h) == a % 2 + 2 * Or(a / 2, h)
  {
    hide Or;
    HalfOf(h, 0);
    OrStep(a, 2 * h, a / 2, h);
    OrNone(a, h);
    OrNone(a / 2, 2 * h);
  }

  lemma OrStep(a: nat, b: nat, a2: nat, b2: nat)
    requires a2 == a / 2 && b2 == b / 2 && b % 2 == 0
    ensures a > 0 && b > 0 ==> Or(a, b) == a % 2 + 2 * Or(a2, b2)
  {
  }

  lemma OrNone(a: nat, h: nat)
    ensures Or(0, h) == h && Or(a, 0) == a
  {
  }

  lemma {:induction false} ShiftBits(w: nat, s: nat, k: nat)
    ensures BitAt(w * Pow2(s), k) <==> k >= s && BitAt(w, k - s)
    decreases s
  {
    if s > 0 {
      assert w * Pow2(s) == 2 * (w * Pow2(s - 1));
      if k > 0 { ShiftBits(w, s - 1, k - 1); }
    }
  }

  lemma {:induction false} TruncateBits(w: nat, n: nat, k: nat)
    ensures BitAt(w % Pow2(n), k) <==> k < n && BitAt(w, k)
    decreases n
  {
    if n == 0 {
      ZeroHasNoBits(k);
    } else {
      hide Pow2;
      assert Pow2(n) == 2 * Pow2(n - 1) by { Pow2Step(n); }
      ModTwice(w, Pow2(n - 1));
      HalfOf(w / 2 % Pow2(n - 1), w % 2);
      if k > 0 { TruncateBits(w / 2, n - 1, k - 1); }
    }
  }

  lemma Pow2Step(n: nat)
    requires n > 0
    ensures Pow2(n) == 2 * Pow2(n - 1)
  {
  }

  lemma HalfOf(h: nat, b: nat)
    requires b < 2
    ensures (2 * h + b) / 2 == h && (2 * h + b) % 2 == b
  {
  }

  lemma ModTwice(w: nat, p: nat)
    requires p > 0
    ensures w % (2 * p) == 2 * (w / 2 % p) + w % 2
  {
    var q, h := w / 2 / p, w / 2 % p;
    assert w / 2 == q * p + h;
    assert w == q * (2 * p) + (2 * h + w % 2);
    ModIs(w, 2 * p, q, 2 * h + w % 2);
  }

  /** Division with remainder is unique. */
  lemma ModIs(w: int, p: int, q: int, r: int)
    requires 0 <= r < p && w == q * p + r
    ensures w % p == r && w / p == q
  {
    UniqueQuotient(p, q, r, w / p, w % p);
  }

  lemma UniqueQuotient(p: int, q: int, r: int, q': int, r': int)
    requires 0 <= r < p && 0 <= r' < p && q * p + r == q' * p + r'
    ensures q == q' && r == r'
  {
    var d := q - q';
    assert d * p == r' - r;
    if d > 0 { AtLeastOneTime(d, p); }
    if d < 0 { AtLeastOneTime(-d, p); }
  }

  lemma AtLeastOneTime(d: int, p: int)
    requires d > 0 && p > 0
    ensures d * p >= p
  {
  }
}
