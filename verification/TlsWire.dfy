/** Encodings that TLS and DTLS share: record content types and big-endian numbers. */
module TlsWire {
  import opened Bits

  const RT_CHANGE_CIPHER_SPEC: nat := 20
  const RT_ALERT: nat := 21
  const RT_HANDSHAKE: nat := 22
  const RT_APPLICATION_DATA: nat := 23

  function BigEndian(v: nat, n: nat): (r: seq<byte>)
    ensures |r| == n
  {
    if n == 0 then [] else BigEndian(v / 256, n - 1) + [v % 256]
  }

  function FromBigEndian(s: seq<byte>): nat {
    if s == [] then 0 else 256 * FromBigEndian(s[..|s| - 1]) + s[|s| - 1]
  }

  lemma {:induction false} BigEndianRoundTrip(v: nat, n: nat)
    requires v < Pow2(8 * n)
    ensures FromBigEndian(BigEndian(v, n)) == v
  {
    if n > 0 {
      Pow2Add(8, 8 * (n - 1));
      assert Pow2(8) == 256;
      BigEndianRoundTrip(v / 256, n - 1);
      assert BigEndian(v, n)[..n - 1] == BigEndian(v / 256, n - 1);
    }
  }

  /** Every byte sequence is the encoding of the number it denotes, which fits it. */
  lemma {:induction false} BigEndianOf(s: seq<byte>)
    ensures BigEndian(FromBigEndian(s), |s|) == s && FromBigEndian(s) < Pow2(8 * |s|)
  {
    FromBigEndianBound(s);
    if s != [] { BigEndianOf(s[..|s| - 1]); }
  }

  /** The most significant byte comes first. */
  lemma {:induction false} BigEndianAt(v: nat, n: nat, k: nat)
    requires k < n
    ensures BigEndian(v, n)[k] == v / Pow2(8 * (n - 1 - k)) % 256
    decreases n
  {
    if k < n - 1 {
      hide Pow2;
      BigEndianAt(v / 256, n - 1, k);
      Pow2Add(8, 8 * (n - 2 - k));
      Pow2Values();
      DivTwice(v, 256, Pow2(8 * (n - 2 - k)));
    }
  }

  /** Numbers that fit one, two and three bytes. */
  lemma ShortNumbers(v: nat)
    ensures v < 0x100 ==> BigEndian(v, 1) == [v]
    ensures v < 0x1_0000 ==> BigEndian(v, 2) == [v / 0x100, v % 0x100]
    ensures v < 0x100_0000 ==> BigEndian(v, 3) == [v / 0x1_0000, v / 0x100 % 0x100, v % 0x100]
  {
    hide BigEndian;
    DivTwice(v, 256, 256);
    LastBytes(v, v / 0x100, v / 0x1_0000);
  }

  lemma LastBytes(v: nat, w: nat, x: nat)
    requires w == v / 256 && x == w / 256
    ensures v < 0x100 ==> BigEndian(v, 1) == [v]
    ensures v < 0x1_0000 ==> BigEndian(v, 2) == [w, v % 256]
    ensures v < 0x100_0000 ==> BigEndian(v, 3) == [x, w % 256, v % 256]
  {
    hide BigEndian;
    BigEndianStep(v, 1);
    BigEndianStep(v, 2);
    BigEndianStep(v, 3);
    BigEndianStep(w, 1);
    BigEndianStep(w, 2);
    BigEndianStep(x, 1);
  }

  lemma BigEndianStep(v: nat, n: nat)
    requires n > 0
    ensures BigEndian(v, 0) == [] && BigEndian(v, n) == BigEndian(v / 256, n - 1) + [v % 256]
  {
  }

  lemma DivTwice(v: nat, a: nat, b: nat)
    requires a > 0 && b > 0
    ensures a * b > 0 && v / a / b == v / (a * b)
  {
    var q, r := v / a / b, v / a % b;
    assert v / a == q * b + r;
    assert v == (v / a) * a + v % a;
    assert v == q * (a * b) + (r * a + v % a) by { assert (q * b + r) * a == q * (a * b) + r * a; }
    assert r * a + v % a < a * b by { assert r * a <= (b - 1) * a; }
    ModIs(v, a * b, q, r * a + v % a);
  }

  lemma {:induction false} FromBigEndianSplit(s: seq<byte>, t: seq<byte>)
    ensures FromBigEndian(s + t) == FromBigEndian(s) * Pow2(8 * |t|) + FromBigEndian(t)
    decreases |t|
  {
    if t == [] {
      assert s + t == s;
    } else {
      var i := t[..|t| - 1];
      assert (s + t)[..|s + t| - 1] == s + i;
      FromBigEndianSplit(s, i);
      hide Pow2;
      Pow2Add(8, 8 * |i|);
      Pow2Values();
      Regroup(FromBigEndian(s), Pow2(8 * |i|));
    }
  }

  lemma Regroup(a: int, p: int)
    ensures 256 * (a * p) == a * (256 * p)
  {
  }

  lemma {:induction false} FromBigEndianBound(s: seq<byte>)
    ensures FromBigEndian(s) < Pow2(8 * |s|)
  {
    if s != [] {
      FromBigEndianBound(s[..|s| - 1]);
      Pow2Add(8, 8 * (|s| - 1));
      assert Pow2(8) == 256;
    }
  }
}
