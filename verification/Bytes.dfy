/** Bytes, bitwise operators on them, and fixed-width big-endian numbers. */
module Bytes {

  type byte = x: int | 0 <= x < 256

  datatype Option<+T> = None | Some(value: T)

  /** `n` zero bytes. */
  function Zeros(n: nat): (z: seq<byte>)
    ensures |z| == n
    ensures forall i :: 0 <= i < n ==> z[i] == 0
  {
    seq(n, _ => 0)
  }

  // ----- bitwise operators -------------------------------------------------

  function Pow2(n: nat): (p: nat)
    ensures p >= 1
  {
    if n == 0 then 1 else 2 * Pow2(n - 1)
  }

  /** Exclusive or of the low `n` bits. */
  function XorBits(a: nat, b: nat, n: nat): nat {
    if n == 0 then 0
    else 2 * XorBits(a / 2, b / 2, n - 1) + (if a % 2 == b % 2 then 0 else 1)
  }

  /** Inclusive or of the low `n` bits. */
  function OrBits(a: nat, b: nat, n: nat): nat {
    if n == 0 then 0
    else 2 * OrBits(a / 2, b / 2, n - 1) + (if a % 2 == 1 || b % 2 == 1 then 1 else 0)
  }

  lemma {:induction false} XorBitsBound(a: nat, b: nat, n: nat)
    ensures XorBits(a, b, n) < Pow2(n)
  {
    if n > 0 {
      XorBitsBound(a / 2, b / 2, n - 1);
    }
  }

  lemma {:induction false} OrBitsBound(a: nat, b: nat, n: nat)
    ensures OrBits(a, b, n) < Pow2(n)
  {
    if n > 0 {
      OrBitsBound(a / 2, b / 2, n - 1);
    }
  }

  lemma Pow2Of8()
    ensures Pow2(8) == 256
  {
    assert Pow2(4) == 16;
  }

  function Xor(a: byte, b: byte): byte {
    XorBitsBound(a, b, 8);
    Pow2Of8();
    XorBits(a, b, 8)
  }

  function Or(a: byte, b: byte): byte {
    OrBitsBound(a, b, 8);
    Pow2Of8();
    OrBits(a, b, 8)
  }

  lemma {:induction false} XorBitsCancel(a: nat, b: nat, n: nat)
    requires a < Pow2(n)
    ensures XorBits(XorBits(a, b, n), b, n) == a
  {
    if n > 0 {
      XorBitsCancel(a / 2, b / 2, n - 1);
      assert XorBits(a, b, n) / 2 == XorBits(a / 2, b / 2, n - 1);
    }
  }

  lemma {:induction false} XorBitsCommutes(a: nat, b: nat, n: nat)
    ensures XorBits(a, b, n) == XorBits(b, a, n)
  {
    if n > 0 {
      XorBitsCommutes(a / 2, b / 2, n - 1);
    }
  }

  /** Masking twice with the same byte restores the original. */
  lemma XorCancel(a: byte, b: byte)
    ensures Xor(Xor(a, b), b) == a
  {
    Pow2Of8();
    XorBitsCancel(a, b, 8);
  }

  lemma XorCommutes(a: byte, b: byte)
    ensures Xor(a, b) == Xor(b, a)
  {
    XorBitsCommutes(a, b, 8);
  }

  /** 1 if the lowest bits differ. */
  function Differ(a: nat, b: nat): nat {
    if a % 2 == b % 2 then 0 else 1
  }

  /** Each bit is set exactly when it is set in one of the two. */
  lemma XorByBits(a: byte, b: byte)
    ensures Xor(a, b) ==
      128 * Differ(a / 128, b / 128) + 64 * Differ(a / 64, b / 64)
      + 32 * Differ(a / 32, b / 32) + 16 * Differ(a / 16, b / 16)
      + 8 * Differ(a / 8, b / 8) + 4 * Differ(a / 4, b / 4) + 2 * Differ(a / 2, b / 2) + Differ(a, b)
  {
    assert Xor(a, b) == XorBits(a, b, 8) && XorBits(a / 16 / 16, b / 16 / 16, 0) == 0;
    hide XorBits, Xor, Differ;
    FourSteps(a, b, 8);
    FourSteps(a / 16, b / 16, 4);
    Sixteenths(a);
    Sixteenths(b);
  }

  lemma Sixteenths(a: byte)
    ensures a / 16 / 8 == a / 128 && a / 16 / 4 == a / 64 && a / 16 / 2 == a / 32
  {}

  lemma XorBitsStep(a: nat, b: nat, n: nat)
    requires n > 0
    ensures XorBits(a, b, n) == 2 * XorBits(a / 2, b / 2, n - 1) + Differ(a, b)
  {}

  lemma FourSteps(a: nat, b: nat, n: nat)
    requires n >= 4
    ensures XorBits(a, b, n) == 16 * XorBits(a / 16, b / 16, n - 4)
      + 8 * Differ(a / 8, b / 8) + 4 * Differ(a / 4, b / 4) + 2 * Differ(a / 2, b / 2) + Differ(a, b)
  {
    hide XorBits, Differ;
    XorBitsStep(a, b, n);
    XorBitsStep(a / 2, b / 2, n - 1);
    XorBitsStep(a / 4, b / 4, n - 2);
    XorBitsStep(a / 8, b / 8, n - 3);
    assert a / 2 / 2 == a / 4 && a / 4 / 2 == a / 8 && a / 8 / 2 == a / 16;
    assert b / 2 / 2 == b / 4 && b / 4 / 2 == b / 8 && b / 8 / 2 == b / 16;
  }

  lemma {:induction false} OrBitsZero(b: nat, n: nat)
    requires b < Pow2(n)
    ensures OrBits(0, b, n) == b && OrBits(b, 0, n) == b
  {
    if n > 0 {
      OrBitsZero(b / 2, n - 1);
    }
  }

  /** An or of numbers that share no bit is their sum. */
  lemma {:induction false} OrBitsDisjoint(a: nat, c: nat, k: nat, n: nat)
    requires k <= n && a < Pow2(k) && Pow2(k) * c < Pow2(n)
    ensures OrBits(a, Pow2(k) * c, n) == a + Pow2(k) * c
  {
    if k == 0 {
      OrBitsZero(c, n);
    } else {
      assert Pow2(k) * c == 2 * (Pow2(k - 1) * c);
      OrBitsDisjoint(a / 2, c, k - 1, n - 1);
    }
  }

  lemma OrBitsEven(a: nat, p: nat, n: nat)
    requires n > 0
    ensures OrBits(a, 2 * p, n) == 2 * OrBits(a / 2, p, n - 1) + a % 2
  {
    assert (2 * p) / 2 == p && (2 * p) % 2 == 0;
  }

  lemma OrBitsOne(a: nat, n: nat)
    requires n > 0 && a < Pow2(n)
    ensures OrBits(a, 1, n) == if a % 2 == 1 then a else a + 1
  {
    OrBitsZero(a / 2, n - 1);
  }

  /** Or-ing in a single bit adds it, unless it is already set. */
  lemma {:induction false} OrBitsSingle(a: nat, k: nat, n: nat)
    requires k < n && a < Pow2(n)
    ensures OrBits(a, Pow2(k), n) == if (a / Pow2(k)) % 2 == 1 then a else a + Pow2(k)
  {
    hide OrBits;
    if k == 0 {
      OrBitsOne(a, n);
    } else {
      var p := Pow2(k - 1);
      assert Pow2(k) == 2 * p && a / 2 < Pow2(n - 1);
      OrBitsSingle(a / 2, k - 1, n - 1);
      hide Pow2;
      HalveThenDivide(a, p);
      OrBitsEven(a, p, n);
    }
  }

  lemma HalveThenDivide(a: nat, p: nat)
    requires p > 0
    ensures a / 2 / p == a / (2 * p)
  {
    DivideTwice(a, 2, p);
  }

  lemma DivideTwice(a: nat, x: nat, y: nat)
    requires x > 0 && y > 0
    ensures x * y > 0 && a / x / y == a / (x * y)
  {
    MulAtLeast(x, y);
    var q := a / x;
    Regroup(a, x, y, q, a % x, q / y, q % y);
  }

  lemma Regroup(a: nat, x: nat, y: nat, q: nat, r: nat, s: nat, t: int)
    requires r < x && 0 <= t < y && x * y > 0
    requires a == x * q + r && q == y * s + t
    ensures a / (x * y) == s
  {
    MulExpand(x, y, s, t);
    MulExpand(x, 1, y, -t);
    MulAtLeast(x, y - t);
    QuotientUnique(a, x * y, s, x * t + r);
  }

  lemma MulExpand(x: int, y: int, s: int, t: int)
    ensures x * (y * s + t) == (x * y) * s + x * t
  {
    assert x * (y * s) == (x * y) * s;
  }

  lemma MulAtLeast(x: int, k: int)
    requires x >= 0
    ensures k > 0 ==> x * k >= x
    ensures k < 0 ==> x * k <= -x
  {
    if k > 0 {
      assert x * k == x * (k - 1) + x;
    } else if k < 0 {
      assert x * k == -(x * (-k - 1)) - x;
    }
  }

  lemma QuotientUnique(a: nat, d: nat, s: nat, rest: nat)
    requires d > 0 && a == d * s + rest && rest < d
    ensures a / d == s && a % d == rest
  {
    var q := a / d;
    assert a == d * q + a % d;
    assert d * (q - s) == d * q - d * s;
    MulAtLeast(d, q - s);
  }

  // ----- big-endian numbers ------------------------------------------------

  function Pow256(n: nat): (p: nat)
    ensures p >= 1
  {
    if n == 0 then 1 else 256 * Pow256(n - 1)
  }

  /** The low `n` bytes of `u`, most significant first. */
  function BigEndian(u: nat, n: nat): (b: seq<byte>)
    ensures |b| == n
  {
    if n == 0 then [] else BigEndian(u / 256, n - 1) + [u % 256]
  }

  function Value(b: seq<byte>): nat {
    if b == [] then 0 else 256 * Value(b[..|b| - 1]) + b[|b| - 1]
  }

  lemma {:induction false} ValueOfBigEndian(u: nat, n: nat)
    requires u < Pow256(n)
    ensures Value(BigEndian(u, n)) == u
  {
    if n > 0 {
      ValueOfBigEndian(u / 256, n - 1);
      var b := BigEndian(u, n);
      assert b[..|b| - 1] == BigEndian(u / 256, n - 1);
    }
  }

  /** Distinct numbers that fit have distinct encodings. */
  lemma BigEndianInjective(u: nat, v: nat, n: nat)
    requires u < Pow256(n) && v < Pow256(n)
    requires BigEndian(u, n) == BigEndian(v, n)
    ensures u == v
  {
    ValueOfBigEndian(u, n);
    ValueOfBigEndian(v, n);
  }

  /** Byte `i` is a shift followed by a truncation. */
  lemma {:induction false} BigEndianAt(u: nat, n: nat, i: nat)
    requires i < n
    ensures BigEndian(u, n)[i] == u / Pow256(n - 1 - i) % 256
  {
    if i < n - 1 {
      BigEndianAt(u / 256, n - 1, i);
      DivideTwice(u, 256, Pow256(n - 2 - i));
      assert Pow256(n - 1 - i) == 256 * Pow256(n - 2 - i);
    } else {
      assert Pow256(0) == 1;
    }
  }

  lemma {:induction false} BigEndianZero(n: nat)
    ensures BigEndian(0, n) == Zeros(n)
  {
    if n > 0 {
      BigEndianZero(n - 1);
      assert Zeros(n) == Zeros(n - 1) + [0];
    }
  }

  lemma BigEndianOne(n: nat)
    requires n > 0
    ensures BigEndian(1, n) == Zeros(n - 1) + [1]
  {
    BigEndianZero(n - 1);
  }

  lemma {:induction false} Pow256Monotone(m: nat, n: nat)
    requires m <= n
    ensures Pow256(m) <= Pow256(n)
  {
    if m < n {
      Pow256Monotone(m, n - 1);
    }
  }

  lemma Pow256Small()
    ensures Pow256(1) == 0x100 && Pow256(2) == 0x1_0000 && Pow256(3) == 0x100_0000
    ensures Pow256(4) == 0x1_0000_0000
    ensures Pow256(8) == 0x1_0000_0000_0000_0000
  {
    assert Pow256(2) == 0x1_0000;
    assert Pow256(4) == 0x1_0000_0000;
    assert Pow256(6) == 0x1_0000_0000_0000;
  }

  // ----- slices ------------------------------------------------------------

  lemma DropDrop(s: seq<byte>, a: nat, b: nat)
    requires a + b <= |s|
    ensures s[a..][b..] == s[a + b..]
  {
    assert forall i :: 0 <= i < |s| - a - b ==> s[a..][b..][i] == s[a..][b + i] == s[a + b + i];
  }

  lemma SliceOfSlice(s: seq<byte>, lo: nat, hi: nat, a: nat, b: nat)
    requires lo <= hi <= |s| && a <= b <= hi - lo
    ensures s[lo + a..lo + b] == s[lo..hi][a..b]
  {
    var x, y := s[lo + a..lo + b], s[lo..hi][a..b];
    assert |x| == |y|;
    assert forall i :: 0 <= i < b - a ==> x[i] == s[lo + a + i] == s[lo..hi][a + i] == y[i];
  }

  /** Go's `copy(dst[at:], src)` when `src` fits. */
  method CopyInto(dst: array<byte>, at: nat, src: seq<byte>)
    requires at + |src| <= dst.Length
    modifies dst
    ensures dst[..] == old(dst[..at]) + src + old(dst[at + |src|..])
  {
    forall i | 0 <= i < |src| {
      dst[at + i] := src[i];
    }
  }
}
