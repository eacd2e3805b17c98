/** Fixed-width unsigned integers, bit images and byte-order decoding shared by the whole model. */
module Binary {

  type byte = x: int | 0 <= x < 0x100
  type uint16 = x: int | 0 <= x < 0x1_0000
  type uint32 = x: int | 0 <= x < 0x1_0000_0000

  /** BitConverter.IsLittleEndian: the model fixes the host as little-endian. */
  const IsLittleEndian := true

  function Pow2(n: nat): (r: nat)
    ensures r >= 1
  {
    if n == 0 then 1 else 2 * Pow2(n - 1)
  }

  /** Bit k of n, i.e. (n & (1 << k)) != 0. */
  function Bit(n: nat, k: nat): bool
  {
    if k == 0 then n % 2 == 1 else Bit(n / 2, k - 1)
  }

  /** The w low bits of n, least significant first. */
  function LsbBits(n: nat, w: nat): (bits: seq<bool>)
    ensures |bits| == w
  {
    if w == 0 then [] else [n % 2 == 1] + LsbBits(n / 2, w - 1)
  }

  /** The number whose binary digits, least significant first, are `bits`. */
  function ToNat(bits: seq<bool>): (n: nat)
    ensures n < Pow2(|bits|)
  {
    if bits == [] then 0 else (if bits[0] then 1 else 0) + 2 * ToNat(bits[1..])
  }

  /** A run of `n` copies of `b`. */
  function Repeat(b: bool, n: nat): (s: seq<bool>)
    ensures |s| == n && forall i :: 0 <= i < n ==> s[i] == b
  {
    if n == 0 then [] else [b] + Repeat(b, n - 1)
  }

  function Reverse<T>(s: seq<T>): (r: seq<T>)
    ensures |r| == |s|
  {
    seq(|s|, i requires 0 <= i < |s| => s[|s| - 1 - i])
  }

  /** Unsigned value of bytes stored least significant byte first. */
  function LittleEndian(bytes: seq<byte>): (n: nat)
    ensures n < Pow2(8 * |bytes|)
  {
    if bytes == [] then 0
    else
      var rest := LittleEndian(bytes[1..]);
      assert Pow2(8 * |bytes|) == 256 * Pow2(8 * (|bytes| - 1)) by { Pow2Add(8, 8 * (|bytes| - 1)); }
      bytes[0] + 256 * rest
  }

  /** Unsigned value of bytes stored most significant byte first. */
  function BigEndian(bytes: seq<byte>): nat
  {
    if bytes == [] then 0 else bytes[|bytes| - 1] + 256 * BigEndian(bytes[..|bytes| - 1])
  }

  /** The k bytes of n, least significant first (the inverse of LittleEndian). */
  function LeBytes(n: nat, k: nat): (bytes: seq<byte>)
    ensures |bytes| == k
  {
    if k == 0 then [] else [n % 256] + LeBytes(n / 256, k - 1)
  }

  /** Encoding a number that fits in k bytes and decoding it again gives the number. */
  lemma {:induction false} LittleEndianLeBytes(n: nat, k: nat)
    requires n < Pow2(8 * k)
    ensures LittleEndian(LeBytes(n, k)) == n
  {
    if k > 0 {
      Pow2Add(8, 8 * (k - 1));
      assert Pow2(8) == 256 && 8 + 8 * (k - 1) == 8 * k;
      ByteSplit(n, Pow2(8 * (k - 1)));
      var bytes := LeBytes(n, k);
      assert bytes[0] == n % 256 && bytes[1..] == LeBytes(n / 256, k - 1);
      LittleEndianLeBytes(n / 256, k - 1);
    }
  }

  /** The low byte and the rest of a number below 256 * p. */
  lemma ByteSplit(n: nat, p: nat)
    requires n < 256 * p
    ensures n / 256 < p && n == n % 256 + 256 * (n / 256)
  {
  }

  /** Decoding bytes and encoding the value again gives the same bytes. */
  lemma {:induction false} LeBytesLittleEndian(bytes: seq<byte>)
    ensures LeBytes(LittleEndian(bytes), |bytes|) == bytes
  {
    if bytes != [] {
      var rest := LittleEndian(bytes[1..]);
      assert LittleEndian(bytes) == bytes[0] + 256 * rest;
      assert LittleEndian(bytes) % 256 == bytes[0] && LittleEndian(bytes) / 256 == rest;
      LeBytesLittleEndian(bytes[1..]);
    }
  }

  lemma Pow2Widths()
    ensures Pow2(8) == 0x100 && Pow2(16) == 0x1_0000 && Pow2(32) == 0x1_0000_0000
  {
    assert Pow2(8) == 0x100;
    Pow2Add(8, 8);
    Pow2Add(16, 16);
  }

  lemma {:induction false} Pow2Add(a: nat, b: nat)
    ensures Pow2(a + b) == Pow2(a) * Pow2(b)
  {
    if a > 0 {
      Pow2Add(a - 1, b);
    }
  }

  /** Bit k of n is the k-th entry of its little-endian bit image. */
  lemma {:induction false} LsbBitsAt(n: nat, w: nat, k: nat)
    requires k < w
    ensures LsbBits(n, w)[k] == Bit(n, k)
  {
    if k > 0 {
      LsbBitsAt(n / 2, w - 1, k - 1);
    }
  }

  /** Reading back the w-bit image of a number below 2^w gives the number. */
  lemma {:induction false} ToNatLsbBits(n: nat, w: nat)
    requires n < Pow2(w)
    ensures ToNat(LsbBits(n, w)) == n
  {
    if w > 0 {
      var bits := LsbBits(n, w);
      assert bits[1..] == LsbBits(n / 2, w - 1);
      ToNatLsbBits(n / 2, w - 1);
    }
  }

  /** The value of a concatenation: the second part is shifted past the first. */
  lemma {:induction false} ToNatAppend(a: seq<bool>, b: seq<bool>)
    ensures ToNat(a + b) == ToNat(a) + Pow2(|a|) * ToNat(b)
  {
    if a != [] {
      assert (a + b)[1..] == a[1..] + b;
      ToNatAppend(a[1..], b);
      var head := if a[0] then 1 else 0;
      var p, t := Pow2(|a| - 1), ToNat(b);
      calc {
        ToNat(a + b);
        head + 2 * ToNat(a[1..] + b);
        head + 2 * (ToNat(a[1..]) + p * t);
        { MulAssoc2(p, t); }
        head + 2 * ToNat(a[1..]) + (2 * p) * t;
        { assert Pow2(|a|) == 2 * p; }
        ToNat(a) + Pow2(|a|) * t;
      }
    } else {
      assert a + b == b;
    }
  }

  lemma MulAssoc2(p: int, t: int)
    ensures 2 * (p * t) == (2 * p) * t
  {
  }

  lemma {:induction false} ToNatRepeat(b: bool, n: nat)
    ensures ToNat(Repeat(b, n)) == if b then Pow2(n) - 1 else 0
  {
    if n > 0 {
      assert Repeat(b, n)[1..] == Repeat(b, n - 1);
      ToNatRepeat(b, n - 1);
    }
  }

  lemma {:induction false} ReverseReverse<T>(s: seq<T>)
    ensures Reverse(Reverse(s)) == s
  {
    var r := Reverse(Reverse(s));
    assert |r| == |s|;
    forall i | 0 <= i < |s| ensures r[i] == s[i] {
      assert r[i] == Reverse(s)[|s| - 1 - i];
    }
  }

  lemma ReverseAppend<T>(a: seq<T>, b: seq<T>)
    ensures Reverse(a + b) == Reverse(b) + Reverse(a)
  {
    var r, e := Reverse(a + b), Reverse(b) + Reverse(a);
    forall i | 0 <= i < |a| + |b| ensures r[i] == e[i] {
    }
  }

  /** Reversing the bytes turns a big-endian value into a little-endian one. */
  lemma {:induction false} LittleEndianOfReverse(bytes: seq<byte>)
    ensures LittleEndian(Reverse(bytes)) == BigEndian(bytes)
  {
    if bytes != [] {
      var r := Reverse(bytes);
      var init := bytes[..|bytes| - 1];
      assert r[0] == bytes[|bytes| - 1];
      assert r[1..] == Reverse(init) by {
        forall i | 0 <= i < |init| ensures r[1..][i] == Reverse(init)[i] {
        }
      }
      LittleEndianOfReverse(init);
    }
  }
}
