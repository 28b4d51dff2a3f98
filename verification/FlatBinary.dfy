/** Big-endian integers of a fixed width: the flat binary archive. */
module FlatBinary {
  import opened Common

  function Pow256(width: nat): (p: nat)
    ensures p > 0
  {
    if width == 0 then 1 else 256 * Pow256(width - 1)
  }

  /** The width low-order bytes of n, most significant first. */
  function BigEndian(n: nat, width: nat): (s: seq<byte>)
    ensures |s| == width
  {
    if width == 0 then [] else BigEndian(n / 256, width - 1) + [n % 256]
  }

  /** The number that bytes denote, most significant first. */
  function FromBigEndian(s: seq<byte>): nat {
    if s == [] then 0 else FromBigEndian(s[..|s| - 1]) * 256 + s[|s| - 1]
  }

  lemma MulAtLeast(a: int, m: nat)
    requires a >= 1
    ensures a * m >= m
  {
    assert a * m == (a - 1) * m + m;
  }

  lemma ModUnique(n: int, m: int, k: int, x: int)
    requires 0 <= x < m
    requires n == k * m + x
    ensures n % m == x && n / m == k
  {
    var q, r := n / m, n % m;
    var d := q - k;
    assert d * m == x - r by {
      assert n == m * q + r;
      assert d * m == q * m - k * m;
    }
    assert (-d) * m == -(d * m);
    if d >= 1 {
      MulAtLeast(d, m);
    } else if d <= -1 {
      MulAtLeast(-d, m);
    }
  }

  lemma ModSplit(n: nat, p: nat)
    requires p > 0
    ensures n % (256 * p) == ((n / 256) % p) * 256 + n % 256
  {
    var q, a, b := n / 256, (n / 256) / p, (n / 256) % p;
    assert q == p * a + b;
    assert 256 * (p * a) == a * (256 * p);
    ModUnique(n, 256 * p, a, b * 256 + n % 256);
  }

  /** Writing then reading keeps exactly the low-order bytes. */
  lemma {:induction false} ReadAfterWrite(n: nat, width: nat)
    ensures FromBigEndian(BigEndian(n, width)) == n % Pow256(width)
  {
    if width == 0 {
    } else {
      ReadAfterWrite(n / 256, width - 1);
      ModSplit(n, Pow256(width - 1));
      var s := BigEndian(n, width);
      assert s[..|s| - 1] == BigEndian(n / 256, width - 1);
    }
  }

  /** A number that fits the width is read back unchanged. */
  lemma ReadBack(n: nat, width: nat)
    requires n < Pow256(width)
    ensures FromBigEndian(BigEndian(n, width)) == n
  {
    ReadAfterWrite(n, width);
    ModUnique(n, Pow256(width), 0, n);
  }

  /** Reading then writing reproduces the bytes, and a reading never exceeds its width. */
  lemma {:induction false} WriteAfterRead(s: seq<byte>)
    ensures FromBigEndian(s) < Pow256(|s|)
    ensures BigEndian(FromBigEndian(s), |s|) == s
  {
    if s == [] {
    } else {
      var init, last := s[..|s| - 1], s[|s| - 1];
      WriteAfterRead(init);
      ModUnique(FromBigEndian(s), 256, FromBigEndian(init), last);
      assert s == init + [last];
    }
  }

  lemma PowValues()
    ensures Pow256(1) == 0x100
    ensures Pow256(2) == 0x1_0000
    ensures Pow256(3) == 0x100_0000
    ensures Pow256(4) == 0x1_0000_0000
    ensures Pow256(8) == 0x1_0000_0000_0000_0000
  {
    assert Pow256(2) == 256 * Pow256(1);
    assert Pow256(3) == 256 * Pow256(2);
    assert Pow256(4) == 256 * Pow256(3);
    assert Pow256(5) == 256 * Pow256(4);
    assert Pow256(6) == 256 * Pow256(5);
    assert Pow256(7) == 256 * Pow256(6);
    assert Pow256(8) == 256 * Pow256(7);
  }

  lemma {:induction false} PowMonotone(a: nat, b: nat)
    requires a <= b
    ensures Pow256(a) <= Pow256(b)
    decreases b - a
  {
    if a < b {
      PowMonotone(a, b - 1);
    }
  }

  /** Dropping one low-order byte commutes with writing the rest. */
  lemma BigEndianStep(n: nat, width: nat)
    requires width > 0
    ensures BigEndian(n, width)[..width - 1] == BigEndian(n / 256, width - 1)
    ensures BigEndian(n, width)[width - 1] == n % 256
  {
  }

  /** ToFlatBinary: the array is filled from its end while the number is shifted right. */
  method ToFlatBinary(n: nat, width: nat) returns (bytes: array<byte>)
    ensures fresh(bytes) && bytes[..] == BigEndian(n, width)
  {
    bytes := new byte[width](_ => 0);
    var us, i := n, width;
    while i > 0
      invariant 0 <= i <= width == bytes.Length
      invariant BigEndian(us, i) + bytes[i..] == BigEndian(n, width)
    {
      ghost var tail := bytes[i..];
      ghost var all := BigEndian(us, i) + tail;
      BigEndianStep(us, i);
      i := i - 1;
      bytes[i] := us % 256;
      assert bytes[i + 1..] == tail;
      assert bytes[i..] == [us % 256] + tail;
      assert all == BigEndian(us / 256, i) + bytes[i..];
      us := us / 256;
    }
    assert bytes[0..] == bytes[..];
  }

  /** FromFlatBinary: the number is accumulated from the most significant byte on. */
  method FromFlatBinary(bytes: seq<byte>) returns (us: nat)
    ensures us == FromBigEndian(bytes)
  {
    us := 0;
    for i := 0 to |bytes|
      invariant us == FromBigEndian(bytes[..i])
    {
      assert bytes[..i + 1][..i] == bytes[..i];
      us := us * 256 + bytes[i];
    }
    assert bytes[..|bytes|] == bytes;
  }
}
