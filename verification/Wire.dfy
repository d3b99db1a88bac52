/** Big-endian integers on the wire. */
module Wire {
  import opened Prelude

  function U16(n: nat): (b: Bytes)
    requires n <= U16_MAX
    ensures |b| == 2 && FromU16(b[0], b[1]) == n
  {
    [n / 256, n % 256]
  }

  function FromU16(hi: Byte, lo: Byte): (n: nat)
    ensures n <= U16_MAX
  {
    hi * 256 + lo
  }

  lemma U16OfFromU16(hi: Byte, lo: Byte)
    ensures U16(FromU16(hi, lo)) == [hi, lo]
  {
  }

  /** The low `width` bytes of `n`, most significant first (`to_be_bytes`). */
  function BigEndian(n: nat, width: nat): (b: Bytes)
    ensures |b| == width
    decreases width
  {
    if width == 0 then [] else BigEndian(n / 256, width - 1) + [n % 256]
  }

  function FromBigEndian(b: Bytes): nat {
    if b == [] then 0 else FromBigEndian(b[..|b| - 1]) * 256 + b[|b| - 1]
  }

  /** `n` is an unsigned integer of `width` bytes. */
  predicate Fits(n: nat, width: nat) {
    if width == 0 then n == 0 else Fits(n / 256, width - 1)
  }

  lemma {:induction false} BigEndianRoundTrip(n: nat, width: nat)
    requires Fits(n, width)
    ensures FromBigEndian(BigEndian(n, width)) == n
  {
    if width > 0 {
      BigEndianRoundTrip(n / 256, width - 1);
    }
  }

  lemma {:induction false} FromBigEndianRoundTrip(b: Bytes)
    ensures Fits(FromBigEndian(b), |b|)
    ensures BigEndian(FromBigEndian(b), |b|) == b
  {
    if b != [] {
      FromBigEndianRoundTrip(b[..|b| - 1]);
      var high, low := FromBigEndian(b[..|b| - 1]), b[|b| - 1];
      assert (high * 256 + low) / 256 == high && (high * 256 + low) % 256 == low;
    }
  }

  /** `a` comes before `b` in the order of byte strings. */
  predicate Precedes(a: Bytes, b: Bytes)
    requires |a| == |b|
    decreases |a|
  {
    a != [] && (a[0] < b[0] || (a[0] == b[0] && Precedes(a[1..], b[1..])))
  }

  lemma {:induction false} PrecedesAppend(a: Bytes, b: Bytes, x: Byte, y: Byte)
    requires |a| == |b|
    ensures Precedes(a + [x], b + [y]) <==> Precedes(a, b) || (a == b && x < y)
    decreases |a|
  {
    if a != [] {
      assert (a + [x])[1..] == a[1..] + [x] && (b + [y])[1..] == b[1..] + [y];
      PrecedesAppend(a[1..], b[1..], x, y);
      assert a == [a[0]] + a[1..] && b == [b[0]] + b[1..];
    }
  }

  /** What makes it big-endian: the bytes are ordered as the numbers are. */
  lemma {:induction false} BigEndianOrders(m: nat, n: nat, width: nat)
    requires Fits(m, width) && Fits(n, width)
    ensures Precedes(BigEndian(m, width), BigEndian(n, width)) <==> m < n
  {
    if width > 0 {
      BigEndianOrders(m / 256, n / 256, width - 1);
      PrecedesAppend(BigEndian(m / 256, width - 1), BigEndian(n / 256, width - 1), m % 256, n % 256);
      if BigEndian(m / 256, width - 1) == BigEndian(n / 256, width - 1) {
        BigEndianRoundTrip(m / 256, width - 1);
        BigEndianRoundTrip(n / 256, width - 1);
      }
      QuotientOrders(m, n);
    }
  }

  lemma QuotientOrders(m: nat, n: nat)
    ensures m < n <==> m / 256 < n / 256 || (m / 256 == n / 256 && m % 256 < n % 256)
  {
  }

  /** The two-byte forms are the same encoding. */
  lemma BigEndianIsU16(n: nat)
    requires n <= U16_MAX
    ensures Fits(n, 2) && U16(n) == BigEndian(n, 2)
  {
    assert Fits(n / 256 / 256, 0) && Fits(n / 256, 1);
    assert BigEndian(n / 256 / 256, 0) == [] && BigEndian(n / 256, 1) == [n / 256];
  }
}
