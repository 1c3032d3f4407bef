/** Machine integers and the big-endian byte order every format of the repository uses. */
module Bytes {
  type byte = n: int | 0 <= n < 256
  type u8 = byte
  type u32 = n: int | 0 <= n < 0x1_0000_0000
  type u64 = n: int | 0 <= n < 0x1_0000_0000_0000_0000
  type i32 = n: int | -0x8000_0000 <= n < 0x8000_0000
  type i64 = n: int | -0x8000_0000_0000_0000 <= n < 0x8000_0000_0000_0000

  const TWO16: int := 0x1_0000
  const TWO32: int := 0x1_0000_0000
  const TWO64: int := 0x1_0000_0000_0000_0000

  // ---------- writing: shift by whole bytes, then truncate to a byte ----------

  function Digit(n: nat, k: nat): byte
    decreases k
  {
    if k == 0 then n % 256 else Digit(n / 256, k - 1)
  }

  /** The low `width` bytes of `n`, most significant first. */
  function BigEndian(n: nat, width: nat): (s: seq<byte>)
    ensures |s| == width
  {
    seq(width, i requires 0 <= i < width => Digit(n, width - 1 - i))
  }

  /** A signed integer is written as its two's complement. */
  function Unsigned32(n: i32): u32 {
    if n < 0 then n + TWO32 else n
  }

  function Unsigned64(n: i64): u64 {
    if n < 0 then n + TWO64 else n
  }

  // ---------- reading at a position ----------

  function U16At(s: seq<byte>, p: nat): nat
    requires p + 2 <= |s|
  {
    0x100 * (s[p] as int) + s[p + 1]
  }

  function U32At(s: seq<byte>, p: nat): u32
    requires p + 4 <= |s|
  {
    0x100_0000 * (s[p] as int) + 0x1_0000 * (s[p + 1] as int) + 0x100 * (s[p + 2] as int) + s[p + 3]
  }

  function U64At(s: seq<byte>, p: nat): u64
    requires p + 8 <= |s|
  {
    0x1_0000_0000 * U32At(s, p) + U32At(s, p + 4)
  }

  function Signed16(n: nat): int {
    if n < 0x8000 then n else n - TWO16
  }

  function Signed32(n: u32): i32 {
    if n < 0x8000_0000 then n else n - TWO32
  }

  function Signed64(n: u64): i64 {
    if n < 0x8000_0000_0000_0000 then n else n - TWO64
  }

  /** `os.File.Truncate`: cuts, or pads with zeros. */
  function Resize(b: seq<byte>, n: nat): (r: seq<byte>)
    ensures |r| == n
  {
    if n <= |b| then b[..n] else b + seq(n - |b|, _ => 0)
  }

  // ---------- what was written is read back, modulo the width of the field ----------

  lemma Digits4(n: nat) returns (q: nat)
    ensures n == 0x1_0000_0000 * q + 0x100_0000 * Digit(n, 3) + 0x1_0000 * Digit(n, 2) + 0x100 * Digit(n, 1)
            + Digit(n, 0)
    ensures forall k :: 4 <= k ==> Digit(n, k) == Digit(q, k - 4)
  {
    var a := n / 256;
    var b := a / 256;
    var c := b / 256;
    q := c / 256;
    assert Digit(n, 1) == Digit(a, 0);
    assert Digit(n, 2) == Digit(a, 1) == Digit(b, 0);
    assert Digit(n, 3) == Digit(a, 2) == Digit(b, 1) == Digit(c, 0);
    forall k | 4 <= k
      ensures Digit(n, k) == Digit(q, k - 4)
    {
      assert Digit(n, k) == Digit(a, k - 1) == Digit(b, k - 2) == Digit(c, k - 3) == Digit(q, k - 4);
    }
  }

  /** The bytes of a number, the highest first. */
  lemma BigEndianBytes(n: nat)
    ensures BigEndian(n, 2) == [n / 0x100 % 256, n % 256]
    ensures BigEndian(n, 4) == [n / 0x100_0000 % 256, n / 0x1_0000 % 256, n / 0x100 % 256, n % 256]
  {
    DigitIs(n, 0);
    DigitIs(n, 1);
    DigitIs(n, 2);
    DigitIs(n, 3);
    assert forall k :: 0 <= k < 2 ==> BigEndian(n, 2)[k] == Digit(n, 1 - k);
    assert forall k :: 0 <= k < 4 ==> BigEndian(n, 4)[k] == Digit(n, 3 - k);
  }

  lemma DigitIs(n: nat, k: nat)
    requires k < 4
    ensures Digit(n, k)
         == (if k == 0 then n else if k == 1 then n / 0x100 else if k == 2 then n / 0x1_0000 else n / 0x100_0000) % 256
  {
    var a := n / 256;
    var b := a / 256;
    var c := b / 256;
    assert b == n / 0x1_0000 && c == n / 0x100_0000;
    assert Digit(n, 1) == Digit(a, 0);
    assert Digit(n, 2) == Digit(a, 1) == Digit(b, 0);
    assert Digit(n, 3) == Digit(a, 2) == Digit(b, 1) == Digit(c, 0);
  }

  /** Eight bytes are the four bytes of the high half, then those of the low half. */
  lemma BigEndianHalves(n: nat)
    ensures BigEndian(n, 8) == BigEndian(n / 0x1_0000_0000, 4) + BigEndian(n, 4)
  {
    var q := Digits4(n);
    assert q == n / 0x1_0000_0000;
    var whole, halves := BigEndian(n, 8), BigEndian(q, 4) + BigEndian(n, 4);
    forall k | 0 <= k < 8
      ensures whole[k] == halves[k]
    {
      assert whole[k] == Digit(n, 7 - k);
    }
  }

  lemma U16RoundTrip(n: nat)
    ensures U16At(BigEndian(n, 2), 0) == n % 0x1_0000
  {
    var s := BigEndian(n, 2);
    assert s[0] == Digit(n, 1) == Digit(n / 256, 0) && s[1] == Digit(n, 0);
  }

  lemma U32RoundTrip(n: nat)
    ensures U32At(BigEndian(n, 4), 0) == n % 0x1_0000_0000
  {
    var q := Digits4(n);
    var s := BigEndian(n, 4);
    assert s[0] == Digit(n, 3) && s[1] == Digit(n, 2) && s[2] == Digit(n, 1) && s[3] == Digit(n, 0);
  }

  lemma U64RoundTrip(n: nat)
    requires n < TWO64
    ensures U64At(BigEndian(n, 8), 0) == n
  {
    var q := Digits4(n);
    var q' := Digits4(q);
    var s := BigEndian(n, 8);
    assert forall i :: 0 <= i < 8 ==> s[i] == Digit(n, 7 - i);
    assert s[0] == Digit(q, 3) && s[1] == Digit(q, 2) && s[2] == Digit(q, 1) && s[3] == Digit(q, 0);
    assert U32At(s, 0) == q - 0x1_0000_0000 * q';
    assert U32At(s, 4) == n - 0x1_0000_0000 * q;
  }

  lemma I32RoundTrip(n: i32)
    ensures Signed32(U32At(BigEndian(Unsigned32(n), 4), 0)) == n
  {
    U32RoundTrip(Unsigned32(n));
  }

  lemma I64RoundTrip(n: i64)
    ensures Signed64(U64At(BigEndian(Unsigned64(n), 8), 0)) == n
  {
    U64RoundTrip(Unsigned64(n));
  }
}
