/** Fixed-width integers and the little-endian (host order) byte codecs used by
    the netlink wire format. */
module Bytes {

  type byte = x: int | 0 <= x < 0x100
  type u16 = x: int | 0 <= x < 0x1_0000
  type u32 = x: int | 0 <= x < 0x1_0000_0000

  /** Little-endian encodings, the host byte order of the structs the program writes. */
  function Le16(x: u16): (r: seq<byte>)
    ensures |r| == 2
  {
    [x % 0x100, x / 0x100]
  }

  function Le32(x: u32): (r: seq<byte>)
    ensures |r| == 4
  {
    Le16(x % 0x1_0000) + Le16(x / 0x1_0000)
  }

  function Zeros(n: nat): (r: seq<byte>)
    ensures |r| == n && forall i :: 0 <= i < n ==> r[i] == 0
  {
    seq(n, _ => 0)
  }

  /** A byte of a buffer; a read past either end yields 0.  The C code reads
      such bytes out of stale or unmapped memory, whose value the model does not know. */
  function ByteAt(s: seq<byte>, i: int): byte
  {
    if 0 <= i < |s| then s[i] else 0
  }

  /** The n bytes of a buffer from offset off on, zero past either end. */
  function Slice(s: seq<byte>, off: int, n: nat): (r: seq<byte>)
    ensures |r| == n && forall i :: 0 <= i < n ==> r[i] == ByteAt(s, off + i)
  {
    if n == 0 then [] else Slice(s, off, n - 1) + [ByteAt(s, off + n - 1)]
  }

  function Le16At(s: seq<byte>, i: int): u16
  {
    ByteAt(s, i) + 0x100 * ByteAt(s, i + 1)
  }

  function Le32At(s: seq<byte>, i: int): u32
  {
    Le16At(s, i) + 0x1_0000 * Le16At(s, i + 2)
  }

  /** MNL_ALIGN / NLMSG_ALIGN: round up to a multiple of four. */
  function Align4(n: int): int
  {
    (n + 3) / 4 * 4
  }

  /** The two's complement reading of a 32-bit word, as C's cast to int32_t. */
  function ToInt32(x: u32): (r: int)
    ensures -0x8000_0000 <= r < 0x8000_0000
    ensures r % 0x1_0000_0000 == x
  {
    if x < 0x8000_0000 then x else x - 0x1_0000_0000
  }

  lemma Align4Bounds(n: int)
    ensures n <= Align4(n) < n + 4 && Align4(n) % 4 == 0
  {
  }

  lemma Align4Plus4(n: int)
    ensures Align4(n + 4) == Align4(n) + 4
  {
    assert (n + 4 + 3) / 4 == (n + 3) / 4 + 1;
  }

  lemma Align4Mono(m: int, n: int)
    requires m <= n
    ensures Align4(m) <= Align4(n)
  {
    assert (m + 3) / 4 <= (n + 3) / 4;
  }

  /** Reading back a 16-bit word written at offset i recovers it. */
  lemma Le16Read(s: seq<byte>, i: int, x: u16)
    requires 0 <= i && i + 2 <= |s| && s[i..i + 2] == Le16(x)
    ensures Le16At(s, i) == x
  {
    assert s[i] == s[i..i + 2][0] && s[i + 1] == s[i..i + 2][1];
  }

  /** Reading back a 32-bit word written at offset i recovers it. */
  lemma Le32Read(s: seq<byte>, i: int, x: u32)
    requires 0 <= i && i + 4 <= |s| && s[i..i + 4] == Le32(x)
    ensures Le32At(s, i) == x
  {
    assert s[i..i + 2] == s[i..i + 4][..2];
    assert s[i + 2..i + 4] == s[i..i + 4][2..];
    Le16Read(s, i, x % 0x1_0000);
    Le16Read(s, i + 2, x / 0x1_0000);
  }
}
