/** Byte strings read as little-endian numbers: the integer layout of the SCALE
    and bincode codecs, and the counter that the vanity search walks along. */
module LittleEndian {
  import opened Arithmetic

  type byte = x: int | 0 <= x < 256

  const U64_MAX: nat := 0xffff_ffff_ffff_ffff
  const U128_MAX: nat := 0xffff_ffff_ffff_ffff_ffff_ffff_ffff_ffff

  type u32 = x: int | 0 <= x < 0x1_0000_0000
  type u64 = x: int | 0 <= x < 0x1_0000_0000_0000_0000
  type u128 = x: int | 0 <= x < 0x1_0000_0000_0000_0000_0000_0000_0000_0000

  function Pow256(n: nat): (r: nat)
    ensures r > 0
  {
    if n == 0 then 1 else 256 * Pow256(n - 1)
  }

  /** The number a byte string denotes, least significant byte first. */
  function Value(s: seq<byte>): (v: nat)
    ensures v < Pow256(|s|)
  {
    if s == [] then 0 else s[0] + 256 * Value(s[1..])
  }

  /** The `n` low-order bytes of `v`. */
  function Bytes(v: nat, n: nat): (s: seq<byte>)
    ensures |s| == n
  {
    if n == 0 then [] else [v % 256] + Bytes(v / 256, n - 1)
  }

  lemma {:induction false} ValueOfBytes(v: nat, n: nat)
    requires v < Pow256(n)
    ensures Value(Bytes(v, n)) == v
  {
    if n > 0 {
      ValueOfBytes(v / 256, n - 1);
      assert Bytes(v, n)[1..] == Bytes(v / 256, n - 1);
    }
  }

  /** Byte `k` is the `k`-th digit in base 256. */
  lemma {:induction false} ByteAt(v: nat, n: nat, k: nat)
    requires k < n
    ensures Bytes(v, n)[k] == v / Pow256(k) % 256
  {
    if k > 0 {
      ByteAt(v / 256, n - 1, k - 1);
      DivDiv(v, 256, Pow256(k - 1));
    }
  }

  lemma {:induction false} BytesOfValue(s: seq<byte>)
    ensures Bytes(Value(s), |s|) == s
  {
    if s != [] {
      BytesOfValue(s[1..]);
      assert Value(s) % 256 == s[0] && Value(s) / 256 == Value(s[1..]);
    }
  }

  lemma Powers()
    ensures Pow256(1) == 0x100 && Pow256(2) == 0x1_0000 && Pow256(3) == 0x100_0000
    ensures Pow256(4) == 0x1_0000_0000
    ensures Pow256(8) == 0x1_0000_0000_0000_0000
    ensures Pow256(16) == 0x1_0000_0000_0000_0000_0000_0000_0000_0000
  {
  }

  /** A number's lowest byte decides its remainder modulo 4, which is where the
      SCALE compact form keeps its mode. */
  lemma LowByte(s: seq<byte>)
    requires s != []
    ensures Value(s) % 4 == s[0] % 4
  {
  }

  // ---- Reading ----

  /** What decoding leaves: the value read and the bytes after it. */
  datatype Decoded<+T> = Ok(value: T, rest: seq<byte>) | Fail

  function DecodeInt(n: nat, s: seq<byte>): (r: Decoded<nat>)
  {
    if |s| < n then Fail else Ok(Value(s[..n]), s[n..])
  }

  lemma IntExact(n: nat, s: seq<byte>, v: nat, rest: seq<byte>)
    requires v < Pow256(n)
    ensures DecodeInt(n, s) == Ok(v, rest) <==> s == Bytes(v, n) + rest
  {
    if DecodeInt(n, s) == Ok(v, rest) {
      BytesOfValue(s[..n]);
    }
    if s == Bytes(v, n) + rest {
      ValueOfBytes(v, n);
      assert s[..n] == Bytes(v, n) && s[n..] == rest;
    }
  }
}
