/** The SCALE codec, section A.2.2 of the Polkadot Protocol Specification, for the
    types the liability pallet stores and signs. */
module Scale {
  import opened LittleEndian

  /** A `Vec<u8>`: its length is written as a compact 32-bit number. */
  type Blob = s: seq<byte> | |s| < 0x1_0000_0000
  type AccountId = s: seq<byte> | |s| == 32 witness seq(32, _ => 0)

  /** An agreement as stored on chain; the phantom field occupies no bytes. */
  datatype SignedLiability = SignedLiability(
    technics: Blob, economics: u128, promisee: AccountId, promisor: AccountId)

  // ---- Compact lengths ----

  function Compact(v: u32): (s: seq<byte>)
  {
    if v < 0x40 then Bytes(4 * v, 1)
    else if v < 0x4000 then Bytes(4 * v + 1, 2)
    else if v < 0x4000_0000 then Bytes(4 * v + 2, 4)
    else [3] + Bytes(v, 4)
  }

  /** A length is accepted only in the shortest mode that can hold it. */
  function DecodeCompact(s: seq<byte>): (r: Decoded<u32>)
  {
    if s == [] then Fail
    else if s[0] % 4 == 0 then Ok(s[0] / 4, s[1..])
    else if s[0] % 4 == 1 then
      if |s| < 2 then Fail else
      Powers(); var v := Value(s[..2]) / 4;
      if v >= 0x40 then Ok(v, s[2..]) else Fail
    else if s[0] % 4 == 2 then
      if |s| < 4 then Fail else
      Powers(); var v := Value(s[..4]) / 4;
      if v >= 0x4000 then Ok(v, s[4..]) else Fail
    else
      if s[0] != 3 || |s| < 5 then Fail else
      Powers(); var v := Value(s[1..5]);
      if v >= 0x4000_0000 then Ok(v, s[5..]) else Fail
  }

  lemma OneByte(v: u32)
    requires v < 0x40
    ensures Compact(v) == [4 * v]
  {
  }

  lemma Modes(v: u32)
    ensures 0x40 <= v < 0x4000 ==> Compact(v) == Bytes(4 * v + 1, 2)
    ensures 0x4000 <= v < 0x4000_0000 ==> Compact(v) == Bytes(4 * v + 2, 4)
    ensures 0x4000_0000 <= v ==> Compact(v) == [3] + Bytes(v, 4)
  {
    hide Bytes;
  }

  lemma CompactRoundTrip(v: u32, rest: seq<byte>)
    ensures DecodeCompact(Compact(v) + rest) == Ok(v, rest)
  {
    hide Compact, Bytes, Value, Pow256;
    var s := Compact(v) + rest;
    Modes(v);
    Powers();
    if v < 0x40 {
      OneByte(v);
    } else if v < 0x4000 {
      TaggedBytes(v, 1, 2, rest);
    } else if v < 0x4000_0000 {
      TaggedBytes(v, 2, 4, rest);
    } else {
      ValueOfBytes(v, 4);
      assert s[1..5] == Bytes(v, 4) && s[5..] == rest;
    }
  }

  /** A mode tag in the two low bits survives the trip through bytes. */
  lemma TaggedBytes(v: nat, tag: nat, n: nat, rest: seq<byte>)
    requires tag < 4 && 0 < n && 4 * v + tag < Pow256(n)
    ensures var s := Bytes(4 * v + tag, n) + rest;
      s[0] % 4 == tag && Value(s[..n]) / 4 == v && s[n..] == rest
  {
    hide Bytes, Pow256;
    var s := Bytes(4 * v + tag, n) + rest;
    assert s[..n] == Bytes(4 * v + tag, n);
    ValueOfBytes(4 * v + tag, n);
    LowByte(s[..n]);
  }

  lemma CompactCanonical(s: seq<byte>)
    requires DecodeCompact(s).Ok?
    ensures s == Compact(DecodeCompact(s).value) + DecodeCompact(s).rest
  {
    Powers();
    if s[0] % 4 == 0 {
      BytesOfValue(s[..1]);
      assert Value(s[..1]) == s[0];
    } else if s[0] % 4 == 1 {
      BytesOfValue(s[..2]);
      LowByte(s[..2]);
    } else if s[0] % 4 == 2 {
      BytesOfValue(s[..4]);
      LowByte(s[..4]);
    } else {
      BytesOfValue(s[1..5]);
      assert s == [3] + s[1..5] + s[5..];
    }
  }

  // ---- Byte vectors ----

  function EncodeBlob(b: Blob): (s: seq<byte>)
  {
    Compact(|b|) + b
  }

  function DecodeBlob(s: seq<byte>): (r: Decoded<Blob>)
  {
    match DecodeCompact(s)
    case Fail => Fail
    case Ok(n, t) => if |t| < n then Fail else Ok(t[..n], t[n..])
  }

  lemma BlobExact(s: seq<byte>, b: Blob, rest: seq<byte>)
    ensures DecodeBlob(s) == Ok(b, rest) <==> s == EncodeBlob(b) + rest
  {
    hide Compact, DecodeCompact;
    if DecodeBlob(s) == Ok(b, rest) {
      CompactCanonical(s);
      assert s == Compact(|b|) + (b + rest);
    }
    if s == EncodeBlob(b) + rest {
      assert s == Compact(|b|) + (b + rest);
      CompactRoundTrip(|b|, b + rest);
      assert (b + rest)[..|b|] == b && (b + rest)[|b|..] == rest;
    }
  }

  // ---- Liabilities ----

  function EncodeParams(technics: Blob, economics: u128): (s: seq<byte>)
  {
    EncodeBlob(technics) + Bytes(economics, 16)
  }

  function EncodeReport(index: u64, report: Blob): (s: seq<byte>)
  {
    Bytes(index, 8) + EncodeBlob(report)
  }

  function Encode(l: SignedLiability): (s: seq<byte>)
  {
    EncodeParams(l.technics, l.economics) + l.promisee + l.promisor
  }

  function Decode(s: seq<byte>): (r: Decoded<SignedLiability>)
  {
    match DecodeBlob(s)
    case Fail => Fail
    case Ok(technics, s1) =>
      match DecodeInt(16, s1)
      case Fail => Fail
      case Ok(economics, s2) =>
        if |s2| < 64 then Fail
        else
          Powers();
          Ok(SignedLiability(technics, economics, s2[..32], s2[32..64]), s2[64..])
  }

  lemma Reassociate(a: seq<byte>, b: seq<byte>, c: seq<byte>, d: seq<byte>, e: seq<byte>)
    ensures a + b + c + d + e == a + (b + (c + d + e))
  {
  }

  lemma DecodeTakesEncoding(l: SignedLiability, rest: seq<byte>)
    ensures Decode(Encode(l) + rest) == Ok(l, rest)
  {
    hide EncodeBlob, DecodeBlob;
    var s2 := l.promisee + l.promisor + rest;
    var s1 := Bytes(l.economics, 16) + s2;
    Reassociate(EncodeBlob(l.technics), Bytes(l.economics, 16), l.promisee, l.promisor, rest);
    BlobExact(EncodeBlob(l.technics) + s1, l.technics, s1);
    Powers();
    IntExact(16, s1, l.economics, s2);
    assert s2[..32] == l.promisee && s2[32..64] == l.promisor && s2[64..] == rest;
  }

  lemma DecodedIsEncoding(s: seq<byte>)
    requires Decode(s).Ok?
    ensures s == Encode(Decode(s).value) + Decode(s).rest
  {
    hide EncodeBlob, DecodeBlob;
    var Ok(l, rest) := Decode(s);
    var s1 := DecodeBlob(s).rest;
    var s2 := DecodeInt(16, s1).rest;
    assert s == EncodeBlob(l.technics) + s1 by { BlobExact(s, l.technics, s1); }
    assert s1 == Bytes(l.economics, 16) + s2 by { Powers(); IntExact(16, s1, l.economics, s2); }
    assert s2 == l.promisee + l.promisor + rest;
    Reassociate(EncodeBlob(l.technics), Bytes(l.economics, 16), l.promisee, l.promisor, rest);
  }

  /** Decoding is the exact inverse of encoding: a byte string decodes to `l` with
      `rest` left over just when it is the encoding of `l` followed by `rest`. */
  lemma LiabilityExact(s: seq<byte>, l: SignedLiability, rest: seq<byte>)
    ensures Decode(s) == Ok(l, rest) <==> s == Encode(l) + rest
  {
    hide Encode, Decode;
    if Decode(s).Ok? { DecodedIsEncoding(s); }
    DecodeTakesEncoding(l, rest);
  }

  lemma LiabilityRoundTrip(l: SignedLiability)
    ensures Decode(Encode(l)) == Ok(l, [])
  {
    hide Encode, Decode;
    assert Encode(l) == Encode(l) + [];
    LiabilityExact(Encode(l), l, []);
  }

  /** An absent storage entry reads as the empty byte string, which is no liability. */
  lemma EmptyIsNoLiability()
    ensures Decode([]) == Fail
  {
  }

  lemma EncodeInjective(l: SignedLiability, m: SignedLiability)
    requires Encode(l) == Encode(m)
    ensures l == m
  {
    LiabilityRoundTrip(l);
    LiabilityRoundTrip(m);
  }

  lemma EncodeParamsInjective(t: Blob, e: u128, t': Blob, e': u128)
    requires EncodeParams(t, e) == EncodeParams(t', e')
    ensures t == t' && e == e'
  {
    BlobExact(EncodeParams(t, e), t, Bytes(e, 16));
    BlobExact(EncodeParams(t, e), t', Bytes(e', 16));
    Powers();
    ValueOfBytes(e, 16);
    ValueOfBytes(e', 16);
  }

  lemma EncodeReportInjective(i: u64, r: Blob, j: u64, q: Blob)
    requires EncodeReport(i, r) == EncodeReport(j, q)
    ensures i == j && r == q
  {
    Powers();
    IntExact(8, EncodeReport(i, r), i, EncodeBlob(r));
    IntExact(8, EncodeReport(i, r), j, EncodeBlob(q));
    BlobExact(EncodeBlob(r), r, []);
    BlobExact(EncodeBlob(r), q, []);
    assert EncodeBlob(r) == EncodeBlob(r) + [] && EncodeBlob(q) == EncodeBlob(q) + [];
  }

  // ---- Layouts, byte by byte ----

  /** The four modes of a compact length: how many bytes, which tag in the two low bits, and
      the number whose digits the bytes are. */
  lemma CompactLayout(v: u32)
    ensures var s := Compact(v);
      && (v < 0x40 ==> s == [4 * v])
      && (0x40 <= v < 0x4000 ==> |s| == 2 && s[0] % 4 == 1 && Digits(s, 4 * v + 1))
      && (0x4000 <= v < 0x4000_0000 ==> |s| == 4 && s[0] % 4 == 2 && Digits(s, 4 * v + 2))
      && (0x4000_0000 <= v ==> |s| == 5 && s[0] == 3 && Digits(s[1..], v))
  {
    hide Compact, Digits, Bytes, Pow256;
    if v < 0x40 {
      OneByte(v);
    } else if v < 0x4000 {
      Modes(v);
      Tagged(v, 1, 2, Compact(v));
    } else if v < 0x4000_0000 {
      Modes(v);
      Tagged(v, 2, 4, Compact(v));
    } else {
      Modes(v);
      BytesAreDigits(v, 4);
      assert Compact(v)[1..] == Bytes(v, 4);
    }
  }

  lemma Tagged(v: nat, tag: nat, n: nat, s: seq<byte>)
    requires n > 0 && tag < 4 && s == Bytes(4 * v + tag, n)
    ensures |s| == n && s[0] % 4 == tag && Digits(s, 4 * v + tag)
  {
    hide Digits;
    BytesAreDigits(4 * v + tag, n);
  }

  ghost predicate Digits(s: seq<byte>, w: nat) {
    forall k: nat :: k < |s| ==> s[k] == w / Pow256(k) % 256
  }

  lemma BytesAreDigits(w: nat, n: nat)
    requires n > 0
    ensures Digits(Bytes(w, n), w) && Bytes(w, n)[0] % 4 == w % 4
  {
    forall k: nat | k < n ensures Bytes(w, n)[k] == w / Pow256(k) % 256 { ByteAt(w, n, k); }
  }

  /** A byte vector is its compact length and then its bytes. */
  lemma BlobLayout(b: Blob)
    ensures EncodeBlob(b)[..|Compact(|b|)|] == Compact(|b|) && EncodeBlob(b)[|Compact(|b|)|..] == b
  {
    hide Compact;
  }

  /** A signed report is the eight base-256 digits of the index, lowest first, and then the
      report; the two are read back in that order. */
  lemma ReportLayout(i: u64, r: Blob, rest: seq<byte>)
    ensures EncodeReport(i, r)[8..] == EncodeBlob(r) && Digits(EncodeReport(i, r)[..8], i)
    ensures DecodeInt(8, EncodeReport(i, r) + rest) == Ok(i, EncodeBlob(r) + rest)
    ensures DecodeBlob(EncodeBlob(r) + rest) == Ok(r, rest)
  {
    hide EncodeBlob, DecodeBlob, Bytes, DecodeInt;
    BytesAreDigits(i, 8);
    assert EncodeReport(i, r)[..8] == Bytes(i, 8);
    Powers();
    assert EncodeReport(i, r) + rest == Bytes(i, 8) + (EncodeBlob(r) + rest);
    IntExact(8, EncodeReport(i, r) + rest, i, EncodeBlob(r) + rest);
    BlobExact(EncodeBlob(r) + rest, r, rest);
  }

  /** The signed parameters are the technics and then the sixteen digits of the price. */
  lemma ParamsLayout(t: Blob, e: u128)
    ensures var n := |EncodeBlob(t)|;
      && |EncodeParams(t, e)| == n + 16 && EncodeParams(t, e)[..n] == EncodeBlob(t)
      && Digits(EncodeParams(t, e)[n..], e)
  {
    hide EncodeBlob, Bytes;
    BytesAreDigits(e, 16);
    assert EncodeParams(t, e)[|EncodeBlob(t)|..] == Bytes(e, 16);
  }

  /** A stored liability is its signed parameters, the promisee and the promisor. */
  lemma LiabilityLayout(l: SignedLiability)
    ensures var n := |EncodeParams(l.technics, l.economics)|;
      && |Encode(l)| == n + 64 && Encode(l)[..n] == EncodeParams(l.technics, l.economics)
      && Encode(l)[n..n + 32] == l.promisee && Encode(l)[n + 32..] == l.promisor
  {
    hide EncodeParams;
  }

  /** Three encodings written out. */
  lemma Specimens()
    ensures EncodeBlob([7]) == [4, 7]
    ensures EncodeReport(1, [7]) == [1, 0, 0, 0, 0, 0, 0, 0, 4, 7]
    ensures EncodeParams([7], 258) == [4, 7, 2, 1, 0, 0, 0, 0, 0, 0, 0, 0, 0, 0, 0, 0, 0, 0]
  {
    hide Bytes, EncodeBlob;
    Unfolded();
    Zeros(7);
    Zeros(14);
  }

  lemma Unfolded()
    ensures EncodeBlob([7]) == [4, 7]
    ensures Bytes(1, 8) == [1] + Bytes(0, 7)
    ensures Bytes(258, 16) == [2, 1] + Bytes(0, 14)
  {
  }

  lemma {:induction false} Zeros(n: nat)
    ensures Bytes(0, n) == seq(n, _ => 0)
  {
    if n > 0 { Zeros(n - 1); }
  }
}
