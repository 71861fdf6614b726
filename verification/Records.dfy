/** Policy state records and the 48-byte encoding that guardians sign (types/policy.go). */
module Records {
  import opened Basics

  /** The instant a record carries; only its whole seconds are signed. */
  datatype Timestamp = Timestamp(unix: Int64, nanos: nat)

  datatype QuorumSignature = QuorumSignature(signerID: Bytes, signature: Bytes)

  datatype Record = Record(version: Uint64, stateRoot: Digest, timestamp: Timestamp,
                           quorumSignatures: seq<QuorumSignature>)

  function Pow256(k: nat): (p: nat)
    ensures p >= 1
  {
    if k == 0 then 1 else 256 * Pow256(k - 1)
  }

  /** The k low bytes of n, least significant first. */
  function LittleEndian(n: nat, k: nat): (r: Bytes)
    ensures |r| == k
  {
    if k == 0 then [] else [n % 256] + LittleEndian(n / 256, k - 1)
  }

  function FromLittleEndian(b: Bytes): (n: nat)
    ensures n < Pow256(|b|)
  {
    if b == [] then 0 else b[0] + 256 * FromLittleEndian(b[1..])
  }

  lemma {:induction false} LittleEndianRoundTrip(n: nat, k: nat)
    requires n < Pow256(k)
    ensures FromLittleEndian(LittleEndian(n, k)) == n
  {
    if k == 0 {
    } else {
      LittleEndianRoundTrip(n / 256, k - 1);
      assert LittleEndian(n, k)[1..] == LittleEndian(n / 256, k - 1);
    }
  }

  lemma DivideTwice(n: nat, m: nat)
    requires m >= 1
    ensures n / (256 * m) == (n / 256) / m
  {
    var q := (n / 256) / m;
    var r := (n / 256) % m;
    assert n / 256 == q * m + r;
    var r' := 256 * r + n % 256;
    assert n == q * (256 * m) + r' by {
      assert n == 256 * (n / 256) + n % 256;
      assert 256 * (q * m + r) == q * (256 * m) + 256 * r;
    }
    assert r' < 256 * m;
    QuotientUnique(n, 256 * m, q, r');
  }

  lemma ProductAtLeast(k: int, d: nat)
    requires k >= 1
    ensures k * d >= d
  {
  }

  lemma QuotientUnique(n: nat, d: nat, q: nat, r: nat)
    requires d >= 1 && n == q * d + r && r < d
    ensures n / d == q
  {
    var q', r' := n / d, n % d;
    var gap := q - q';
    assert gap * d == q * d - q' * d == r' - r by {
      Distribute(q, q', d);
    }
    if gap > 0 {
      ProductAtLeast(gap, d);
    } else if gap < 0 {
      ProductAtLeast(-gap, d);
    }
  }

  lemma Distribute(x: int, y: int, d: int)
    ensures (x - y) * d == x * d - y * d
  {
  }

  /** Shifting right by 8*i and truncating to a byte reads byte i. */
  lemma {:induction false} LittleEndianByte(n: nat, k: nat, i: nat)
    requires i < k
    ensures LittleEndian(n, k)[i] == (n / Pow256(i)) % 256
  {
    if i == 0 {
    } else {
      LittleEndianByte(n / 256, k - 1, i - 1);
      DivideTwice(n, Pow256(i - 1));
    }
  }

  /** Conversion of a signed 64-bit integer to uint64. */
  function AsUint64(t: Int64): (r: Uint64)
    ensures t >= 0 ==> r == t
    ensures t < 0 ==> r == t + TWO_64
  {
    if t >= 0 then t else t + TWO_64
  }

  /** The inverse conversion. */
  function AsInt64(n: Uint64): Int64 {
    if n < TWO_64 / 2 then n else n - TWO_64
  }

  /** version || state root || seconds, the string that is hashed and signed. */
  function Encoding(r: Record): (b: Bytes)
    ensures |b| == 48
  {
    var root: Bytes := r.stateRoot;
    LittleEndian(r.version, 8) + root + LittleEndian(AsUint64(r.timestamp.unix), 8)
  }

  function RecordHash(h: Sha, r: Record): Digest {
    h(Encoding(r))
  }

  datatype SignedFields = SignedFields(version: nat, stateRoot: Bytes, unix: int)

  /** Reads the signed fields back from 48 bytes. */
  function Decode(b: Bytes): SignedFields
    requires |b| == 48
  {
    Pow256Of8();
    SignedFields(FromLittleEndian(b[..8]), b[8..40], AsInt64(FromLittleEndian(b[40..])))
  }

  lemma EncodingParts(r: Record)
    ensures Encoding(r)[..8] == LittleEndian(r.version, 8)
    ensures Encoding(r)[8..40] == r.stateRoot
    ensures Encoding(r)[40..] == LittleEndian(AsUint64(r.timestamp.unix), 8)
  {
  }

  lemma Pow256Of8()
    ensures Pow256(8) == TWO_64
  {
    assert Pow256(4) == 0x1_0000_0000;
  }

  /** The encoding loses nothing it covers. */
  lemma EncodingRoundTrip(r: Record)
    ensures Decode(Encoding(r)) == SignedFields(r.version, r.stateRoot, r.timestamp.unix)
  {
    EncodingParts(r);
    Pow256Of8();
    LittleEndianRoundTrip(r.version, 8);
    LittleEndianRoundTrip(AsUint64(r.timestamp.unix), 8);
  }

  /** Two records have one encoding exactly when version, root and seconds agree:
      fractions of a second and the signature list are not covered. */
  lemma EncodingInjective(a: Record, b: Record)
    ensures Encoding(a) == Encoding(b) <==>
            a.version == b.version && a.stateRoot == b.stateRoot && a.timestamp.unix == b.timestamp.unix
  {
    EncodingRoundTrip(a);
    EncodingRoundTrip(b);
  }

  /** The bytes of the encoding, one by one. */
  lemma EncodingBytes(r: Record)
    ensures forall i :: 0 <= i < 8 ==> Encoding(r)[i] == (r.version / Pow256(i)) % 256
    ensures forall i :: 0 <= i < 32 ==> Encoding(r)[8 + i] == r.stateRoot[i]
    ensures forall i :: 0 <= i < 8 ==>
              Encoding(r)[40 + i] == ((r.timestamp.unix % TWO_64) / Pow256(i)) % 256
  {
    var root: Bytes := r.stateRoot;
    var seconds := AsUint64(r.timestamp.unix);
    EncodingParts(r);
    assert seconds == r.timestamp.unix % TWO_64;
    forall i | 0 <= i < 8
      ensures Encoding(r)[i] == (r.version / Pow256(i)) % 256
      ensures Encoding(r)[40 + i] == (seconds / Pow256(i)) % 256
    {
      LittleEndianByte(r.version, 8, i);
      LittleEndianByte(seconds, 8, i);
      assert Encoding(r)[i] == Encoding(r)[..8][i];
      assert Encoding(r)[40 + i] == Encoding(r)[40..][i];
    }
    forall i | 0 <= i < 32 ensures Encoding(r)[8 + i] == root[i] {
      assert Encoding(r)[8 + i] == Encoding(r)[8..40][i];
    }
  }

  // ---- What the record hash commits to ----

  ghost predicate SameSignedFields(a: Record, b: Record) {
    a.version == b.version && a.stateRoot == b.stateRoot && a.timestamp.unix == b.timestamp.unix
  }

  /** Two records have one hash exactly when version, root and seconds agree, or the two
      48-byte strings collide. */
  lemma RecordHashBinds(h: Sha, a: Record, b: Record)
    ensures RecordHash(h, a) == RecordHash(h, b) <==>
            SameSignedFields(a, b) || Collide(h, Encoding(a), Encoding(b))
  {
    EncodingInjective(a, b);
  }

  lemma {:induction false} LittleEndianOf(b: Bytes)
    ensures LittleEndian(FromLittleEndian(b), |b|) == b
  {
    if b == [] {
    } else {
      LittleEndianOf(b[1..]);
      assert b == [b[0]] + b[1..];
    }
  }

  /** Every 48-byte string that reads as the record's fields is its encoding, so the hash is
      that of any such string. */
  lemma RecordHashOf(h: Sha, r: Record, b: Bytes)
    requires |b| == 48 && Decode(b) == SignedFields(r.version, r.stateRoot, r.timestamp.unix)
    ensures RecordHash(h, r) == h(b)
  {
    Pow256Of8();
    LittleEndianOf(b[..8]);
    LittleEndianOf(b[40..]);
    assert AsUint64(AsInt64(FromLittleEndian(b[40..]))) == FromLittleEndian(b[40..]);
    assert b == b[..8] + b[8..40] + b[40..];
  }

  /** Hash fills a 48-byte buffer with two byte loops around a copy. */
  method FillBuffer(r: Record) returns (data: array<Byte>)
    ensures fresh(data) && data[..] == Encoding(r)
  {
    data := new Byte[48](_ => 0);
    var i := 0;
    while i < 8
      invariant 0 <= i <= 8
      invariant forall j :: 0 <= j < i ==> data[j] == LittleEndian(r.version, 8)[j]
    {
      LittleEndianByte(r.version, 8, i);
      data[i] := (r.version / Pow256(i)) % 256;
      i := i + 1;
    }
    i := 0;
    while i < 32
      invariant 0 <= i <= 32
      invariant forall j :: 0 <= j < 8 ==> data[j] == LittleEndian(r.version, 8)[j]
      invariant forall j :: 0 <= j < i ==> data[8 + j] == r.stateRoot[j]
    {
      data[8 + i] := r.stateRoot[i];
      i := i + 1;
    }
    var ts := AsUint64(r.timestamp.unix);
    i := 0;
    while i < 8
      invariant 0 <= i <= 8
      invariant forall j :: 0 <= j < 8 ==> data[j] == LittleEndian(r.version, 8)[j]
      invariant forall j :: 0 <= j < 32 ==> data[8 + j] == r.stateRoot[j]
      invariant forall j :: 0 <= j < i ==> data[40 + j] == LittleEndian(ts, 8)[j]
    {
      LittleEndianByte(ts, 8, i);
      data[40 + i] := (ts / Pow256(i)) % 256;
      i := i + 1;
    }
    ghost var root: Bytes := r.stateRoot;
    assert data[..] == data[..8] + data[8..40] + data[40..];
    assert data[..8] == LittleEndian(r.version, 8);
    assert data[8..40] == root;
    assert data[40..] == LittleEndian(ts, 8);
  }

  method Hash(h: Sha, r: Record) returns (d: Digest)
    ensures d == RecordHash(h, r)
  {
    var data := FillBuffer(r);
    d := h(data[..]);
  }
}
