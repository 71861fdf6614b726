/** The collision-detection key of (payload hash, signer set), and what it identifies. */
module PayloadKeys {
  import opened Basics
  import opened Strings

  function HexDigit(n: int): (c: Byte)
    requires 0 <= n < 16
  {
    if n < 10 then 48 + n else 87 + n
  }

  function HexEncode(b: Bytes): (r: Bytes)
    ensures |r| == 2 * |b|
  {
    if b == [] then [] else [HexDigit(b[0] / 16), HexDigit(b[0] % 16)] + HexEncode(b[1..])
  }

  lemma {:induction false} HexInjective(a: Bytes, b: Bytes)
    requires HexEncode(a) == HexEncode(b)
    ensures a == b
  {
    assert |a| == |b|;
    if a == [] {
    } else {
      assert HexEncode(a)[0] == HexEncode(b)[0] && HexEncode(a)[1] == HexEncode(b)[1];
      assert HexEncode(a)[2..] == HexEncode(a[1..]) && HexEncode(b)[2..] == HexEncode(b[1..]);
      HexInjective(a[1..], b[1..]);
      assert a == [a[0]] + a[1..] && b == [b[0]] + b[1..];
    }
  }

  /** The IDs written one after another, without separators. */
  function Flatten(ids: seq<Bytes>): Bytes {
    if ids == [] then [] else ids[0] + Flatten(ids[1..])
  }

  /** The bytes written to the hash: payload hash, then the sorted IDs. */
  function KeyInput(payloadHash: Digest, ids: seq<Bytes>): Bytes {
    var payload: Bytes := payloadHash;
    payload + Flatten(Sort(ids))
  }

  function PayloadKey(h: Sha, payloadHash: Digest, ids: seq<Bytes>): Bytes {
    HexEncode(h(KeyInput(payloadHash, ids)))
  }

  /** The loops of computePayloadKey; `ids` are the participants' IDs in session order. */
  method ComputePayloadKey(h: Sha, payloadHash: Digest, ids: seq<Bytes>) returns (key: Bytes)
    ensures key == PayloadKey(h, payloadHash, ids)
  {
    var sorted := Sort(ids);
    var written: Bytes := payloadHash;
    var i := 0;
    while i < |sorted|
      invariant 0 <= i <= |sorted|
      invariant written + Flatten(sorted[i..]) == KeyInput(payloadHash, ids)
    {
      assert sorted[i..][1..] == sorted[i + 1..];
      assert written + (sorted[i] + Flatten(sorted[i + 1..])) == (written + sorted[i]) + Flatten(sorted[i + 1..]);
      written := written + sorted[i];
      i := i + 1;
    }
    assert written + Flatten(sorted[i..]) == written;
    key := HexEncode(h(written));
  }

  /** The order in which participants were selected does not matter. */
  lemma KeyIgnoresOrder(h: Sha, payloadHash: Digest, a: seq<Bytes>, b: seq<Bytes>)
    requires multiset(a) == multiset(b)
    ensures PayloadKey(h, payloadHash, a) == PayloadKey(h, payloadHash, b)
  {
    SortCanonical(a, b);
  }

  /** Absent a collision between the two strings hashed, keys agree exactly when the payload
      hashes agree and the sorted IDs run together to the same bytes. */
  lemma KeyIdentifies(h: Sha, p: Digest, a: seq<Bytes>, q: Digest, b: seq<Bytes>)
    ensures p == q && Flatten(Sort(a)) == Flatten(Sort(b)) ==> PayloadKey(h, p, a) == PayloadKey(h, q, b)
    ensures PayloadKey(h, p, a) == PayloadKey(h, q, b) ==>
              (p == q && Flatten(Sort(a)) == Flatten(Sort(b))) || Collide(h, KeyInput(p, a), KeyInput(q, b))
  {
    if PayloadKey(h, p, a) == PayloadKey(h, q, b) {
      HexInjective(h(KeyInput(p, a)), h(KeyInput(q, b)));
      if KeyInput(p, a) == KeyInput(q, b) {
        assert p == KeyInput(p, a)[..32] == KeyInput(q, b)[..32] == q;
        assert Flatten(Sort(a)) == KeyInput(p, a)[32..] == KeyInput(q, b)[32..] == Flatten(Sort(b));
      }
    }
  }

  ghost predicate AllOfLength(ids: seq<Bytes>, n: nat) {
    forall id :: id in ids ==> |id| == n
  }

  /** No ID is a proper prefix of another. */
  ghost predicate PrefixFree(ids: set<Bytes>) {
    forall x, y :: x in ids && y in ids && x <= y ==> x == y
  }

  lemma FlattenEmpty(a: seq<Bytes>)
    requires [] !in a
    ensures Flatten(a) == [] <==> a == []
  {
    if a != [] {
      assert a[0] in a;
    }
  }

  /** Lists of non-empty IDs, none a proper prefix of another, can be read back. */
  lemma {:induction false} FlattenPrefixFree(a: seq<Bytes>, b: seq<Bytes>, ids: set<Bytes>)
    requires PrefixFree(ids) && [] !in ids && Elements(a) <= ids && Elements(b) <= ids
    requires Flatten(a) == Flatten(b)
    ensures a == b
  {
    FlattenEmpty(a);
    FlattenEmpty(b);
    if a == [] {
    } else {
      var x, y := a[0], b[0];
      assert x in Elements(a) && y in Elements(b);
      assert x == Flatten(a)[..|x|] && y == Flatten(b)[..|y|];
      assert x <= y || y <= x;
      assert Flatten(a[1..]) == Flatten(a)[|x|..] && Flatten(b[1..]) == Flatten(b)[|y|..];
      FlattenPrefixFree(a[1..], b[1..], ids);
      assert a == [x] + a[1..] && b == [y] + b[1..];
    }
  }

  lemma FlattenFixedWidth(a: seq<Bytes>, b: seq<Bytes>, n: nat)
    requires n > 0 && AllOfLength(a, n) && AllOfLength(b, n)
    requires Flatten(a) == Flatten(b)
    ensures a == b
  {
    FlattenPrefixFree(a, b, Elements(a) + Elements(b));
  }

  /** For signer IDs of one non-zero length, equal keys mean equal payload hash and equal
      signers with their multiplicities, or a collision between the two strings hashed. */
  lemma FixedWidthKeyIdentifies(h: Sha, p: Digest, a: seq<Bytes>, q: Digest, b: seq<Bytes>, n: nat)
    requires n > 0 && AllOfLength(a, n) && AllOfLength(b, n)
    ensures p == q && multiset(a) == multiset(b) ==> PayloadKey(h, p, a) == PayloadKey(h, q, b)
    ensures PayloadKey(h, p, a) == PayloadKey(h, q, b) ==>
              (p == q && multiset(a) == multiset(b)) || Collide(h, KeyInput(p, a), KeyInput(q, b))
  {
    if multiset(a) == multiset(b) {
      SortCanonical(a, b);
    }
    KeyIdentifies(h, p, a, q, b);
    forall id | id in Sort(a) ensures |id| == n { SameElements(Sort(a), a, id); }
    forall id | id in Sort(b) ensures |id| == n { SameElements(Sort(b), b, id); }
    if Flatten(Sort(a)) == Flatten(Sort(b)) {
      FlattenFixedWidth(Sort(a), Sort(b), n);
    }
  }

  lemma FlattenPair(x: Bytes, y: Bytes)
    requires Le(x, y)
    ensures Flatten(Sort([x, y])) == x + y
  {
    assert [x, y][1..] == [y] && [y][1..] == [];
    assert Sort([y]) == Insert(y, Sort([])) == [y];
    assert Sort([x, y]) == Insert(x, [y]) == [x, y];
    assert Flatten([y]) == y + Flatten([]) == y;
  }

  /** IDs of different lengths can be confused: whenever two ordered pairs of IDs run together
      to the same bytes they share a key under every hash, though the signers differ. */
  lemma SeparatorlessKeysClash(h: Sha, p: Digest, x: Bytes, y: Bytes, u: Bytes, v: Bytes)
    requires Le(x, y) && Le(u, v) && x + y == u + v && |x| != |u| && |x| != |v|
    ensures multiset([x, y]) != multiset([u, v]) && PayloadKey(h, p, [x, y]) == PayloadKey(h, p, [u, v])
  {
    FlattenPair(x, y);
    FlattenPair(u, v);
    KeyIdentifies(h, p, [x, y], p, [u, v]);
    assert x in [x, y] && x !in [u, v];
    if multiset([x, y]) == multiset([u, v]) {
      SameElements([x, y], [u, v], x);
    }
  }

  // ---- Which sets of IDs can be told apart ----

  /** A list of at least t of these IDs, repetitions allowed: what a request may name. */
  ghost predicate Over(a: seq<Bytes>, ids: set<Bytes>, t: int) {
    |a| >= t && Elements(a) <= ids
  }

  /** Two such lists name different signers and yet run together to the same bytes. */
  ghost predicate Clash(a: seq<Bytes>, b: seq<Bytes>, ids: set<Bytes>, t: int) {
    Over(a, ids, t) && Over(b, ids, t) && multiset(a) != multiset(b) && Flatten(Sort(a)) == Flatten(Sort(b))
  }

  ghost predicate Separable(ids: set<Bytes>, t: int) {
    forall a, b :: !Clash(a, b, ids, t)
  }

  /** Sufficient, and easily looked up: IDs of which none is empty or a prefix of another. */
  lemma PrefixFreeSeparable(ids: set<Bytes>, t: int)
    requires PrefixFree(ids) && [] !in ids
    ensures Separable(ids, t)
  {
    forall a, b | Over(a, ids, t) && Over(b, ids, t) && Flatten(Sort(a)) == Flatten(Sort(b))
      ensures multiset(a) == multiset(b)
    {
      forall x ensures (x in Sort(a) <==> x in a) && (x in Sort(b) <==> x in b) {
        SameElements(Sort(a), a, x);
        SameElements(Sort(b), b, x);
      }
      FlattenPrefixFree(Sort(a), Sort(b), ids);
    }
  }

  lemma ConsSorted(z: Bytes, s: seq<Bytes>)
    requires Sort(s) == s && (s == [] || Le(z, s[0]))
    ensures Sort([z] + s) == [z] + s
  {
    assert ([z] + s)[1..] == s;
  }

  lemma ConsAlike(z: Bytes, a: seq<Bytes>, b: seq<Bytes>)
    requires Flatten(a) == Flatten(b) && multiset(a) != multiset(b)
    ensures Flatten([z] + a) == Flatten([z] + b) && multiset([z] + a) != multiset([z] + b)
  {
    assert ([z] + a)[1..] == a && ([z] + b)[1..] == b;
    assert multiset([z] + a) - multiset{z} == multiset(a);
    assert multiset([z] + b) - multiset{z} == multiset(b);
  }

  /** Two sorted lists of different signers that run together to the same bytes, not before z. */
  ghost predicate AlikeFrom(z: Bytes, a: seq<Bytes>, b: seq<Bytes>) {
    && a != [] && b != [] && Le(z, a[0]) && Le(z, b[0])
    && Sort(a) == a && Sort(b) == b
    && Flatten(a) == Flatten(b) && multiset(a) != multiset(b)
  }

  lemma AlikeCons(z: Bytes, a: seq<Bytes>, b: seq<Bytes>)
    requires AlikeFrom(z, a, b)
    ensures AlikeFrom(z, [z] + a, [z] + b)
  {
    LeReflexive(z);
    ConsSorted(z, a);
    ConsSorted(z, b);
    ConsAlike(z, a, b);
  }

  /** k copies of z in front of both. */
  lemma {:induction false} PadBoth(z: Bytes, k: nat, a: seq<Bytes>, b: seq<Bytes>)
      returns (a': seq<Bytes>, b': seq<Bytes>)
    requires AlikeFrom(z, a, b)
    ensures AlikeFrom(z, a', b') && |a'| >= k && |b'| >= k
    ensures Elements(a') <= Elements(a) + {z} && Elements(b') <= Elements(b) + {z}
  {
    if k == 0 {
      a', b' := a, b;
    } else {
      var c, d := PadBoth(z, k - 1, a, b);
      AlikeCons(z, c, d);
      a', b' := [z] + c, [z] + d;
    }
  }

  lemma PairFacts(x: Bytes, y: Bytes)
    requires Le(x, y)
    ensures Sort([x, y]) == [x, y] && Flatten([x, y]) == x + y
  {
    FlattenPair(x, y);
    ConsSorted(y, []);
    ConsSorted(x, [y]);
    assert [y] + [] == [y] && [x] + [y] == [x, y];
  }

  /** Two ordered pairs that run together to the same bytes clash at every threshold: copies of
      the least ID make the lists as long as is asked for. */
  lemma PairsClash(x: Bytes, y: Bytes, u: Bytes, v: Bytes, t: int)
    requires Le(x, y) && Le(u, v) && x + y == u + v && |x| != |u| && |x| != |v|
    ensures !Separable({x, y, u, v}, t)
  {
    LeTotal(x, u);
    LeReflexive(x);
    LeReflexive(u);
    PairFacts(x, y);
    PairFacts(u, v);
    assert x in multiset([x, y]) && x !in multiset([u, v]);
    var a, b := PadBoth(if Le(x, u) then x else u, if t > 0 then t else 0, [x, y], [u, v]);
    assert Clash(a, b, {x, y, u, v}, t);
  }

  lemma {:induction false} MoreIdsMoreClashes(few: set<Bytes>, many: set<Bytes>, t: int)
    requires few <= many && Separable(many, t)
    ensures Separable(few, t)
  {
    forall a, b ensures !Clash(a, b, few, t) {
      assert !Clash(a, b, many, t);
    }
  }

  /** The IDs "a", "bcd", "ab" and "cd" are not separable at any threshold. */
  lemma UnseparableExample(t: int)
    ensures !Separable({[97], [98, 99, 100], [97, 98], [99, 100]}, t)
  {
    PairsClash([97], [98, 99, 100], [97, 98], [99, 100], t);
  }

  // ---- The key is hexadecimal text ----

  /** The value of a digit "0" to "9" or "a" to "f", if the byte is one. */
  function DigitValue(c: Byte): (v: Option<int>)
    ensures v.Some? ==> 0 <= v.value < 16
  {
    if 48 <= c <= 57 then Some(c - 48) else if 97 <= c <= 102 then Some(c - 87) else None
  }

  function HexDecode(s: Bytes): Option<Bytes>
    decreases |s|
  {
    if s == [] then Some([])
    else if |s| == 1 then None
    else
      var hi, lo, rest := DigitValue(s[0]), DigitValue(s[1]), HexDecode(s[2..]);
      if hi.Some? && lo.Some? && rest.Some? then Some([16 * hi.value + lo.value] + rest.value) else None
  }

  lemma {:induction false} HexRoundTrip(b: Bytes)
    ensures HexDecode(HexEncode(b)) == Some(b)
  {
    if b == [] {
    } else {
      HexRoundTrip(b[1..]);
      assert HexEncode(b)[2..] == HexEncode(b[1..]);
      assert b == [b[0]] + b[1..];
    }
  }

  /** The key is 64 lower-case digits, and reads as the hash of payload hash and sorted IDs. */
  lemma KeyReadsAsHash(h: Sha, payloadHash: Digest, ids: seq<Bytes>)
    ensures |PayloadKey(h, payloadHash, ids)| == 64
    ensures HexDecode(PayloadKey(h, payloadHash, ids)) == Some(h(KeyInput(payloadHash, ids)))
  {
    HexRoundTrip(h(KeyInput(payloadHash, ids)));
  }
}
