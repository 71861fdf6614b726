/** The Merkle root of policy/state.go, its RFC 6962 shape, and what it binds. */
module Merkle {
  import opened Basics

  /** The 64 bytes an inner node hashes. */
  function Join(left: Digest, right: Digest): (r: Bytes)
    ensures |r| == 64 && r[..32] == left && r[32..] == right
  {
    var bytes: Bytes := left;
    bytes + right
  }

  lemma JoinInjective(a: Digest, b: Digest, c: Digest, d: Digest)
    requires Join(a, b) == Join(c, d)
    ensures a == c && b == d
  {
    assert a == Join(a, b)[..32] == c;
    assert b == Join(a, b)[32..] == d;
  }

  /** One level of the bottom-up loop: adjacent pairs are hashed, an odd last node is carried. */
  function PairUp(h: Sha, nodes: seq<Digest>): (r: seq<Digest>)
    ensures |r| == (|nodes| + 1) / 2
  {
    if |nodes| <= 1 then nodes
    else [h(Join(nodes[0], nodes[1]))] + PairUp(h, nodes[2..])
  }

  predicate PowerOfTwo(k: nat) {
    k == 1 || (k > 1 && k % 2 == 0 && PowerOfTwo(k / 2))
  }

  /** The largest power of two smaller than n. */
  function SplitPoint(n: nat): (k: nat)
    requires n >= 2
    ensures PowerOfTwo(k) && k < n <= 2 * k
  {
    if n == 2 then 1 else 2 * SplitPoint((n + 1) / 2)
  }

  /** The recursive tree of section 2.1 of RFC 6962, without its domain-separation prefixes. */
  function TreeHash(h: Sha, nodes: seq<Digest>): Digest {
    if |nodes| == 0 then h([])
    else if |nodes| == 1 then nodes[0]
    else
      var k := SplitPoint(|nodes|);
      h(Join(TreeHash(h, nodes[..k]), TreeHash(h, nodes[k..])))
  }

  lemma {:induction false} PairUpSplits(h: Sha, nodes: seq<Digest>, k: nat)
    requires k <= |nodes| && k % 2 == 0
    ensures PairUp(h, nodes) == PairUp(h, nodes[..k]) + PairUp(h, nodes[k..])
  {
    if k == 0 {
      assert nodes[k..] == nodes;
    } else {
      var front, head := nodes[..k], [h(Join(nodes[0], nodes[1]))];
      assert front[2..] == nodes[2..][..k - 2];
      assert nodes[2..][k - 2..] == nodes[k..];
      PairUpSplits(h, nodes[2..], k - 2);
      calc {
        PairUp(h, nodes);
      ==
        head + PairUp(h, nodes[2..]);
      ==
        head + (PairUp(h, front[2..]) + PairUp(h, nodes[k..]));
      ==
        (head + PairUp(h, front[2..])) + PairUp(h, nodes[k..]);
      ==  { assert front[0] == nodes[0] && front[1] == nodes[1]; }
        PairUp(h, front) + PairUp(h, nodes[k..]);
      }
    }
  }

  /** Hashing one level of pairs leaves the recursive tree's root as it was. */
  lemma {:induction false} PairUpKeepsRoot(h: Sha, nodes: seq<Digest>)
    requires |nodes| >= 1
    ensures TreeHash(h, PairUp(h, nodes)) == TreeHash(h, nodes)
    decreases |nodes|
  {
    if |nodes| == 1 {
    } else if |nodes| == 2 {
      assert nodes[..1] == [nodes[0]] && nodes[1..] == [nodes[1]];
      assert PairUp(h, nodes) == [h(Join(nodes[0], nodes[1]))];
    } else {
      var k := SplitPoint(|nodes|);
      var up := PairUp(h, nodes);
      PairUpSplits(h, nodes, k);
      assert SplitPoint(|up|) == k / 2;
      assert up[..k / 2] == PairUp(h, nodes[..k]);
      assert up[k / 2..] == PairUp(h, nodes[k..]);
      PairUpKeepsRoot(h, nodes[..k]);
      PairUpKeepsRoot(h, nodes[k..]);
    }
  }

  /** The inner loop of computeMerkleRoot: one level of pairs. */
  method HashPairs(h: Sha, leaves: seq<Digest>) returns (next: seq<Digest>)
    ensures next == PairUp(h, leaves)
  {
    next := [];
    var i := 0;
    while i < |leaves|
      invariant 0 <= i <= |leaves| + 1
      invariant i <= |leaves| ==> next + PairUp(h, leaves[i..]) == PairUp(h, leaves)
      invariant i > |leaves| ==> next == PairUp(h, leaves)
    {
      if i + 1 < |leaves| {
        assert leaves[i..][2..] == leaves[i + 2..];
        next := next + [h(Join(leaves[i], leaves[i + 1]))];
      } else {
        assert leaves[i..] == [leaves[i]];
        next := next + [leaves[i]];
      }
      i := i + 2;
    }
  }

  /** The outer loop of computeMerkleRoot. */
  method ComputeMerkleRoot(h: Sha, input: seq<Digest>) returns (root: Digest)
    ensures root == TreeHash(h, input)
    ensures |input| == 0 ==> root == h([])
    ensures |input| == 1 ==> root == input[0]
  {
    if |input| == 0 {
      return h([]);
    }
    var leaves := input;
    while |leaves| > 1
      invariant |leaves| >= 1
      invariant TreeHash(h, leaves) == TreeHash(h, input)
      decreases |leaves|
    {
      PairUpKeepsRoot(h, leaves);
      leaves := HashPairs(h, leaves);
    }
    root := leaves[0];
  }

  // ---- What the root commits to ----

  function LeafHashes(h: Sha, inputs: seq<Bytes>): (r: seq<Digest>)
    ensures |r| == |inputs|
    ensures forall i :: 0 <= i < |inputs| ==> r[i] == h(inputs[i])
  {
    seq(|inputs|, i requires 0 <= i < |inputs| => h(inputs[i]))
  }

  function RootOf(h: Sha, inputs: seq<Bytes>): Digest {
    TreeHash(h, LeafHashes(h, inputs))
  }

  lemma LeafHashesSlice(h: Sha, inputs: seq<Bytes>, k: nat)
    requires k <= |inputs|
    ensures LeafHashes(h, inputs)[..k] == LeafHashes(h, inputs[..k])
    ensures LeafHashes(h, inputs)[k..] == LeafHashes(h, inputs[k..])
  {
  }

  /** The input of the outermost hash. */
  function TopInput(h: Sha, inputs: seq<Bytes>): Bytes
    requires inputs != []
  {
    if |inputs| == 1 then inputs[0]
    else
      var k := SplitPoint(|inputs|);
      Join(RootOf(h, inputs[..k]), RootOf(h, inputs[k..]))
  }

  lemma RootIsTopHash(h: Sha, inputs: seq<Bytes>)
    requires inputs != []
    ensures RootOf(h, inputs) == h(TopInput(h, inputs))
  {
    if |inputs| >= 2 {
      LeafHashesSlice(h, inputs, SplitPoint(|inputs|));
    }
  }

  /** Every byte string hashed on the way to the root. */
  function HashedInputs(h: Sha, inputs: seq<Bytes>): set<Bytes>
    requires inputs != []
  {
    if |inputs| == 1 then {inputs[0]}
    else
      var k := SplitPoint(|inputs|);
      {TopInput(h, inputs)} + HashedInputs(h, inputs[..k]) + HashedInputs(h, inputs[k..])
  }

  /** The subtrees at which two trees with one root and one top input first differ. */
  function Descend(a: seq<Bytes>, b: seq<Bytes>): (r: (seq<Bytes>, seq<Bytes>))
    requires |a| >= 2 && |b| >= 2
    ensures r.0 != [] && r.1 != [] && |r.0| < |a| && |r.1| < |b|
  {
    var k, m := SplitPoint(|a|), SplitPoint(|b|);
    if a[..k] != b[..m] then (a[..k], b[..m]) else (a[k..], b[m..])
  }

  /** Walks two trees down from the root to the first place where they part. */
  function Divergence(h: Sha, a: seq<Bytes>, b: seq<Bytes>): (Bytes, Bytes)
    requires a != [] && b != []
    decreases |a| + |b|
  {
    if TopInput(h, a) != TopInput(h, b) || |a| == 1 || |b| == 1 then
      (TopInput(h, a), TopInput(h, b))
    else
      Divergence(h, Descend(a, b).0, Descend(a, b).1)
  }

  lemma HashedInputsOfParts(h: Sha, a: seq<Bytes>)
    requires a != []
    ensures TopInput(h, a) in HashedInputs(h, a)
    ensures |a| >= 2 ==>
              var k := SplitPoint(|a|);
              HashedInputs(h, a[..k]) <= HashedInputs(h, a) && HashedInputs(h, a[k..]) <= HashedInputs(h, a)
  {
  }

  /** x and y are a collision between strings hashed for the two trees, or the two lists
      differ in length and a 64-byte leaf input x passes for an inner node. */
  ghost predicate Confusion(h: Sha, a: seq<Bytes>, b: seq<Bytes>, x: Bytes, y: Bytes)
    requires a != [] && b != []
  {
    && x in HashedInputs(h, a) && y in HashedInputs(h, b)
    && (Collide(h, x, y) || (|a| != |b| && x == y && |x| == 64 && (x in a || x in b)))
  }

  /** What is hashed for the subtrees descended to is hashed for the whole trees. */
  lemma DescendHashed(h: Sha, a: seq<Bytes>, b: seq<Bytes>)
    requires |a| >= 2 && |b| >= 2
    ensures HashedInputs(h, Descend(a, b).0) <= HashedInputs(h, a)
    ensures HashedInputs(h, Descend(a, b).1) <= HashedInputs(h, b)
    ensures forall x :: x in Descend(a, b).0 ==> x in a
    ensures forall x :: x in Descend(a, b).1 ==> x in b
  {
    HashedInputsOfParts(h, a);
    HashedInputsOfParts(h, b);
  }

  /** A confusion between the subtrees descended to is one between the whole trees. */
  lemma ConfusionLifts(h: Sha, a: seq<Bytes>, b: seq<Bytes>, x: Bytes, y: Bytes)
    requires |a| >= 2 && |b| >= 2
    ensures Confusion(h, Descend(a, b).0, Descend(a, b).1, x, y) ==> Confusion(h, a, b, x, y)
  {
    DescendHashed(h, a, b);
  }

  lemma DescendKeepsRoots(h: Sha, a: seq<Bytes>, b: seq<Bytes>)
    requires |a| >= 2 && |b| >= 2 && a != b && TopInput(h, a) == TopInput(h, b)
    ensures Descend(a, b).0 != Descend(a, b).1
    ensures RootOf(h, Descend(a, b).0) == RootOf(h, Descend(a, b).1)
  {
    var k, m := SplitPoint(|a|), SplitPoint(|b|);
    JoinInjective(RootOf(h, a[..k]), RootOf(h, a[k..]), RootOf(h, b[..m]), RootOf(h, b[m..]));
    assert a == a[..k] + a[k..] && b == b[..m] + b[m..];
  }

  lemma ConfusionAtTop(h: Sha, a: seq<Bytes>, b: seq<Bytes>)
    requires a != [] && b != [] && a != b && RootOf(h, a) == RootOf(h, b)
    requires TopInput(h, a) != TopInput(h, b) || |a| == 1 || |b| == 1
    ensures Confusion(h, a, b, TopInput(h, a), TopInput(h, b))
  {
    RootIsTopHash(h, a);
    RootIsTopHash(h, b);
    HashedInputsOfParts(h, a);
    HashedInputsOfParts(h, b);
    if |a| == 1 && |b| == 1 {
      assert a == [a[0]] && b == [b[0]];
    }
  }

  /** One root for two different leaf lists exposes a collision between strings that were
      really hashed, or a 64-byte leaf input when the lists differ in length. */
  lemma {:induction false} RootBinds(h: Sha, a: seq<Bytes>, b: seq<Bytes>)
    requires a != [] && b != [] && a != b
    requires RootOf(h, a) == RootOf(h, b)
    ensures Confusion(h, a, b, Divergence(h, a, b).0, Divergence(h, a, b).1)
    decreases |a| + |b|
  {
    if TopInput(h, a) != TopInput(h, b) || |a| == 1 || |b| == 1 {
      ConfusionAtTop(h, a, b);
    } else {
      var (a', b') := Descend(a, b);
      DescendKeepsRoots(h, a, b);
      RootBinds(h, a', b');
      ConfusionLifts(h, a, b, Divergence(h, a', b').0, Divergence(h, a', b').1);
    }
  }

  // ---- Lists of different lengths ----

  /** The number of leaves to the left of the root, none for a single leaf. */
  function LeftSize(n: nat): nat {
    if n <= 1 then 0 else SplitPoint(n)
  }

  lemma {:induction false} SplitOfPower(n: nat)
    requires n >= 2 && PowerOfTwo(n)
    ensures SplitPoint(n) == n / 2 && PowerOfTwo(n / 2)
    decreases n
  {
    if n == 2 {
    } else {
      assert (n + 1) / 2 == n / 2;
      SplitOfPower(n / 2);
    }
  }

  /** The collision, at the place where two trees part, of strings hashed for them. */
  ghost predicate GenuineCollision(h: Sha, a: seq<Bytes>, b: seq<Bytes>)
    requires a != [] && b != []
  {
    var (x, y) := Divergence(h, a, b);
    Collide(h, x, y) && x in HashedInputs(h, a) && y in HashedInputs(h, b)
  }

  lemma CollisionAtTop(h: Sha, a: seq<Bytes>, b: seq<Bytes>)
    requires a != [] && b != [] && RootOf(h, a) == RootOf(h, b) && TopInput(h, a) != TopInput(h, b)
    ensures GenuineCollision(h, a, b)
  {
    RootIsTopHash(h, a);
    RootIsTopHash(h, b);
    HashedInputsOfParts(h, a);
    HashedInputsOfParts(h, b);
  }

  lemma CollisionLifts(h: Sha, a: seq<Bytes>, b: seq<Bytes>)
    requires |a| >= 2 && |b| >= 2 && TopInput(h, a) == TopInput(h, b)
    requires GenuineCollision(h, Descend(a, b).0, Descend(a, b).1)
    ensures GenuineCollision(h, a, b)
  {
    DescendHashed(h, a, b);
  }

  /** Full trees of different heights never share a root without a collision, if their first
      leaf inputs are not 64 bytes long. */
  lemma {:induction false} FullTreesBind(h: Sha, a: seq<Bytes>, b: seq<Bytes>)
    requires PowerOfTwo(|a|) && PowerOfTwo(|b|) && |a| != |b|
    requires |a[0]| != 64 && |b[0]| != 64 && RootOf(h, a) == RootOf(h, b)
    ensures GenuineCollision(h, a, b)
    decreases |a|
  {
    if TopInput(h, a) != TopInput(h, b) {
      CollisionAtTop(h, a, b);
    } else {
      var k, m := |a| / 2, |b| / 2;
      SplitOfPower(|a|);
      SplitOfPower(|b|);
      DescendKeepsRoots(h, a, b);
      assert |a[..k]| == k && |b[..m]| == m;
      assert Descend(a, b) == (a[..k], b[..m]);
      FullTreesBind(h, a[..k], b[..m]);
      CollisionLifts(h, a, b);
    }
  }

  /** Lists whose trees split differently at the root share it only by a collision, if their
      first leaf inputs are not 64 bytes long: no leaf can pass for an inner node here. */
  lemma DifferentSplitsBind(h: Sha, a: seq<Bytes>, b: seq<Bytes>)
    requires a != [] && b != [] && LeftSize(|a|) != LeftSize(|b|)
    requires |a[0]| != 64 && |b[0]| != 64 && RootOf(h, a) == RootOf(h, b)
    ensures GenuineCollision(h, a, b)
  {
    if TopInput(h, a) != TopInput(h, b) {
      CollisionAtTop(h, a, b);
    } else {
      var k, m := SplitPoint(|a|), SplitPoint(|b|);
      DescendKeepsRoots(h, a, b);
      assert |a[..k]| == k && |b[..m]| == m;
      assert Descend(a, b) == (a[..k], b[..m]);
      FullTreesBind(h, a[..k], b[..m]);
      CollisionLifts(h, a, b);
    }
  }

  /** The root over two subtrees. */
  lemma RootOfParts(h: Sha, a: seq<Bytes>, left: seq<Bytes>, right: seq<Bytes>)
    requires a == left + right && |a| >= 2 && |left| == SplitPoint(|a|)
    ensures RootOf(h, a) == h(Join(RootOf(h, left), RootOf(h, right)))
  {
    LeafHashesSlice(h, a, |left|);
    assert a[..|left|] == left;
    assert a[|left|..] == right;
  }

  /** Equal left roots and equal right roots make equal roots. */
  lemma JoinedAlike(h: Sha, a: seq<Bytes>, left: seq<Bytes>, right: seq<Bytes>,
                    b: seq<Bytes>, left': seq<Bytes>, right': seq<Bytes>)
    requires a == left + right && |a| >= 2 && |left| == SplitPoint(|a|)
    requires b == left' + right' && |b| >= 2 && |left'| == SplitPoint(|b|)
    requires RootOf(h, left) == RootOf(h, left') && RootOf(h, right) == RootOf(h, right')
    ensures RootOf(h, a) == RootOf(h, b)
  {
    RootOfParts(h, a, left, right);
    RootOfParts(h, b, left', right');
  }

  /** A leaf whose input is the top input of a tree has that tree's root. */
  lemma LeafForTree(h: Sha, b: seq<Bytes>)
    requires b != []
    ensures RootOf(h, [TopInput(h, b)]) == RootOf(h, b)
  {
    RootIsTopHash(h, b);
    RootIsTopHash(h, [TopInput(h, b)]);
  }

  /** So many empty leaf inputs. */
  function Blank(n: nat): (r: seq<Bytes>)
    ensures |r| == n
  {
    seq(n, _ => [])
  }

  /** Two lists of the given lengths with one root, under whatever hash: where the shorter
      list has a leaf, the longer one may have the subtree whose top input that leaf is. */
  lemma {:induction false} TwinLists(h: Sha, n: nat, m: nat) returns (a: seq<Bytes>, b: seq<Bytes>)
    requires n >= 1 && m >= 1
    ensures |a| == n && |b| == m && RootOf(h, a) == RootOf(h, b)
    decreases n + m
  {
    if n == m {
      a, b := Blank(n), Blank(n);
    } else if n == 1 {
      a, b := [TopInput(h, Blank(m))], Blank(m);
      LeafForTree(h, b);
    } else if m == 1 {
      a, b := Blank(n), [TopInput(h, Blank(n))];
      LeafForTree(h, a);
    } else {
      var left, left' := TwinLists(h, SplitPoint(n), SplitPoint(m));
      var right, right' := TwinLists(h, n - SplitPoint(n), m - SplitPoint(m));
      a, b := left + right, left' + right';
      JoinedAlike(h, a, left, right, b, left', right');
    }
  }

  /** Where the trees split alike, the root does not bind the number of leaves: under every
      hash and for every first leaf, some lists of these two lengths share a root. */
  lemma SameSplitUnbound(h: Sha, first: Bytes, n: nat, m: nat) returns (a: seq<Bytes>, b: seq<Bytes>)
    requires n >= 2 && m >= 2 && n != m && LeftSize(n) == LeftSize(m)
    ensures |a| == n && |b| == m && a[0] == b[0] == first
    ensures RootOf(h, a) == RootOf(h, b)
  {
    var left := [first] + Blank(SplitPoint(n) - 1);
    var right, right' := TwinLists(h, n - |left|, m - |left|);
    a, b := left + right, left + right';
    JoinedAlike(h, a, left, right, b, left, right');
  }

  lemma RootOfThree(h: Sha, p: Bytes, a: Bytes, b: Bytes)
    ensures RootOf(h, [p, a, b]) == h(Join(h(Join(h(p), h(a))), h(b)))
  {
    RootOfPair(h, p, a);
    RootOfParts(h, [p, a, b], [p, a], [b]);
  }

  lemma RootOfPair(h: Sha, a: Bytes, b: Bytes)
    ensures RootOf(h, [a, b]) == h(Join(h(a), h(b)))
  {
    RootOfParts(h, [a, b], [a], [b]);
  }

  lemma RootOfFour(h: Sha, p: Bytes, a: Bytes, b: Bytes, d: Bytes)
    ensures RootOf(h, [p, a, b, d]) == h(Join(h(Join(h(p), h(a))), h(Join(h(b), h(d)))))
  {
    RootOfPair(h, p, a);
    RootOfPair(h, b, d);
    RootOfParts(h, [p, a, b, d], [p, a], [b, d]);
  }

  /** Three leaves against four that begin alike: the roots agree exactly if the third leaf
      input is the inner node of the other two, or a collision is exhibited. */
  lemma ThreeAgainstFour(h: Sha, p: Bytes, a: Bytes, x: Bytes, b: Bytes, d: Bytes)
    ensures var node := Join(h(b), h(d));
            && (x == node ==> RootOf(h, [p, a, x]) == RootOf(h, [p, a, b, d]))
            && (RootOf(h, [p, a, x]) == RootOf(h, [p, a, b, d]) ==>
                  x == node || GenuineCollision(h, [p, a, x], [p, a, b, d]))
  {
    RootOfThree(h, p, a, x);
    RootOfFour(h, p, a, b, d);
    if RootOf(h, [p, a, x]) == RootOf(h, [p, a, b, d]) && x != Join(h(b), h(d)) {
      ThreeAgainstFourCollide(h, p, a, x, b, d);
    }
  }

  lemma ThreeAgainstFourCollide(h: Sha, p: Bytes, a: Bytes, x: Bytes, b: Bytes, d: Bytes)
    requires RootOf(h, [p, a, x]) == RootOf(h, [p, a, b, d]) && x != Join(h(b), h(d))
    ensures GenuineCollision(h, [p, a, x], [p, a, b, d])
  {
    var s, t := [p, a, x], [p, a, b, d];
    if TopInput(h, s) != TopInput(h, t) {
      CollisionAtTop(h, s, t);
    } else {
      assert s[..2] == [p, a] == t[..2] && s[2..] == [x] && t[2..] == [b, d];
      DescendKeepsRoots(h, s, t);
      RootOfPair(h, b, d);
      CollisionAtTop(h, [x], [b, d]);
      CollisionLifts(h, s, t);
    }
  }
}
