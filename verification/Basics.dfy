/** Values shared by every part of the coordinator model. */
module Basics {

  type Byte = x: int | 0 <= x < 256

  /** Go strings and byte slices are both byte sequences. */
  type Bytes = seq<Byte>

  /** A [32]byte value. */
  type Digest = d: Bytes | |d| == 32 witness seq(32, _ => 0)

  /** SHA-256 is a parameter: every statement holds for every hash function. */
  type Sha = Bytes -> Digest

  const TWO_32: nat := 0x1_0000_0000
  const TWO_64: nat := 0x1_0000_0000_0000_0000

  type Uint64 = x: int | 0 <= x < TWO_64
  type Int64 = x: int | -0x8000_0000_0000_0000 <= x < 0x8000_0000_0000_0000

  /** Instants and durations are integers counting nanoseconds. */
  const MINUTE: nat := 60_000_000_000

  datatype Option<+T> = None | Some(value: T)

  datatype Result<+T, +E> = Ok(value: T) | Err(error: E)

  /** Two different inputs with one digest. */
  ghost predicate Collide(h: Sha, x: Bytes, y: Bytes) {
    x != y && h(x) == h(y)
  }

  function Elements(s: seq<Bytes>): set<Bytes> {
    set x | x in s
  }

  lemma SubsetSize(a: set<Bytes>, b: set<Bytes>)
    requires a <= b
    ensures |a| <= |b|
  {
    assert b == a + (b - a);
  }

  /** The byte values of an ASCII literal. */
  function Ascii(s: string): (r: Bytes)
    requires forall i :: 0 <= i < |s| ==> s[i] < 128 as char
    ensures |r| == |s|
    ensures forall i :: 0 <= i < |s| ==> r[i] == s[i] as int
  {
    seq(|s|, i requires 0 <= i < |s| => s[i] as int)
  }
}
