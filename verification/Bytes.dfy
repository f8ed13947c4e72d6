/** Bytes and the little-endian 32-bit fields used by the gzip footer. */
module Bytes {
  import opened Numbers

  /** An unsigned 8-bit value. */
  type byte = x: int | 0 <= x < 256

  /** The four bytes that the footer writer emits for a value, least significant first;
      bits above the 32nd are dropped. */
  function Le32(v: nat): (s: seq<byte>)
    ensures |s| == 4
  {
    [v % 256, v / 0x100 % 256, v / 0x1_0000 % 256, v / 0x100_0000 % 256]
  }

  /** The value that four little-endian bytes denote. */
  function FromLe32(s: seq<byte>): (v: nat)
    requires |s| == 4
    ensures v < TWO_TO_32
  {
    s[0] as int + 0x100 * (s[1] as int) + 0x1_0000 * (s[2] as int) + 0x100_0000 * (s[3] as int)
  }

  /** Writing and reading a 32-bit field gives the value back, modulo 2^32. */
  lemma FromLe32Le32(v: nat)
    ensures FromLe32(Le32(v)) == v % TWO_TO_32
  {
    var q1, q2, q3 := v / 0x100, v / 0x1_0000, v / 0x100_0000;
    assert q2 == q1 / 0x100 && q3 == q2 / 0x100;
    var q4 := v / TWO_TO_32;
    assert q4 == q3 / 0x100;
  }

  lemma SameDigits(a: byte, b: byte, x: int, y: int)
    requires a as int + 0x100 * x == b as int + 0x100 * y
    ensures a == b && x == y
  {
  }

  /** Equal values have equal footer bytes and conversely: the field is injective. */
  lemma FromLe32Injective(s: seq<byte>, t: seq<byte>)
    requires |s| == 4 && |t| == 4 && FromLe32(s) == FromLe32(t)
    ensures s == t
  {
    SameDigits(s[0], t[0], s[1] as int + 0x100 * (s[2] as int + 0x100 * s[3] as int),
               t[1] as int + 0x100 * (t[2] as int + 0x100 * t[3] as int));
    SameDigits(s[1], t[1], s[2] as int + 0x100 * s[3] as int, t[2] as int + 0x100 * t[3] as int);
    SameDigits(s[2], t[2], s[3] as int, t[3] as int);
  }

  /** Comparing four bytes with a written field is comparing the values. */
  lemma Le32Iff(s: seq<byte>, v: nat)
    requires |s| == 4
    ensures s == Le32(v) <==> FromLe32(s) == v % TWO_TO_32
  {
    FromLe32Le32(v);
    if FromLe32(s) == v % TWO_TO_32 {
      FromLe32Injective(s, Le32(v));
    }
  }

  /** The concatenation of a list of chunks. */
  function Flatten(chunks: seq<seq<byte>>): (s: seq<byte>)
  {
    if chunks == [] then [] else chunks[0] + Flatten(chunks[1..])
  }

  lemma {:induction false} FlattenLast(chunks: seq<seq<byte>>)
    requires chunks != []
    ensures Flatten(chunks) == Flatten(chunks[..|chunks| - 1]) + chunks[|chunks| - 1]
  {
    if |chunks| > 1 {
      FlattenLast(chunks[1..]);
      assert chunks[1..][..|chunks| - 2] == chunks[..|chunks| - 1][1..];
    }
  }

  /** Taking `begun` and the first `n` bytes of a chunk first, then the rest up to the last `leftover`. */
  lemma SplitChunk(begun: seq<byte>, chunk: seq<byte>, n: nat, leftover: nat)
    requires n + leftover <= |chunk|
    ensures (begun + chunk[..n]) + chunk[n..][..|chunk| - n - leftover] == begun + chunk[..|chunk| - leftover]
    ensures (begun + chunk[..n]) + chunk[n..] == begun + chunk
  {
    assert chunk[..n] + chunk[n..] == chunk;
    assert chunk[..n] + chunk[n..][..|chunk| - n - leftover] == chunk[..|chunk| - leftover];
  }
}
