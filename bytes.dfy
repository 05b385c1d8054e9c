/** Byte-slice primitives the decoder is built from: reading a file region
    into a zero-filled buffer, the two searches of Go's `bytes` package that
    the decoder calls, and the cut of the version field at its first zero. */
module Bytes {

  /** An unsigned 8-bit value. */
  newtype byte = x: int | 0 <= x < 0x100

  /** `n` zero bytes: the buffer `make([]byte, n)` allocates. */
  function Zeros(n: nat): (z: seq<byte>)
    ensures |z| == n
    ensures forall i :: 0 <= i < n ==> z[i] == 0
  {
    seq(n, _ => 0)
  }

  /** What a zero-filled buffer of `len` bytes holds after reading the file
      `data` at offset `off`: byte `i` is the file's byte at `off + i` when
      the file has one there, and zero otherwise (a short read leaves the
      rest of the buffer as allocated). */
  function ReadAt(data: seq<byte>, off: nat, len: nat): (r: seq<byte>)
    ensures |r| == len
  {
    seq(len, i requires 0 <= i < len => if off + i < |data| then data[off + i] else 0)
  }

  /** The bytes read are those of the file that lie in the range, then zeros
      for the part of the range past the end of the file. */
  lemma ReadAtInRange(data: seq<byte>, off: nat, len: nat)
    ensures var lo := if off < |data| then off else |data|;
      var hi := if off + len < |data| then off + len else |data|;
      ReadAt(data, off, len) == data[lo..hi] + Zeros(len - (hi - lo))
  {
    var lo := if off < |data| then off else |data|;
    var hi := if off + len < |data| then off + len else |data|;
    var r := data[lo..hi] + Zeros(len - (hi - lo));
    forall i | 0 <= i < len
      ensures ReadAt(data, off, len)[i] == r[i]
    {
      if i < hi - lo {
        assert r[i] == data[lo + i];
      } else {
        assert r[i] == Zeros(len - (hi - lo))[i - (hi - lo)];
      }
    }
  }

  /** Reading a range that lies inside `b` of a file `a + b + c` yields
      that slice of `b`. */
  lemma ReadAtMiddle(a: seq<byte>, b: seq<byte>, c: seq<byte>, k: nat, len: nat)
    requires k + len <= |b|
    ensures ReadAt(a + b + c, |a| + k, len) == b[k..k + len]
  {
    var d := a + b + c;
    var r := ReadAt(d, |a| + k, len);
    forall i | 0 <= i < len
      ensures r[i] == b[k + i]
    {
      assert d[|a| + k + i] == b[k + i];
    }
  }

  /** Reading at `o + off` is reading at `off` in what follows `o`, with
      the same zeros past the end. */
  lemma ReadAtFrom(data: seq<byte>, o: nat, off: nat, len: nat)
    requires o <= |data|
    ensures ReadAt(data, o + off, len) == ReadAt(data[o..], off, len)
  {
    var rest := data[o..];
    forall i | 0 <= i < len
      ensures ReadAt(data, o + off, len)[i] == ReadAt(rest, off, len)[i]
    {
      if off + i < |rest| {
        assert rest[off + i] == data[o + off + i];
      }
    }
  }

  /** What follows the first `|b|` bytes of a file that reads `b + c` from
      `o` on is `c`. */
  lemma SliceAfter(data: seq<byte>, o: nat, b: seq<byte>, c: seq<byte>)
    requires o <= |data| && data[o..] == b + c
    ensures o + |b| <= |data| && data[o + |b|..] == c
  {
    assert data[o + |b|..] == data[o..][|b|..];
  }

  /** Reads `length` bytes at `ofst` into a fresh zero-filled buffer and
      moves the cursor `length` bytes forward, whether or not the file had
      that many bytes left. */
  method ReadAndSeek(data: seq<byte>, length: nat, ofst: nat) returns (off: nat, buffer: seq<byte>)
    ensures off == ofst + length
    ensures buffer == ReadAt(data, ofst, length)
  {
    var b := new byte[length](_ => 0);
    var i := 0;
    while i < length && ofst + i < |data|
      invariant 0 <= i <= length
      invariant forall k :: 0 <= k < i ==> ofst + k < |data| && b[k] == data[ofst + k]
      invariant forall k :: i <= k < length ==> b[k] == 0
    {
      b[i] := data[ofst + i];
      i := i + 1;
    }
    buffer := b[..];
    off := ofst + length;
  }

  /** Index of the first `x` in `b`, or -1 when there is none. */
  function IndexByte(b: seq<byte>, x: byte): (i: int)
    ensures -1 <= i < |b|
    ensures i == -1 <==> x !in b
    ensures 0 <= i ==> b[i] == x && x !in b[..i]
  {
    if |b| == 0 then -1
    else if b[0] == x then 0
    else
      var j := IndexByte(b[1..], x);
      assert b == [b[0]] + b[1..];
      if j == -1 then -1
      else
        assert b[..j + 1] == [b[0]] + b[1..][..j];
        j + 1
  }

  /** Whether `needle` occurs in `hay` starting at index `k`. */
  predicate OccursAt(hay: seq<byte>, needle: seq<byte>, k: int)
  {
    0 <= k && k + |needle| <= |hay| && hay[k..k + |needle|] == needle
  }

  /** Index of the first occurrence of `needle` in `hay` at or after `start`,
      or -1 when there is none. */
  function IndexFrom(hay: seq<byte>, needle: seq<byte>, start: nat): (i: int)
    ensures i == -1 || start <= i
    ensures i == -1 <==> forall k :: start <= k ==> !OccursAt(hay, needle, k)
    ensures start <= i ==> OccursAt(hay, needle, i)
    ensures start <= i ==> forall k :: start <= k < i ==> !OccursAt(hay, needle, k)
    decreases |hay| - start
  {
    if start + |needle| > |hay| then -1
    else if hay[start..start + |needle|] == needle then
      assert OccursAt(hay, needle, start);
      start
    else IndexFrom(hay, needle, start + 1)
  }

  /** Index of the first occurrence of `needle` in `hay`, or -1 when
      `needle` does not occur in `hay` at all. */
  function Index(hay: seq<byte>, needle: seq<byte>): (i: int)
    ensures -1 <= i
    ensures i == -1 <==> forall k :: !OccursAt(hay, needle, k)
    ensures 0 <= i ==> OccursAt(hay, needle, i) && forall k :: 0 <= k < i ==> !OccursAt(hay, needle, k)
  {
    IndexFrom(hay, needle, 0)
  }

  /** The bytes of `b` before its first zero byte; all of `b` when it has
      none. */
  function Trim(b: seq<byte>): (r: seq<byte>)
    ensures |r| <= |b| && r == b[..|r|]
    ensures 0 !in r
    ensures |r| < |b| ==> b[|r|] == 0
  {
    var i := IndexByte(b, 0);
    if i != -1 then b[..i] else b
  }

  /** A field holding `a` padded with zero bytes trims back to `a`, as long
      as `a` itself has no zero byte. */
  lemma TrimPadded(a: seq<byte>, n: nat)
    requires 0 !in a
    ensures Trim(a + Zeros(n)) == a
  {
    var b := a + Zeros(n);
    var r := Trim(b);
    assert forall i :: 0 <= i < |a| ==> b[i] == a[i];
    assert n > 0 ==> b[|a|] == 0;
    assert b[..|a|] == a;
  }

  /** Trimming is idempotent. */
  lemma TrimIdempotent(b: seq<byte>)
    ensures Trim(Trim(b)) == Trim(b)
  {
  }

  /** Trim leaves its input unchanged exactly when the input has no zero
      byte. */
  lemma TrimUnchangedIff(b: seq<byte>)
    ensures Trim(b) == b <==> 0 !in b
  {
  }
}
