/**
  A regular file opened for reading and writing, accessed only through positional
  reads and writes on one handle (the `read_at`/`write_at`/`set_len` calls of the
  Unix `FileExt` and `File` APIs). Every read returns as many bytes as are available
  up to the buffer's capacity, and every write writes all of its bytes. Writes start
  at or before the end of the file, so they never leave a hole.
 */
module PositionalFile {
  import opened Bytes

  /** `k` zero bytes: what a file reads back in a gap it was extended over. */
  function Zeros(k: nat): (z: seq<Byte>)
    ensures |z| == k
  {
    seq(k, _ => 0)
  }

  /** The bytes of `s` from offset `k` on; empty when `k` lies past the end. */
  function Drop(s: seq<Byte>, k: nat): (r: seq<Byte>)
    ensures |r| == if k <= |s| then |s| - k else 0
  {
    if k <= |s| then s[k..] else []
  }

  /** The contents after `set_len(n)`: cut to `n` bytes, or padded with zeros up to `n`. */
  function Resize(s: seq<Byte>, n: nat): (r: seq<Byte>)
    ensures |r| == n
  {
    if n <= |s| then s[..n] else s + Zeros(n - |s|)
  }

  /**
    The contents after writing `data` at offset `off`: the written range holds `data`,
    bytes outside it keep their old value, the file grows when the write runs past the
    end, and a gap between the old end and `off` reads as zeros.
   */
  function Overwrite(s: seq<Byte>, data: seq<Byte>, off: nat): (r: seq<Byte>)
    ensures |r| == Max(|s|, off + |data|)
  {
    Resize(s, off) + data + Drop(s, off + |data|)
  }

  /** Byte by byte, a write changes exactly the range it covers; a gap before it reads as zeros. */
  lemma OverwriteAt(s: seq<Byte>, data: seq<Byte>, off: nat, i: nat)
    requires i < Max(|s|, off + |data|)
    ensures Overwrite(s, data, off)[i] ==
      if off <= i < off + |data| then data[i - off] else if i < |s| then s[i] else 0
  {
    var r := Overwrite(s, data, off);
    if i >= off + |data| {
      assert r[i] == Drop(s, off + |data|)[i - off - |data|];
    }
  }

  /** Writing at the end of a known head `a` replaces the start of the rest by `data`. */
  lemma OverwriteAfter(a: seq<Byte>, rest: seq<Byte>, data: seq<Byte>)
    ensures Overwrite(a + rest, data, |a|) == a + data + Drop(rest, |data|)
  {
    var s := a + rest;
    assert Resize(s, |a|) == a;
    var d1 := Drop(s, |a| + |data|);
    var d2 := Drop(rest, |data|);
    assert |d1| == |d2|;
    forall i | 0 <= i < |d1| ensures d1[i] == d2[i] {
      assert d1[i] == s[|a| + |data| + i];
    }
  }

  /** Dropping in two steps is dropping once. */
  lemma DropDrop(s: seq<Byte>, j: nat, k: nat)
    ensures Drop(Drop(s, j), k) == Drop(s, j + k)
  {
  }

  /** Writing at the end of `a`, over what is left of `s` beyond it, pushes that rest back by `|data|`. */
  lemma OverwriteTail(a: seq<Byte>, s: seq<Byte>, data: seq<Byte>, w: nat)
    requires |a| == w
    ensures Overwrite(a + Drop(s, w), data, w) == a + data + Drop(s, w + |data|)
  {
    OverwriteAfter(a, Drop(s, w), data);
    DropDrop(s, w, |data|);
  }

  class File {
    /** The bytes of the file, offset 0 first. */
    var contents: seq<Byte>

    constructor (initial: seq<Byte>)
      ensures contents == initial
    {
      contents := initial;
    }

    /**
      `read_at(buf, off)`: copies the bytes at `off` into the front of `buf`, as many as
      fit and as the file holds, and returns their number; at or past the end it reads
      nothing. The rest of `buf` keeps its old contents.
     */
    method ReadAt(buf: array<Byte>, off: nat) returns (n: nat)
      modifies buf
      ensures n == if off < |contents| then Min(buf.Length, |contents| - off) else 0
      ensures off < |contents| ==> buf[..n] == contents[off..off + n]
      ensures buf[n..] == old(buf[n..])
    {
      n := if off < |contents| then Min(buf.Length, |contents| - off) else 0;
      forall i | 0 <= i < n {
        buf[i] := contents[off + i];
      }
      assert off < |contents| ==> buf[..n] == contents[off..off + n] by {
        if off < |contents| {
          assert forall i :: 0 <= i < n ==> buf[..n][i] == contents[off..off + n][i];
        }
      }
    }

    /** `write_at(data, off)`: writes all of `data` at `off`, at most the current length, and returns the count written. */
    method WriteAt(data: seq<Byte>, off: nat) returns (written: nat)
      requires off <= |contents|
      modifies this
      ensures written == |data|
      ensures contents == Overwrite(old(contents), data, off)
    {
      contents := Overwrite(contents, data, off);
      written := |data|;
    }

    /** `set_len(n)`: truncates the file to `n` bytes or extends it with zeros. */
    method SetLen(n: nat)
      modifies this
      ensures contents == Resize(old(contents), n)
    {
      contents := Resize(contents, n);
    }
  }
}
