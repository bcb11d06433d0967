/**
  The in-place streamers: encryption grows the file by the prefix length while reading
  and writing through one handle, decryption shrinks it again. The combiner, the key,
  the prefix and the chunk size are parameters.
 */
module Streamer {
  import opened Bytes
  import opened Cipher
  import opened PositionalFile

  /** Capacity of the read buffer both streamers use (`BUFFER_SIZE`). */
  const BUFFER_SIZE: nat := 512

  /**
    `generate_prefix(size)`: collects `size` bytes from the byte source `draw`, the
    `i`-th byte being `draw(i)`. The source of randomness itself is a parameter.
   */
  method GeneratePrefix(size: nat, draw: nat -> Byte) returns (iv: seq<Byte>)
    ensures |iv| == size
    ensures forall i :: 0 <= i < size ==> iv[i] == draw(i)
  {
    iv := [];
    for n := 0 to size
      invariant |iv| == n
      invariant forall i :: 0 <= i < n ==> iv[i] == draw(i)
    {
      iv := iv + [draw(n)];
    }
  }

  /**
    Appends the transformed `chunk` to the staging buffer `result`, taking keystream
    bytes from `position` on, and advances `position` past the chunk.
   */
  method StageChunk(result: seq<Byte>, chunk: seq<Byte>, key: seq<Byte>, position: nat,
                    process: (Byte, Byte) -> Byte)
    returns (staged: seq<Byte>, next: nat)
    requires |key| > 0
    ensures next == position + |chunk|
    ensures staged == result + Transform(process, chunk, key, position)
  {
    staged, next := result, position;
    for i := 0 to |chunk|
      invariant next == position + i
      invariant staged == result + Transform(process, chunk[..i], key, position)
    {
      TransformSplit(process, chunk[..i], [chunk[i]], key, position);
      assert chunk[..i] + [chunk[i]] == chunk[..i + 1];
      staged := staged + [process(chunk[i], KeyAt(key, next))];
      next := next + 1;
    }
    assert chunk[..|chunk|] == chunk;
  }

  /**
    A chunk read at `off` in a file whose first `|written|` bytes have been rewritten,
    `|written| <= off`, and whose other bytes are still those of `orig`, is the chunk
    of `orig` at `off`: no byte is read after it was overwritten.
   */
  lemma ReadBehindWrites(written: seq<Byte>, orig: seq<Byte>, off: nat, n: nat, chunk: seq<Byte>)
    requires |written| <= off <= |orig|
    requires off < |orig| ==> off + n <= |orig| && chunk == (written + Drop(orig, |written|))[off..off + n]
    requires off == |orig| ==> n == 0 && chunk == []
    ensures off + n <= |orig| && chunk == orig[off..off + n]
  {
    if off < |orig| {
      var c := written + Drop(orig, |written|);
      forall i | 0 <= i < n
        ensures chunk[i] == orig[off + i]
      {
        assert chunk[i] == c[off + i] == Drop(orig, |written|)[off + i - |written|];
      }
    }
  }

  /**
    During encryption the chunk read at `readOffset` is the virtual plaintext
    `v = prefix + plain` at keystream position `position = readOffset + PREFIX_SIZE`.
   */
  lemma ReadAhead(prefix: seq<Byte>, plain: seq<Byte>, v: seq<Byte>, written: seq<Byte>,
                  readOffset: nat, position: nat, readSize: nat, chunk: seq<Byte>)
    requires |prefix| == PREFIX_SIZE && v == prefix + plain
    requires position == readOffset + PREFIX_SIZE
    requires |written| <= readOffset <= |plain|
    requires readOffset < |plain| ==>
      readOffset + readSize <= |plain| && chunk == (written + Drop(plain, |written|))[readOffset..readOffset + readSize]
    requires readOffset == |plain| ==> readSize == 0 && chunk == []
    ensures position + readSize <= |v| && chunk == v[position..position + readSize]
  {
    ReadBehindWrites(written, plain, readOffset, readSize, chunk);
    var a, b := v[position..position + readSize], plain[readOffset..readOffset + readSize];
    forall i | 0 <= i < readSize ensures a[i] == b[i] {
      assert v[position + i] == plain[readOffset + i];
    }
    assert a == b;
  }

  /** The ciphertext of `v[..w]` followed by that of `v[w..p]` is the ciphertext of `v[..p]`. */
  lemma TransformPieces(process: (Byte, Byte) -> Byte, key: seq<Byte>, v: seq<Byte>, w: nat, p: nat)
    requires |key| > 0
    requires w <= p <= |v|
    ensures Transform(process, v[..w], key, 0) + Transform(process, v[w..p], key, w) == Transform(process, v[..p], key, 0)
  {
    assert v[..w] + v[w..p] == v[..p];
    TransformSplit(process, v[..w], v[w..p], key, 0);
  }

  /**
    Writing the staged ciphertext of `v[w..p]` at the write offset `w` extends the
    ciphertext written so far up to `p` and uncovers `p - w` fewer bytes of the old tail.
   */
  lemma WriteStaged(process: (Byte, Byte) -> Byte, key: seq<Byte>, v: seq<Byte>, tail: seq<Byte>, w: nat, p: nat)
    requires |key| > 0
    requires w <= p <= |v|
    ensures Overwrite(Transform(process, v[..w], key, 0) + Drop(tail, w), Transform(process, v[w..p], key, w), w)
         == Transform(process, v[..p], key, 0) + Drop(tail, p)
  {
    var written := Transform(process, v[..w], key, 0);
    var staged := Transform(process, v[w..p], key, w);
    calc {
      Overwrite(written + Drop(tail, w), staged, w);
      { OverwriteAfter(written, Drop(tail, w), staged); }
      written + staged + Drop(Drop(tail, w), p - w);
      { DropDrop(tail, w, p - w); }
      written + staged + Drop(tail, p);
      { TransformPieces(process, key, v, w, p); }
      Transform(process, v[..p], key, 0) + Drop(tail, p);
    }
  }

  /** The last write, which reaches the end of `prefix + plain`, completes the encrypted file. */
  lemma WriteLast(process: (Byte, Byte) -> Byte, key: seq<Byte>, prefix: seq<Byte>, plain: seq<Byte>, v: seq<Byte>, w: nat, p: nat)
    requires |key| > 0
    requires v == prefix + plain
    requires w <= p == |v|
    ensures Overwrite(Transform(process, v[..w], key, 0) + Drop(plain, w), Transform(process, v[w..p], key, w), w)
         == Encrypted(process, prefix, plain, key)
  {
    WriteStaged(process, key, v, plain, w, p);
    assert v[..p] == v;
    assert Drop(plain, p) == [];
    assert Transform(process, v, key, 0) + [] == Transform(process, v, key, 0);
  }

  /**
    The chunk of `v` read at `w`, staged with keystream bytes from `w` on, is the
    ciphertext of `v[w..p]`. The parameters `emptied`, `start` and `m` are the staging
    buffer, position and read size as the caller has them before `StageChunk`: the
    requires then match the caller's facts term for term, which keeps the proof of
    `EncryptFile` within the solver's resource limit. Do not fold them into `w`.
   */
  lemma StagedRead(process: (Byte, Byte) -> Byte, key: seq<Byte>, v: seq<Byte>, chunk: seq<Byte>,
                   emptied: seq<Byte>, start: nat, staged: seq<Byte>, w: nat, m: nat, p: nat)
    requires |key| > 0
    requires emptied == [] && start == w
    requires start + m <= |v| && chunk == v[start..start + m]
    requires p == start + |chunk| && staged == emptied + Transform(process, chunk, key, start)
    ensures staged == Transform(process, v[w..p], key, w)
  {
    assert [] + Transform(process, chunk, key, w) == Transform(process, chunk, key, w);
  }

  /**
    Why encryption needs chunks of at least `PREFIX_SIZE` bytes: with a smaller buffer
    the first round reads `bufferSize` bytes and then writes the 16 staged prefix bytes
    at offset 0, so the byte the second round reads at offset `bufferSize` is already
    ciphertext of the prefix rather than plaintext.
   */
  lemma SmallBufferClobbers(process: (Byte, Byte) -> Byte, key: seq<Byte>, prefix: seq<Byte>, plain: seq<Byte>,
                            bufferSize: nat)
    requires |key| > 0
    requires |prefix| == PREFIX_SIZE
    requires bufferSize < PREFIX_SIZE && bufferSize < |plain|
    ensures Overwrite(plain, Transform(process, prefix, key, 0), 0)[bufferSize]
         == process(prefix[bufferSize], KeyAt(key, bufferSize))
  {
    OverwriteAt(plain, Transform(process, prefix, key, 0), 0, bufferSize);
  }

  /**
    `encrypt_file`: replaces the contents of `file` by the encryption of `prefix`
    followed by the old contents. The transformed prefix is staged first and written
    only after the first chunk has been read; from then on each write lands `PREFIX_SIZE`
    bytes behind the read, so no byte is overwritten before it has been read.
   */
  method EncryptFile(file: File, key: seq<Byte>, process: (Byte, Byte) -> Byte, prefix: seq<Byte>, bufferSize: nat)
    requires |key| > 0
    requires |prefix| == PREFIX_SIZE
    requires bufferSize >= PREFIX_SIZE
    modifies file
    ensures file.contents == Encrypted(process, prefix, old(file.contents), key)
    ensures |file.contents| == |old(file.contents)| + PREFIX_SIZE
  {
    var fileSize := |file.contents|;
    ghost var plain := file.contents;
    ghost var v := prefix + plain;

    // The transformed prefix is staged, not yet written: the first bytes of the file
    // still hold plaintext that has not been read.
    var result: seq<Byte> := [];
    var position: nat := 0;
    result, position := StageChunk(result, prefix, key, position, process);
    assert [] + Transform(process, prefix, key, 0) == Transform(process, prefix, key, 0);
    assert prefix == v[0..position];
    assert Transform(process, v[..0], key, 0) + Drop(plain, 0) == plain by {
      assert |Transform(process, v[..0], key, 0)| == 0;
    }

    var buffer := new Byte[bufferSize];
    var writeOffset: nat := 0;
    var readOffset: nat := 0;
    while true
      invariant position == readOffset + PREFIX_SIZE
      invariant readOffset <= fileSize
      invariant writeOffset + |result| == position
      invariant writeOffset <= readOffset
      invariant |result| >= PREFIX_SIZE
      invariant result == Transform(process, v[writeOffset..position], key, writeOffset)
      invariant file.contents == Transform(process, v[..writeOffset], key, 0) + Drop(plain, writeOffset)
      decreases fileSize - readOffset
    {
      ghost var written := Transform(process, v[..writeOffset], key, 0);
      var readSize := file.ReadAt(buffer, readOffset);
      var chunk := buffer[..readSize];
      ReadAhead(prefix, plain, v, written, readOffset, position, readSize, chunk);
      readOffset := readOffset + readSize;

      if |result| > 0 {
        // The write ends at or before the read offset, or the whole plaintext has been read.
        assert writeOffset + |result| <= readOffset || readOffset == fileSize;
        WriteStaged(process, key, v, plain, writeOffset, position);
        var writeSize := file.WriteAt(result, writeOffset);
        assert file.contents == Transform(process, v[..position], key, 0) + Drop(plain, position);
        writeOffset := writeOffset + writeSize;
        result := [];
      }
      assert writeOffset == position;

      ghost var emptied, start := result, position;
      result, position := StageChunk(result, chunk, key, position, process);
      StagedRead(process, key, v, chunk, emptied, start, result, writeOffset, readSize, position);

      if position >= fileSize + PREFIX_SIZE {
        assert position == |v|;
        WriteLast(process, key, prefix, plain, v, writeOffset, position);
        var _ := file.WriteAt(result, writeOffset);
        return;
      }
    }
  }

  /** The keystream positions of consecutive slices of `c` run on from each other. */
  lemma TransformExtend(process: (Byte, Byte) -> Byte, key: seq<Byte>, c: seq<Byte>, s: nat, r: nat, e: nat)
    requires |key| > 0
    requires s <= r <= e <= |c|
    ensures Transform(process, c[s..r], key, s) + Transform(process, c[r..e], key, r) == Transform(process, c[s..e], key, s)
  {
    assert c[s..r] + c[r..e] == c[s..e];
    TransformSplit(process, c[s..r], c[r..e], key, s);
  }

  /**
    Writing the decryption of `cipher[r..r + m]` over the stale bytes starting at
    `w = r - PREFIX_SIZE` extends the decrypted part by `m` bytes.
   */
  lemma WriteDecrypted(process: (Byte, Byte) -> Byte, key: seq<Byte>, cipher: seq<Byte>, w: nat, r: nat, m: nat)
    requires |key| > 0
    requires w + PREFIX_SIZE == r && r + m <= |cipher|
    ensures Overwrite(Transform(process, cipher[PREFIX_SIZE..r], key, PREFIX_SIZE) + Drop(cipher, w),
                      Transform(process, cipher[r..r + m], key, r), w)
         == Transform(process, cipher[PREFIX_SIZE..r + m], key, PREFIX_SIZE) + Drop(cipher, w + m)
  {
    var done := Transform(process, cipher[PREFIX_SIZE..r], key, PREFIX_SIZE);
    var staged := Transform(process, cipher[r..r + m], key, r);
    assert |staged| == m;
    calc {
      Overwrite(done + Drop(cipher, w), staged, w);
      { OverwriteTail(done, cipher, staged, w); }
      done + staged + Drop(cipher, w + m);
      { TransformExtend(process, key, cipher, PREFIX_SIZE, r, r + m); }
      Transform(process, cipher[PREFIX_SIZE..r + m], key, PREFIX_SIZE) + Drop(cipher, w + m);
    }
  }

  /**
    The decryption of the ciphertext read so far, up to offset `r`; nothing when the
    file is shorter than the prefix, where the first read already lies past the end.
   */
  ghost function DecryptedPart(process: (Byte, Byte) -> Byte, key: seq<Byte>, cipher: seq<Byte>, r: nat): seq<Byte>
    requires |key| > 0
  {
    if PREFIX_SIZE <= r <= |cipher| then Transform(process, cipher[PREFIX_SIZE..r], key, PREFIX_SIZE) else []
  }

  /**
    One round of decryption of a file at least `PREFIX_SIZE` bytes long: the chunk read
    at `r` is still ciphertext, and writing its decryption at `w = r - PREFIX_SIZE`
    touches only bytes already read and extends the decrypted part to `r' = r + m`.
   */
  lemma DecryptChunk(process: (Byte, Byte) -> Byte, key: seq<Byte>, cipher: seq<Byte>, contents: seq<Byte>,
                     w: nat, r: nat, m: nat, chunk: seq<Byte>, staged: seq<Byte>, w': nat, r': nat)
    requires |key| > 0
    requires w + PREFIX_SIZE == r <= |cipher|
    requires contents == DecryptedPart(process, key, cipher, r) + Drop(cipher, w)
    requires r < |contents| ==> r + m <= |contents| && chunk == contents[r..r + m]
    requires r >= |contents| ==> m == 0 && chunk == []
    requires staged == [] + Transform(process, chunk, key, r)
    requires r' == r + m && w' == w + |staged|
    ensures w' + PREFIX_SIZE == r'
    ensures r' <= |cipher| || (|cipher| < PREFIX_SIZE && w' == 0)
    ensures Overwrite(contents, staged, w) == DecryptedPart(process, key, cipher, r') + Drop(cipher, w')
  {
    var done := Transform(process, cipher[PREFIX_SIZE..r], key, PREFIX_SIZE);
    assert contents == done + Drop(cipher, w);
    ReadBehindWrites(done, cipher, r, m, chunk);
    assert [] + Transform(process, chunk, key, r) == Transform(process, chunk, key, r);
    WriteDecrypted(process, key, cipher, w, r, m);
    assert DecryptedPart(process, key, cipher, r') == Transform(process, cipher[PREFIX_SIZE..r + m], key, PREFIX_SIZE);
  }

  /** The single round for a file shorter than the prefix reads and writes nothing. */
  lemma DecryptNothing(process: (Byte, Byte) -> Byte, key: seq<Byte>, cipher: seq<Byte>, contents: seq<Byte>,
                       w: nat, r: nat, m: nat, chunk: seq<Byte>, staged: seq<Byte>, w': nat, r': nat)
    requires |key| > 0
    requires w + PREFIX_SIZE == r && |cipher| < PREFIX_SIZE && w == 0
    requires contents == DecryptedPart(process, key, cipher, r) + Drop(cipher, w)
    requires r >= |contents| ==> m == 0 && chunk == []
    requires staged == [] + Transform(process, chunk, key, r)
    requires r' == r + m && w' == w + |staged|
    ensures w' + PREFIX_SIZE == r'
    ensures r' <= |cipher| || (|cipher| < PREFIX_SIZE && w' == 0)
    ensures Overwrite(contents, staged, w) == DecryptedPart(process, key, cipher, r') + Drop(cipher, w')
  {
    ShortUntouched(process, key, cipher);
    assert staged == [];
    assert Overwrite(contents, staged, w) == contents by {
      assert Drop(contents, 0) == contents;
    }
  }

  /** One round of decryption, in either case. */
  lemma DecryptStep(process: (Byte, Byte) -> Byte, key: seq<Byte>, cipher: seq<Byte>, contents: seq<Byte>,
                    w: nat, r: nat, m: nat, chunk: seq<Byte>, staged: seq<Byte>, w': nat, r': nat)
    requires |key| > 0
    requires w + PREFIX_SIZE == r
    requires r <= |cipher| || (|cipher| < PREFIX_SIZE && w == 0)
    requires contents == DecryptedPart(process, key, cipher, r) + Drop(cipher, w)
    requires r < |contents| ==> r + m <= |contents| && chunk == contents[r..r + m]
    requires r >= |contents| ==> m == 0 && chunk == []
    requires staged == [] + Transform(process, chunk, key, r)
    requires r' == r + m && w' == w + |staged|
    ensures w' + PREFIX_SIZE == r'
    ensures r' <= |cipher| || (|cipher| < PREFIX_SIZE && w' == 0)
    ensures Overwrite(contents, staged, w) == DecryptedPart(process, key, cipher, r') + Drop(cipher, w')
  {
    if r <= |cipher| {
      DecryptChunk(process, key, cipher, contents, w, r, m, chunk, staged, w', r');
    } else {
      DecryptNothing(process, key, cipher, contents, w, r, m, chunk, staged, w', r');
    }
  }

  /** A file shorter than the prefix has no decryption, and the loop leaves it as it was. */
  lemma ShortUntouched(process: (Byte, Byte) -> Byte, key: seq<Byte>, cipher: seq<Byte>)
    requires |key| > 0
    requires |cipher| < PREFIX_SIZE
    ensures DecryptedPart(process, key, cipher, PREFIX_SIZE) + Drop(cipher, 0) == cipher
    ensures Decrypted(process, cipher, key) == None
  {
    assert [] + Drop(cipher, 0) == Drop(cipher, 0);
  }

  /** Once the whole file has been read, cutting off the stale last `PREFIX_SIZE` bytes leaves the decryption. */
  lemma TruncateStale(process: (Byte, Byte) -> Byte, key: seq<Byte>, cipher: seq<Byte>, w: nat, r: nat)
    requires |key| > 0
    requires w + PREFIX_SIZE == r == |cipher|
    ensures Decrypted(process, cipher, key)
         == Some(Resize(DecryptedPart(process, key, cipher, r) + Drop(cipher, w), |cipher| - PREFIX_SIZE))
  {
    var done := Transform(process, cipher[PREFIX_SIZE..r], key, PREFIX_SIZE);
    assert cipher[PREFIX_SIZE..r] == cipher[PREFIX_SIZE..];
    assert Resize(done + Drop(cipher, w), w) == done;
  }

  /**
    `decrypt_file`: replaces the contents of `file` by its decryption. Reading starts
    after the prefix and each chunk is written `PREFIX_SIZE` bytes before where it was
    read; the stale tail is cut off at the end. `completed` is false when the file is
    shorter than the prefix: the loop then reads and writes nothing, and computing the
    new length `file_size - PREFIX_SIZE` fails, which aborts the program with the file
    unchanged.
   */
  method DecryptFile(file: File, key: seq<Byte>, process: (Byte, Byte) -> Byte, bufferSize: nat)
    returns (completed: bool)
    requires |key| > 0
    requires bufferSize > 0
    modifies file
    ensures completed <==> |old(file.contents)| >= PREFIX_SIZE
    ensures Decrypted(process, old(file.contents), key) == if completed then Some(file.contents) else None
    ensures completed ==> |file.contents| == |old(file.contents)| - PREFIX_SIZE
    ensures !completed ==> file.contents == old(file.contents)
  {
    var fileSize := |file.contents|;
    ghost var cipher := file.contents;

    var resultBuffer: seq<Byte> := [];
    var position: nat := PREFIX_SIZE;
    var readBuffer := new Byte[bufferSize];
    var writeOffset: nat := 0;
    var readOffset: nat := PREFIX_SIZE;
    assert file.contents == DecryptedPart(process, key, cipher, readOffset) + Drop(cipher, writeOffset) by {
      assert [] + Drop(cipher, 0) == Drop(cipher, 0);
    }
    while true
      invariant position == readOffset == writeOffset + PREFIX_SIZE
      invariant resultBuffer == []
      invariant readOffset <= fileSize || (fileSize < PREFIX_SIZE && writeOffset == 0)
      invariant file.contents == DecryptedPart(process, key, cipher, readOffset) + Drop(cipher, writeOffset)
      decreases fileSize + PREFIX_SIZE - readOffset
    {
      ghost var before := file.contents;
      var readSize := file.ReadAt(readBuffer, readOffset);
      var chunk := readBuffer[..readSize];
      ghost var chunkStart, lastWrite := readOffset, writeOffset;
      readOffset := readOffset + readSize;

      resultBuffer, position := StageChunk(resultBuffer, chunk, key, position, process);

      assert file.contents == before;
      var writeSize := file.WriteAt(resultBuffer, writeOffset);
      writeOffset := writeOffset + writeSize;
      // Every byte written has already been read.
      DecryptStep(process, key, cipher, before, lastWrite, chunkStart, readSize, chunk, resultBuffer, writeOffset, readOffset);
      resultBuffer := [];

      if position >= fileSize {
        if fileSize < PREFIX_SIZE {
          ShortUntouched(process, key, cipher);
          completed := false;
          return;
        }
        TruncateStale(process, key, cipher, writeOffset, readOffset);
        file.SetLen(fileSize - PREFIX_SIZE);
        completed := true;
        return;
      }
    }
  }

  /**
    Encrypting a file and then decrypting it with the same key and the XOR combiner
    leaves it exactly as it was, length included.
   */
  method EncryptThenDecrypt(file: File, key: seq<Byte>, prefix: seq<Byte>, bufferSize: nat)
    returns (completed: bool)
    requires |key| > 0
    requires |prefix| == PREFIX_SIZE
    requires bufferSize >= PREFIX_SIZE
    modifies file
    ensures completed
    ensures file.contents == old(file.contents)
  {
    EncryptFile(file, key, Xor, prefix, bufferSize);
    completed := DecryptFile(file, key, Xor, bufferSize);
    XorInvolutive();
    RoundTrip(Xor, prefix, old(file.contents), key);
  }
}
