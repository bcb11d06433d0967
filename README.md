# In-place XOR file encryptor, modelled in Dafny

The program encrypts or decrypts one file in place with a repeating-key XOR
keystream.

Encryption puts a random 16-byte prefix in front of the plaintext. It then
combines every byte of `prefix ++ plaintext` with `key[i % |key|]`, where `i` is
the byte's position. It streams the file through one read/write handle. The
write offset trails the read offset, so no plaintext byte is overwritten before
it has been read. The file grows by 16 bytes.

Decryption reads from offset 16 with the keystream also at position 16. It
writes each decrypted chunk 16 bytes earlier in the file and truncates the stale
last 16 bytes at the end.

The model has five modules:

- `Bytes`: `Byte = bv8`, `Option`, and `Min`/`Max`.
- `PositionalFile`: a `File` class with a `contents: seq<Byte>` field, plus the
  positional operations `ReadAt` (into an `array`), `WriteAt` and `SetLen`.
  `ReadAt` leaves the contents unchanged, `WriteAt`'s effect is `Overwrite`, and
  `SetLen`'s is `Resize`.
- `Cipher`: the combiner `Xor`, the keystream transform `Transform`, and the two
  file formats as functions: `Encrypted` (prefix then plaintext, transformed from
  keystream position 0) and `Decrypted` (everything after the prefix, transformed
  from position 16; `None` for a file shorter than the prefix). It also holds the
  round-trip lemma.
- `Streamer`: the two in-place streamers as imperative methods over a `File`,
  with the same counters as the source: `position`, `readOffset`, `writeOffset`,
  and the staging buffer `result`. Each is proved to leave exactly
  `Encrypted(...)` or `Decrypted(...)` in the file.
- `Command`: the checks in `main` as a pure selector `SelectAction`, and `Run`,
  which executes the selected streamer with `Xor` and the 512-byte buffer.

The combiner is a parameter of the streamers, as the source's `&dyn Fn(u8, u8) -> u8`
is. The round trip holds for every combiner that undoes itself (`Involutive`),
and `Xor` is one. The buffer size is a parameter too; `Run` uses
`BUFFER_SIZE = 512`.

The encryption algorithm needs a buffer of at least `PREFIX_SIZE` bytes. The
first flush writes all 16 staged prefix bytes at offset 0 after only one chunk
has been read, so a chunk shorter than 16 bytes lets that write overwrite
plaintext that has not been read yet (`SmallBufferClobbers`). `EncryptFile`
therefore requires `bufferSize >= PREFIX_SIZE`; the source's 512 meets this.
Decryption needs only a positive buffer size.

## Model

In the table, `k` is the key length and `n` the file length on entry.

| member | source | states |
|---|---|---|
| `Cipher.Xor` | src/main.rs:66-68 | Combining the result with either operand gives back the other operand. |
| `Cipher.XorInvolutive` | src/main.rs:66-68 | `Xor(Xor(b, k), k) == b` for every byte `b` and key byte `k`, which is why one combiner serves both streamers (lines 53, 56). |
| `Cipher.Transform` | src/main.rs:113-116 | The keystream transform keeps the length of its data; it is defined so that byte `i` of the output is `process(data[i], key[(start + i) % k])`. |
| `Cipher.TransformSplit` | src/main.rs:113-116 | Transforming consecutive chunks with a running position gives the same bytes as transforming their concatenation: the keystream stays aligned across chunk boundaries. |
| `Cipher.TransformTwice` | src/main.rs:142-145 | With an involutive combiner, transforming twice at the same keystream alignment returns the data. |
| `Cipher.Encrypted` | src/main.rs:84-124 | The encrypted file has length `16 + n`. Byte `i < 16` is `process(prefix[i], key[i % k])`. Byte `16 + j` is `process(plain[j], key[(16 + j) % k])`. |
| `Cipher.Decrypted` | src/main.rs:126-157 | A decryption exists exactly when the file has at least 16 bytes. Its length is `n - 16`, and byte `j` is `process(c[16 + j], key[(16 + j) % k])`. |
| `Cipher.RoundTrip` | src/main.rs:84-157 | For any 16-byte prefix, any non-empty key, any file contents and any involutive combiner, decrypting the encryption gives back the contents exactly, length included. |
| `Cipher.DecryptPrefixOnly` | src/main.rs:151-153 | A file of exactly 16 bytes decrypts to the empty file. |
| `PositionalFile.OverwriteAt` | src/main.rs:107 | After a positional write, each byte is the written byte inside the written range and the old byte outside it. |
| `PositionalFile.File.ReadAt` | src/main.rs:102 | `read_at` returns `min(buffer length, bytes left)` bytes, or 0 at or past the end. They are the file's bytes at the offset, and the rest of the buffer keeps its old contents. |
| `PositionalFile.File.WriteAt` | src/main.rs:107 | `write_at` at an offset no later than the end writes all of its data there, returns its length, and extends the file when the write runs past the end. Every write of both streamers is proved to start at or before the end, so none leaves a hole. |
| `PositionalFile.File.SetLen` | src/main.rs:152 | `set_len` truncates the file to the given length, or pads it with zeros up to it. |
| `Streamer.GeneratePrefix` | src/main.rs:71-81 | The prefix has exactly `size` bytes, byte `i` being the `i`-th byte drawn. |
| `Streamer.StageChunk` | src/main.rs:113-116 | The staging loop appends the chunk transformed from keystream position `position` on to the staging buffer, and advances `position` by the chunk's length. The decrypt loop at lines 142-145 is the same. |
| `Streamer.ReadBehindWrites` | src/main.rs:102-110 | A read at an offset at or beyond everything written so far sees only original bytes: no byte is read after it was overwritten. |
| `Streamer.WriteStaged` | src/main.rs:105-110 | Flushing the staged ciphertext at the trailing write offset extends the ciphertext written so far to `position` and consumes that much more of the original tail. |
| `Streamer.WriteLast` | src/main.rs:118-120 | The final write, which reaches `n + 16`, leaves exactly the encrypted file. |
| `Streamer.SmallBufferClobbers` | src/main.rs:98-110 | With a buffer shorter than the prefix, the byte the second round will read at offset `bufferSize` has already been replaced by ciphertext of the prefix. |
| `Streamer.EncryptFile` | src/main.rs:84-124 | Afterwards the file is `Encrypted(process, prefix, original, key)` and is 16 bytes longer. The loop keeps `position == readOffset + 16 == writeOffset + len(result)` and `writeOffset <= readOffset`. Each flush ends at or before the read offset unless the whole plaintext has been read. The loop terminates as `readOffset` rises to `n`. |
| `Streamer.DecryptChunk` | src/main.rs:139-149 | One round on a file with at least 16 bytes reads still-encrypted bytes. Writing their decryption 16 bytes earlier extends the decrypted part to the new read offset. |
| `Streamer.DecryptStep` | src/main.rs:138-150 | One round, for any file length, keeps `writeOffset + 16 == readOffset`. The file stays the decrypted part followed by the original bytes from the write offset on. |
| `Streamer.ShortUntouched` | src/main.rs:137-153 | A file shorter than 16 bytes has no decryption, and the single round leaves it unchanged. |
| `Streamer.TruncateStale` | src/main.rs:151-153 | After the last round, truncating to `n - 16` leaves exactly `Decrypted(process, original, key)`. |
| `Streamer.DecryptFile` | src/main.rs:126-157 | `completed` holds exactly when the file had at least 16 bytes. The file is then `Decrypted(process, original, key)` and 16 bytes shorter; otherwise it is unchanged. The loop keeps `position == readOffset == writeOffset + 16`. |
| `Streamer.EncryptThenDecrypt` | src/main.rs:51-57 | Running the encrypt streamer and then the decrypt streamer with `Xor` and the same key restores the file exactly. |
| `Command.SelectAction` | src/main.rs:31-60 | The checks apply in `main`'s order: a missing file exits, then an empty key exits, and only then the mode decides. `encrypt`/`e` selects encryption, `decrypt`/`d` decryption, and anything else panics. Each action holds if and only if its condition does. |
| `Command.StreamersGetKey` | src/main.rs:37-40 | A streamer is started only for an existing file and a non-empty key. |
| `Command.ModeSpellings` | src/main.rs:51-57 | The short and long spelling of each mode select the same action. |
| `Command.Run` | src/main.rs:28-63 | One invocation performs the selected action. Encryption completes and leaves the encrypted file under a prefix drawn from the byte source. Decryption leaves the decryption when there is one. The missing-file, empty-key and unknown-mode paths never complete, and every path that does not complete leaves the file unchanged. |

## Left out

- Argument parsing (`clap`), `Path::exists` and `OpenOptions::open`: the file's existence and the parsed key and mode are parameters of `Run`. The two early-exit messages are the actions `ReportMissingFile` and `ReportEmptyKey`; nothing is printed.
- `rand::thread_rng`: randomness cannot be stated. The prefix bytes come from a byte source `draw` passed in, and the streamers take the prefix as a parameter.
- `file.metadata()` and the `u64`/`usize` casts: lengths and offsets are unbounded naturals, and `file_size` is the length of the contents on entry.
- Short reads and writes: `ReadAt` returns every available byte up to the buffer's capacity, and `WriteAt` writes all of its data. The source relies on this. A short write at line 107 or line 147 advances the write offset only by the count written, and `clear()` then discards the unwritten rest of the staging buffer: those bytes are lost without an error, and every later write lands too early. A short encrypt read of fewer than 16 bytes lets the next flush, which ends 16 bytes past the old read offset, overwrite plaintext not yet read. Both loops stop on `position`, so a zero-byte read before the end would spin. None of this is modelled.
- I/O errors (`expect`) and the panic on an unknown mode: on an unknown mode `Run` reports `PanicUnknownMode` and leaves the file unchanged. Opening the file does not truncate it.
- Streamer.DecryptFile: for a file shorter than 16 bytes the source reads nothing, writes nothing, and then computes `file_size - 16` in `u64`. A debug build panics on the underflow. A release build wraps to a huge length that `set_len` rejects, so `expect` panics. The model reports this abort as `completed == false` with the file unchanged, instead of modelling the panic.
- PositionalFile.File.WriteAt: requires the offset to be at most the file's length. A write that starts past the end (leaving a hole, or an empty write there, which changes nothing) is not modelled; neither streamer makes one.
- Streamer.EncryptFile: requires `bufferSize >= PREFIX_SIZE`, which the source's `BUFFER_SIZE = 512` satisfies. Smaller buffers are not modelled because the algorithm is wrong for them (see `SmallBufferClobbers`).
- Durability, `fsync`, crash consistency and concurrent access to the file: the source does nothing about them, and they are not modelled.
