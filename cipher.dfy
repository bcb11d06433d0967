/**
  The repeating-key XOR transform with a 16-byte prefix: the byte combiner, the
  keystream, and the file format an encrypted file has.
 */
module Cipher {
  import opened Bytes

  /** Length of the random prefix placed in front of the plaintext (`PREFIX_SIZE`). */
  const PREFIX_SIZE: nat := 16

  /** The combiner handed to both streamers: bitwise exclusive or of two bytes. */
  function Xor(x: Byte, y: Byte): (r: Byte)
    ensures r ^ y == x
    ensures r ^ x == y
  {
    x ^ y
  }

  /** A combiner that undoes itself when applied again with the same key byte. */
  ghost predicate Involutive(process: (Byte, Byte) -> Byte)
  {
    forall b: Byte, k: Byte :: process(process(b, k), k) == b
  }

  /** Exclusive or is its own inverse, so one combiner serves both directions. */
  lemma XorInvolutive()
    ensures Involutive(Xor)
  {
    forall b: Byte, k: Byte ensures Xor(Xor(b, k), k) == b {
      assert Xor(b, k) ^ k == b;
    }
  }

  /** The keystream byte for output position `p`: the key repeated without end. */
  function KeyAt(key: seq<Byte>, p: nat): Byte
    requires |key| > 0
  {
    key[p % |key|]
  }

  /**
    Combines each byte of `data` with the keystream, the first byte of `data` sitting
    at keystream position `start`.
   */
  function Transform(process: (Byte, Byte) -> Byte, data: seq<Byte>, key: seq<Byte>, start: nat): (r: seq<Byte>)
    requires |key| > 0
    ensures |r| == |data|
  {
    seq(|data|, i requires 0 <= i < |data| => process(data[i], KeyAt(key, start + i)))
  }

  /** Byte `i` of the transform is byte `i` of the data combined with keystream byte `start + i`. */
  lemma TransformAt(process: (Byte, Byte) -> Byte, data: seq<Byte>, key: seq<Byte>, start: nat, i: nat)
    requires |key| > 0
    requires i < |data|
    ensures Transform(process, data, key, start)[i] == process(data[i], KeyAt(key, start + i))
  {
  }

  /** Transforming two adjacent pieces separately, with aligned keystream positions, is transforming their concatenation. */
  lemma TransformSplit(process: (Byte, Byte) -> Byte, a: seq<Byte>, b: seq<Byte>, key: seq<Byte>, start: nat)
    requires |key| > 0
    ensures Transform(process, a, key, start) + Transform(process, b, key, start + |a|)
         == Transform(process, a + b, key, start)
  {
    var lhs := Transform(process, a, key, start) + Transform(process, b, key, start + |a|);
    var rhs := Transform(process, a + b, key, start);
    forall i | 0 <= i < |a + b| ensures lhs[i] == rhs[i] {
      if i < |a| {
        assert lhs[i] == Transform(process, a, key, start)[i];
      } else {
        assert lhs[i] == Transform(process, b, key, start + |a|)[i - |a|];
        assert start + |a| + (i - |a|) == start + i;
      }
    }
  }

  /** Applying the transform twice with the same keystream alignment returns the data. */
  lemma TransformTwice(process: (Byte, Byte) -> Byte, data: seq<Byte>, key: seq<Byte>, start: nat)
    requires |key| > 0
    requires Involutive(process)
    ensures Transform(process, Transform(process, data, key, start), key, start) == data
  {
    var once := Transform(process, data, key, start);
    var twice := Transform(process, once, key, start);
    forall i | 0 <= i < |data| ensures twice[i] == data[i] {
      assert twice[i] == process(once[i], KeyAt(key, start + i));
    }
  }

  /**
    The encrypted file: the prefix followed by the plaintext, combined byte by byte with
    the keystream taken from position 0.
   */
  function Encrypted(process: (Byte, Byte) -> Byte, prefix: seq<Byte>, plain: seq<Byte>, key: seq<Byte>): (c: seq<Byte>)
    requires |key| > 0
    ensures |c| == |prefix| + |plain|
    ensures forall i :: 0 <= i < |prefix| ==> c[i] == process(prefix[i], KeyAt(key, i))
    ensures forall j :: 0 <= j < |plain| ==> c[|prefix| + j] == process(plain[j], KeyAt(key, |prefix| + j))
  {
    var v := prefix + plain;
    var c := Transform(process, v, key, 0);
    forall i | 0 <= i < |v| ensures c[i] == process(v[i], KeyAt(key, i)) {
      TransformAt(process, v, key, 0, i);
    }
    assert forall j :: 0 <= j < |plain| ==> v[|prefix| + j] == plain[j];
    c
  }

  /**
    The decryption of a file: everything after the prefix, combined with the keystream
    from position `PREFIX_SIZE` on. There is nothing to decrypt in a file shorter than
    the prefix.
   */
  function Decrypted(process: (Byte, Byte) -> Byte, cipher: seq<Byte>, key: seq<Byte>): (r: Option<seq<Byte>>)
    requires |key| > 0
    ensures r.Some? <==> |cipher| >= PREFIX_SIZE
    ensures r.Some? ==> |r.value| == |cipher| - PREFIX_SIZE
    ensures r.Some? ==> forall j :: 0 <= j < |r.value| ==>
      r.value[j] == process(cipher[PREFIX_SIZE + j], KeyAt(key, PREFIX_SIZE + j))
  {
    if |cipher| < PREFIX_SIZE then None
    else
      var body := cipher[PREFIX_SIZE..];
      var d := Transform(process, body, key, PREFIX_SIZE);
      assert forall j :: 0 <= j < |body| ==> d[j] == process(body[j], KeyAt(key, PREFIX_SIZE + j)) by {
        forall j | 0 <= j < |body| ensures d[j] == process(body[j], KeyAt(key, PREFIX_SIZE + j)) {
          TransformAt(process, body, key, PREFIX_SIZE, j);
        }
      }
      Some(d)
  }

  /**
    Decrypting what encryption produced returns the plaintext, whatever the prefix and
    the key, as long as the combiner undoes itself.
   */
  lemma RoundTrip(process: (Byte, Byte) -> Byte, prefix: seq<Byte>, plain: seq<Byte>, key: seq<Byte>)
    requires |key| > 0
    requires |prefix| == PREFIX_SIZE
    requires Involutive(process)
    ensures Decrypted(process, Encrypted(process, prefix, plain, key), key) == Some(plain)
  {
    var c := Encrypted(process, prefix, plain, key);
    TransformSplit(process, prefix, plain, key, 0);
    assert c[PREFIX_SIZE..] == Transform(process, plain, key, PREFIX_SIZE);
    TransformTwice(process, plain, key, PREFIX_SIZE);
  }

  /** A file exactly as long as the prefix decrypts to the empty file. */
  lemma DecryptPrefixOnly(process: (Byte, Byte) -> Byte, cipher: seq<Byte>, key: seq<Byte>)
    requires |key| > 0
    requires |cipher| == PREFIX_SIZE
    ensures Decrypted(process, cipher, key) == Some([])
  {
  }
}
