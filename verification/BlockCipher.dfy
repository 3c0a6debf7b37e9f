/**
 What the AES key object does with one buffer: cipher block chaining (section 6.2 of NIST SP 800-38A),
 electronic codebook, and PKCS #7 padding (section 6.3 of RFC 5652). AES itself is any permutation of
 16-byte blocks.
 */
module BlockCipher {
  import opened Bytes
  import opened Wrappers

  const AES_BLOCK: nat := 16

  type Block = b: seq<byte> | |b| == AES_BLOCK witness Zeros(AES_BLOCK)

  datatype Permutation = Permutation(encrypt: Block -> Block, decrypt: Block -> Block) {
    ghost predicate Valid() {
      && (forall b: Block {:trigger decrypt(encrypt(b))} :: decrypt(encrypt(b)) == b)
      && (forall b: Block {:trigger encrypt(decrypt(b))} :: encrypt(decrypt(b)) == b)
    }
  }

  /** A key: a permutation of the blocks together with its inverse. */
  type Key = k: Permutation | k.Valid() witness Permutation((b: Block) => b, (b: Block) => b)

  // ---------------------------------------------------------------- cipher block chaining

  /** Works on whole blocks: with padding switched off the library never emits a partial last block. */
  function CbcEncrypt(key: Key, data: seq<byte>, iv: Block): (r: seq<byte>)
    ensures |data| % AES_BLOCK == 0 ==> |r| == |data|
  {
    if |data| < AES_BLOCK then []
    else
      var c: Block := key.encrypt(Xor(data[..AES_BLOCK], iv));
      c + CbcEncrypt(key, data[AES_BLOCK..], c)
  }

  function CbcDecrypt(key: Key, data: seq<byte>, iv: Block): (r: seq<byte>)
    ensures |r| <= |data|
    ensures |data| % AES_BLOCK == 0 ==> |r| == |data|
  {
    if |data| < AES_BLOCK then []
    else Xor(key.decrypt(data[..AES_BLOCK]), iv) + CbcDecrypt(key, data[AES_BLOCK..], data[..AES_BLOCK])
  }

  lemma {:induction false} CbcRoundTrip(key: Key, data: seq<byte>, iv: Block)
    requires |data| % AES_BLOCK == 0
    ensures CbcDecrypt(key, CbcEncrypt(key, data, iv), iv) == data
  {
    if data != [] {
      var first := Xor(data[..AES_BLOCK], iv);
      var c: Block := key.encrypt(first);
      var e := CbcEncrypt(key, data, iv);
      assert e[..AES_BLOCK] == c && e[AES_BLOCK..] == CbcEncrypt(key, data[AES_BLOCK..], c);
      CbcRoundTrip(key, data[AES_BLOCK..], c);
      XorCancels(data[..AES_BLOCK], iv);
      assert data == data[..AES_BLOCK] + data[AES_BLOCK..];
    }
  }

  // ---------------------------------------------------------------- electronic codebook

  function EcbEncrypt(key: Key, data: seq<byte>): (r: seq<byte>)
    ensures |data| % AES_BLOCK == 0 ==> |r| == |data|
  {
    if |data| < AES_BLOCK then [] else key.encrypt(data[..AES_BLOCK]) + EcbEncrypt(key, data[AES_BLOCK..])
  }

  function EcbDecrypt(key: Key, data: seq<byte>): (r: seq<byte>)
    ensures |r| <= |data|
    ensures |data| % AES_BLOCK == 0 ==> |r| == |data|
  {
    if |data| < AES_BLOCK then [] else key.decrypt(data[..AES_BLOCK]) + EcbDecrypt(key, data[AES_BLOCK..])
  }

  lemma {:induction false} EcbRoundTrip(key: Key, data: seq<byte>)
    requires |data| % AES_BLOCK == 0
    ensures EcbDecrypt(key, EcbEncrypt(key, data)) == data
    ensures EcbEncrypt(key, EcbDecrypt(key, data)) == data
  {
    if data != [] {
      var e, d := EcbEncrypt(key, data), EcbDecrypt(key, data);
      assert e[..AES_BLOCK] == key.encrypt(data[..AES_BLOCK]) && e[AES_BLOCK..] == EcbEncrypt(key, data[AES_BLOCK..]);
      assert d[..AES_BLOCK] == key.decrypt(data[..AES_BLOCK]) && d[AES_BLOCK..] == EcbDecrypt(key, data[AES_BLOCK..]);
      assert key.decrypt(key.encrypt(data[..AES_BLOCK])) == data[..AES_BLOCK];
      assert key.encrypt(key.decrypt(data[..AES_BLOCK])) == data[..AES_BLOCK];
      EcbRoundTrip(key, data[AES_BLOCK..]);
      assert data == data[..AES_BLOCK] + data[AES_BLOCK..];
    }
  }

  lemma {:induction false} EcbConcat(key: Key, a: seq<byte>, b: seq<byte>, k: nat)
    requires |a| == AES_BLOCK * k
    ensures EcbEncrypt(key, a + b) == EcbEncrypt(key, a) + EcbEncrypt(key, b)
    ensures EcbDecrypt(key, a + b) == EcbDecrypt(key, a) + EcbDecrypt(key, b)
  {
    if k == 0 {
      assert a + b == b;
    } else {
      assert (a + b)[..AES_BLOCK] == a[..AES_BLOCK] && (a + b)[AES_BLOCK..] == a[AES_BLOCK..] + b;
      EcbConcat(key, a[AES_BLOCK..], b, k - 1);
    }
  }

  // ---------------------------------------------------------------- padding

  function PadLength(n: nat): (r: nat)
    ensures 1 <= r <= AES_BLOCK && (n + r) % AES_BLOCK == 0
  {
    AES_BLOCK - n % AES_BLOCK
  }

  function Pad(data: seq<byte>): (r: seq<byte>)
    ensures |r| % AES_BLOCK == 0 && |r| == |data| + PadLength(|data|)
  {
    data + seq(PadLength(|data|), i => PadLength(|data|))
  }

  /** Strips the padding; fails as the library does when the last bytes are no padding. */
  function Unpad(data: seq<byte>): (r: Result<seq<byte>>)
    requires |data| >= AES_BLOCK
    ensures r.Ok? ==> |data| - AES_BLOCK <= |r.value| < |data|
  {
    var n := data[|data| - 1];
    if n == 0 || n > AES_BLOCK || exists i :: |data| - n <= i < |data| && data[i] != n then Err(TransformFailed)
    else Ok(data[..|data| - n])
  }

  /** Padding is undone by stripping it, and whatever stripping accepts was padding; anything else fails. */
  lemma UnpadInvertsPad(data: seq<byte>)
    ensures Unpad(Pad(data)) == Ok(data)
    ensures |data| >= AES_BLOCK && Unpad(data).Err? ==> Unpad(data) == Err(TransformFailed)
    ensures |data| % AES_BLOCK == 0 && |data| > 0 && Unpad(data).Ok? ==> Pad(Unpad(data).value) == data
  {
    assert Pad(data)[..|data|] == data;
    if |data| % AES_BLOCK == 0 && |data| > 0 && Unpad(data).Ok? {
      var n := data[|data| - 1];
      var body := Unpad(data).value;
      assert PadLength(|body|) == n;
      assert data == body + data[|data| - n..];
      assert data[|data| - n..] == seq(n, i => n);
    }
  }
}
