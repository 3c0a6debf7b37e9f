/**
 The three crypto providers as functions: whole-buffer encryption and decryption that start at a block
 number, with the argument checks that make them throw. Their loops over buffers are in ProviderLoops.
 */
module Providers {
  import opened Bytes
  import opened Wrappers
  import opened BlockCipher

  const CBC4K_BLOCK: nat := 4096
  const CBC512_BLOCK: nat := 512

  // ---------------------------------------------------------------- single blocks

  /** What happens to one block with a given number. */
  type Transform = (seq<byte>, nat) -> seq<byte>

  /** The block number is a 32-bit integer; its four bytes open the vector input. */
  function Iv4k(key: Key, n: nat): Block {
    key.encrypt(LittleEndian(n % TWO_32, 4) + Zeros(12))
  }

  /** Here the vector input opens with the 64-bit byte number of the block. */
  function Iv512(key: Key, n: nat): Block {
    key.encrypt(LittleEndian(n % TWO_32 * CBC512_BLOCK, 8) + Zeros(8))
  }

  function Encrypt4k(key: Key): Transform {
    (d: seq<byte>, n: nat) => CbcEncrypt(key, d, Iv4k(key, n))
  }

  function Decrypt4k(key: Key): Transform {
    (d: seq<byte>, n: nat) => CbcDecrypt(key, d, Iv4k(key, n))
  }

  function Encrypt512(key: Key): Transform {
    (d: seq<byte>, n: nat) => CbcEncrypt(key, d, Iv512(key, n))
  }

  function Decrypt512(key: Key): Transform {
    (d: seq<byte>, n: nat) => CbcDecrypt(key, d, Iv512(key, n))
  }

  /** Both transforms keep the length of whole cipher blocks and the second undoes the first. */
  ghost predicate Inverse(enc: Transform, dec: Transform) {
    && (forall d: seq<byte>, n: nat :: |d| % AES_BLOCK == 0 ==> |enc(d, n)| == |d|)
    && (forall d: seq<byte>, n: nat :: |d| % AES_BLOCK == 0 ==> |dec(d, n)| == |d|)
    && (forall d: seq<byte>, n: nat {:trigger dec(enc(d, n), n)} :: |d| % AES_BLOCK == 0 ==> dec(enc(d, n), n) == d)
  }

  lemma TransformsInverse(key: Key)
    ensures Inverse(Encrypt4k(key), Decrypt4k(key))
    ensures Inverse(Encrypt512(key), Decrypt512(key))
  {
    forall d: seq<byte>, n: nat | |d| % AES_BLOCK == 0
      ensures Decrypt4k(key)(Encrypt4k(key)(d, n), n) == d
    {
      CbcRoundTrip(key, d, Iv4k(key, n));
    }
    forall d: seq<byte>, n: nat | |d| % AES_BLOCK == 0
      ensures Decrypt512(key)(Encrypt512(key)(d, n), n) == d
    {
      CbcRoundTrip(key, d, Iv512(key, n));
    }
  }

  // ---------------------------------------------------------------- block loops

  function Cbc4kEncrypt(enc: Transform, data: seq<byte>, n: nat, isFinal: bool): seq<byte> {
    if |data| >= CBC4K_BLOCK then
      enc(data[..CBC4K_BLOCK], n) + Cbc4kEncrypt(enc, data[CBC4K_BLOCK..], n + 1, isFinal)
    else if isFinal then enc(Pad(data), n)
    else []
  }

  function Cbc4kDecrypt(dec: Transform, data: seq<byte>, n: nat, isFinal: bool): Result<seq<byte>> {
    if if isFinal then |data| > CBC4K_BLOCK else |data| >= CBC4K_BLOCK then
      Prefixed(dec(data[..CBC4K_BLOCK], n), Cbc4kDecrypt(dec, data[CBC4K_BLOCK..], n + 1, isFinal))
    else if !isFinal then Ok([])
    else if |data| < AES_BLOCK then Err(InvalidArgument)
    else DecryptFinal(dec, data, n)
  }

  function DecryptFinal(dec: Transform, data: seq<byte>, n: nat): Result<seq<byte>> {
    var plain := dec(data, n);
    if |plain| < AES_BLOCK then Err(InvalidArgument) else Unpad(plain)
  }

  function Prefixed(front: seq<byte>, r: Result<seq<byte>>): Result<seq<byte>> {
    match r
    case Ok(d) => Ok(front + d)
    case Err(e) => Err(e)
  }

  function Cbc512Encrypt(enc: Transform, data: seq<byte>, n: nat): seq<byte> {
    if |data| > CBC512_BLOCK then
      enc(data[..CBC512_BLOCK], n) + Cbc512Encrypt(enc, data[CBC512_BLOCK..], n + 1)
    else enc(data, n)
  }

  function Cbc512Decrypt(dec: Transform, data: seq<byte>, n: nat): seq<byte> {
    if |data| >= CBC512_BLOCK then
      dec(data[..CBC512_BLOCK], n) + Cbc512Decrypt(dec, data[CBC512_BLOCK..], n + 1)
    else if |data| > 0 then dec(data, n)
    else []
  }

  // ---------------------------------------------------------------- lengths

  lemma {:induction false} Cbc4kLength(enc: Transform, dec: Transform, data: seq<byte>, n: nat)
    requires Inverse(enc, dec)
    ensures |Cbc4kEncrypt(enc, data, n, true)| == |data| + PadLength(|data|)
    ensures |data| % CBC4K_BLOCK == 0 ==> |Cbc4kEncrypt(enc, data, n, false)| == |data|
  {
    hide Pad, PadLength;
    if |data| >= CBC4K_BLOCK {
      Cbc4kLength(enc, dec, data[CBC4K_BLOCK..], n + 1);
      PadLengthOneOn(|data| - CBC4K_BLOCK);
      AddMultiple4096(1, |data| - CBC4K_BLOCK);
    }
  }

  lemma PadLengthOneOn(n: nat)
    ensures PadLength(n + 4096) == PadLength(n)
  {
    AddMultiple16(256, n);
  }

  lemma {:induction false} Cbc512Length(enc: Transform, dec: Transform, data: seq<byte>, n: nat)
    requires Inverse(enc, dec) && |data| % AES_BLOCK == 0
    ensures |Cbc512Encrypt(enc, data, n)| == |data|
    ensures |Cbc512Decrypt(dec, data, n)| == |data|
  {
    if |data| >= CBC512_BLOCK {
      Cbc512Length(enc, dec, data[CBC512_BLOCK..], n + 1);
    }
  }

  lemma {:induction false} Cbc4kDecryptLength(enc: Transform, dec: Transform, data: seq<byte>, n: nat, isFinal: bool)
    requires Inverse(enc, dec) && |data| % AES_BLOCK == 0
    requires isFinal || |data| % CBC4K_BLOCK == 0
    ensures var r := Cbc4kDecrypt(dec, data, n, isFinal);
            r.Ok? ==> if isFinal then |data| - AES_BLOCK <= |r.value| < |data| else |r.value| == |data|
  {
    if |data| >= CBC4K_BLOCK {
      Cbc4kDecryptLength(enc, dec, data[CBC4K_BLOCK..], n + 1, isFinal);
    }
  }

  // ---------------------------------------------------------------- round trip

  lemma {:induction false} Cbc4kRoundTrip(enc: Transform, dec: Transform, data: seq<byte>, n: nat, isFinal: bool)
    requires Inverse(enc, dec)
    requires isFinal || |data| % CBC4K_BLOCK == 0
    ensures Cbc4kDecrypt(dec, Cbc4kEncrypt(enc, data, n, isFinal), n, isFinal) == Ok(data)
  {
    if |data| >= CBC4K_BLOCK {
      var head, tail := data[..CBC4K_BLOCK], data[CBC4K_BLOCK..];
      var eh, et := enc(head, n), Cbc4kEncrypt(enc, tail, n + 1, isFinal);
      Cbc4kRoundTrip(enc, dec, tail, n + 1, isFinal);
      Cbc4kLength(enc, dec, tail, n + 1);
      assert (eh + et)[..CBC4K_BLOCK] == eh && (eh + et)[CBC4K_BLOCK..] == et;
      assert data == head + tail;
    } else if isFinal {
      UnpadInvertsPad(data);
    }
  }

  lemma {:induction false} Cbc512RoundTrip(enc: Transform, dec: Transform, data: seq<byte>, n: nat)
    requires Inverse(enc, dec) && |data| % AES_BLOCK == 0
    ensures Cbc512Decrypt(dec, Cbc512Encrypt(enc, data, n), n) == data
  {
    if |data| > CBC512_BLOCK {
      var head, tail := data[..CBC512_BLOCK], data[CBC512_BLOCK..];
      var eh, et := enc(head, n), Cbc512Encrypt(enc, tail, n + 1);
      Cbc512RoundTrip(enc, dec, tail, n + 1);
      assert (eh + et)[..CBC512_BLOCK] == eh && (eh + et)[CBC512_BLOCK..] == et;
      assert data == head + tail;
    } else if |data| == CBC512_BLOCK {
      assert enc(data, n)[..CBC512_BLOCK] == enc(data, n);
    }
  }

  // ---------------------------------------------------------------- composition

  lemma {:induction false} Cbc4kConcat(enc: Transform, a: seq<byte>, b: seq<byte>, n: nat, k: nat, isFinal: bool)
    requires |a| == CBC4K_BLOCK * k
    ensures Cbc4kEncrypt(enc, a + b, n, isFinal)
         == Cbc4kEncrypt(enc, a, n, false) + Cbc4kEncrypt(enc, b, n + k, isFinal)
  {
    if k == 0 {
      assert a + b == b;
    } else {
      var head, tail := a[..CBC4K_BLOCK], a[CBC4K_BLOCK..];
      assert (a + b)[..CBC4K_BLOCK] == head && (a + b)[CBC4K_BLOCK..] == tail + b;
      Cbc4kConcat(enc, tail, b, n + 1, k - 1, isFinal);
    }
  }

  lemma {:induction false} Cbc4kDecryptConcat(dec: Transform, a: seq<byte>, b: seq<byte>, n: nat, k: nat, isFinal: bool)
    requires |a| == CBC4K_BLOCK * k
    requires isFinal ==> b != []
    ensures Cbc4kDecrypt(dec, a, n, false).Ok?
    ensures Cbc4kDecrypt(dec, a + b, n, isFinal)
         == Prefixed(Cbc4kDecrypt(dec, a, n, false).value, Cbc4kDecrypt(dec, b, n + k, isFinal))
  {
    if k == 0 {
      assert a + b == b;
      var r := Cbc4kDecrypt(dec, b, n, isFinal);
      assert r.Ok? ==> [] + r.value == r.value;
    } else {
      var head, tail := a[..CBC4K_BLOCK], a[CBC4K_BLOCK..];
      assert (a + b)[..CBC4K_BLOCK] == head && (a + b)[CBC4K_BLOCK..] == tail + b;
      Cbc4kDecryptConcat(dec, tail, b, n + 1, k - 1, isFinal);
      var x, y, z := dec(head, n), Cbc4kDecrypt(dec, tail, n + 1, false).value, Cbc4kDecrypt(dec, b, n + k, isFinal);
      assert Cbc4kDecrypt(dec, a + b, n, isFinal) == Prefixed(x, Prefixed(y, z));
      assert z.Ok? ==> x + (y + z.value) == (x + y) + z.value;
    }
  }

  lemma {:induction false} Cbc512Concat(enc: Transform, a: seq<byte>, b: seq<byte>, n: nat, k: nat)
    requires |a| == CBC512_BLOCK * k && enc([], n + k) == []
    ensures Cbc512Encrypt(enc, a + b, n)
         == (if k == 0 then [] else Cbc512Encrypt(enc, a, n)) + Cbc512Encrypt(enc, b, n + k)
  {
    if k == 0 {
      assert a + b == b;
    } else if k == 1 && b == [] {
      assert a + b == a;
    } else {
      var head, tail := a[..CBC512_BLOCK], a[CBC512_BLOCK..];
      assert (a + b)[..CBC512_BLOCK] == head && (a + b)[CBC512_BLOCK..] == tail + b;
      Cbc512Concat(enc, tail, b, n + 1, k - 1);
      if k == 1 {
        assert head == a && tail + b == b;
      }
    }
  }

  lemma {:induction false} Cbc512DecryptConcat(dec: Transform, a: seq<byte>, b: seq<byte>, n: nat, k: nat)
    requires |a| == CBC512_BLOCK * k
    ensures Cbc512Decrypt(dec, a + b, n) == Cbc512Decrypt(dec, a, n) + Cbc512Decrypt(dec, b, n + k)
  {
    if k == 0 {
      assert a + b == b;
    } else {
      var head, tail := a[..CBC512_BLOCK], a[CBC512_BLOCK..];
      assert (a + b)[..CBC512_BLOCK] == head && (a + b)[CBC512_BLOCK..] == tail + b;
      assert Cbc512Decrypt(dec, a, n) == dec(head, n) + Cbc512Decrypt(dec, tail, n + 1);
      assert Cbc512Decrypt(dec, a + b, n) == dec(head, n) + Cbc512Decrypt(dec, tail + b, n + 1);
      Cbc512DecryptConcat(dec, tail, b, n + 1, k - 1);
    }
  }

  // ---------------------------------------------------------------- providers

  datatype Mode = Cbc4k | Ecb | Cbc512NoPadding

  /**
   What the source leaves to its platform: the bytes that the cipher library leaves behind the plain text when it takes
   padding off, in terms of those that stood there and of the ciphertext, and the value of a byte that is never set.
   */
  datatype Platform = Platform(behind: (seq<byte>, seq<byte>) -> seq<byte>, unset: byte)

  datatype Provider = Provider(mode: Mode, key: Key, platform: Platform) {

    /** GetBlockSize of the provider. */
    function BlockSize(): (r: nat)
      ensures r > 0 && r % AES_BLOCK == 0
    {
      match mode
      case Cbc4k => CBC4K_BLOCK
      case Ecb => AES_BLOCK
      case Cbc512NoPadding => CBC512_BLOCK
    }

    /** The cache block that the stream factories choose for the provider. */
    function CacheBlock(): (r: nat)
      ensures r == 512 || r == 4096
      ensures r % BlockSize() == 0
    {
      if BlockSize() == 512 then 512 else 4096
    }

    predicate Padded() {
      mode.Cbc4k?
    }

    /** The lengths that a final encryption accepts. */
    predicate Legal(length: nat) {
      Padded() || length % AES_BLOCK == 0
    }

    /** The lengths that a non-final encryption accepts. */
    predicate Aligned(length: nat) {
      match mode
      case Cbc4k => length % CBC4K_BLOCK == 0
      case Ecb => length % AES_BLOCK == 0
      case Cbc512NoPadding => length % CBC512_BLOCK == 0
    }

    /** Length of k provider blocks. */
    function Blocks(k: nat): nat {
      match mode
      case Cbc4k => CBC4K_BLOCK * k
      case Ecb => AES_BLOCK * k
      case Cbc512NoPadding => CBC512_BLOCK * k
    }

    function GetCipherTextSize(length: nat): Result<nat> {
      match mode
      case Cbc4k => Ok((length / AES_BLOCK + 1) * AES_BLOCK)
      case Ecb => Ok(length)
      case Cbc512NoPadding =>
        if length == 0 || length % AES_BLOCK != 0 then Err(InvalidArgument) else Ok(length)
    }

    /** Length of a final ciphertext. */
    function CipherSize(length: nat): nat {
      if Padded() then length + PadLength(length) else length
    }

    /** The bytes that encryption produces once its arguments are accepted. */
    function Cipher(data: seq<byte>, n: nat, isFinal: bool): seq<byte> {
      match mode
      case Cbc4k => Cbc4kEncrypt(Encrypt4k(key), data, n, isFinal)
      case Ecb => EcbEncrypt(key, data)
      case Cbc512NoPadding => Cbc512Encrypt(Encrypt512(key), data, n)
    }

    function Encrypt(data: seq<byte>, n: nat, isFinal: bool): Result<seq<byte>> {
      if (if isFinal then Legal(|data|) else Aligned(|data|)) then Ok(Cipher(data, n, isFinal))
      else Err(InvalidArgument)
    }

    /** What decryption produces once its arguments are accepted. */
    function Decipher(data: seq<byte>, n: nat, isFinal: bool): Result<seq<byte>> {
      match mode
      case Cbc4k => Cbc4kDecrypt(Decrypt4k(key), data, n, isFinal)
      case Ecb => Ok(EcbDecrypt(key, data))
      case Cbc512NoPadding => Ok(Cbc512Decrypt(Decrypt512(key), data, n))
    }

    /** What a decryption of `data` leaves behind the plain bytes, where `was` stood. */
    function Behind(was: seq<byte>, data: seq<byte>, isFinal: bool): (r: seq<byte>)
      ensures |r| == |was|
      ensures !Padded() || !isFinal ==> r == was
    {
      if Padded() && isFinal && |platform.behind(was, data)| == |was| then platform.behind(was, data) else was
    }

    function Decrypt(data: seq<byte>, n: nat, isFinal: bool): Result<seq<byte>> {
      if (!isFinal && !Aligned(|data|)) || |data| % AES_BLOCK != 0 then Err(InvalidArgument)
      else Decipher(data, n, isFinal)
    }
  }

  /** Exactly which lengths each provider encrypts; when not final, the multiples of its block size. */
  lemma EncryptAccepts(p: Provider, data: seq<byte>, n: nat, isFinal: bool)
    ensures p.Encrypt(data, n, isFinal)
         == if match p.mode
              case Cbc4k => isFinal || |data| % 4096 == 0
              case Ecb => |data| % 16 == 0
              case Cbc512NoPadding => |data| % (if isFinal then 16 else 512) == 0
            then Ok(p.Cipher(data, n, isFinal)) else Err(InvalidArgument)
    ensures p.Encrypt(data, n, false).Ok? <==> |data| % p.BlockSize() == 0
  {
    hide Provider.Cipher;
  }

  /** Exactly which lengths each provider decrypts; what is final and padded can still fail for its padding. */
  lemma DecryptAccepts(p: Provider, data: seq<byte>, n: nat, isFinal: bool, legal: bool)
    requires legal == match p.mode
                      case Cbc4k => |data| % (if isFinal then 16 else 4096) == 0
                      case Ecb => |data| % 16 == 0
                      case Cbc512NoPadding => |data| % (if isFinal then 16 else 512) == 0
    ensures p.Decrypt(data, n, isFinal) == if legal then p.Decipher(data, n, isFinal) else Err(InvalidArgument)
    ensures legal && !(p.mode.Cbc4k? && isFinal) ==> p.Decrypt(data, n, isFinal).Ok?
  {
    hide Provider.Decipher;
    WholeBlocks(|data|);
    if legal && !(p.mode.Cbc4k? && isFinal) {
      DeciphersLegal(p, data, n, isFinal);
    }
  }

  lemma WholeBlocks(n: nat)
    ensures n % 4096 == 0 || n % 512 == 0 ==> n % 16 == 0
  {
    if n % 4096 == 0 {
      assert n == 16 * (256 * (n / 4096)) + 0;
      AddMultiple16(256 * (n / 4096), 0);
    } else if n % 512 == 0 {
      assert n == 16 * (32 * (n / 512)) + 0;
      AddMultiple16(32 * (n / 512), 0);
    }
  }

  lemma DeciphersLegal(p: Provider, data: seq<byte>, n: nat, isFinal: bool)
    requires p.mode.Cbc4k? ==> !isFinal && |data| % 4096 == 0
    ensures p.Decipher(data, n, isFinal).Ok?
  {
    if p.mode.Cbc4k? {
      DecipherConcat(p, data, [], n, |data| / 4096, false);
    }
  }

  /** The size that is asked for before the encryption of a last buffer. */
  lemma AnnouncedSize(p: Provider, n: nat)
    ensures p.GetCipherTextSize(n)
         == match p.mode
            case Cbc4k => Ok(n + 16 - n % 16)
            case Ecb => Ok(n)
            case Cbc512NoPadding => if n > 0 && n % 16 == 0 then Ok(n) else Err(InvalidArgument)
  {
  }

  lemma CipherLength(p: Provider, data: seq<byte>, n: nat, isFinal: bool)
    requires p.Encrypt(data, n, isFinal).Ok?
    ensures |p.Cipher(data, n, isFinal)| == if isFinal then p.CipherSize(|data|) else |data|
  {
    TransformsInverse(p.key);
    match p.mode
    case Cbc4k => Cbc4kLength(Encrypt4k(p.key), Decrypt4k(p.key), data, n);
    case Ecb =>
    case Cbc512NoPadding => Cbc512Length(Encrypt512(p.key), Decrypt512(p.key), data, n);
  }

  /** Decryption undoes encryption, and the announced size is the size produced. */
  lemma RoundTrip(p: Provider, data: seq<byte>, n: nat, isFinal: bool)
    requires p.Encrypt(data, n, isFinal).Ok?
    ensures p.Decrypt(p.Encrypt(data, n, isFinal).value, n, isFinal) == Ok(data)
    ensures isFinal && p.GetCipherTextSize(|data|).Ok? ==>
              |p.Encrypt(data, n, isFinal).value| == p.GetCipherTextSize(|data|).value
  {
    hide Encrypt4k, Decrypt4k, Encrypt512, Decrypt512, Cbc4kEncrypt, Cbc4kDecrypt, Cbc512Encrypt, Cbc512Decrypt,
         EcbEncrypt, EcbDecrypt, Inverse;
    CipherLength(p, data, n, isFinal);
    TransformsInverse(p.key);
    match p.mode
    case Cbc4k => Cbc4kRoundTrip(Encrypt4k(p.key), Decrypt4k(p.key), data, n, isFinal);
    case Ecb => EcbRoundTrip(p.key, data);
    case Cbc512NoPadding => Cbc512RoundTrip(Encrypt512(p.key), Decrypt512(p.key), data, n);
  }

  /** Unpadded modes keep the length when decrypting; the padded mode loses 1 to 16 bytes when final. */
  lemma DecryptLength(p: Provider, data: seq<byte>, n: nat, isFinal: bool)
    requires p.Decrypt(data, n, isFinal).Ok?
    ensures var r := |p.Decrypt(data, n, isFinal).value|;
            if p.Padded() && isFinal then |data| - AES_BLOCK <= r < |data| else r == |data|
  {
    TransformsInverse(p.key);
    match p.mode
    case Cbc4k => Cbc4kDecryptLength(Encrypt4k(p.key), Decrypt4k(p.key), data, n, isFinal);
    case Ecb =>
    case Cbc512NoPadding => Cbc512Length(Encrypt512(p.key), Decrypt512(p.key), data, n);
  }

  lemma AddMultiple16(k: nat, x: nat)
    ensures (16 * k + x) % 16 == x % 16
  {
  }

  lemma AddMultiple512(k: nat, x: nat)
    ensures (512 * k + x) % 512 == x % 512
  {
  }

  lemma AddMultiple4096(k: nat, x: nat)
    ensures (4096 * k + x) % 4096 == x % 4096
  {
  }

  /** Whole blocks in front change neither alignment nor legality. */
  lemma BlocksAreAligned(p: Provider, k: nat, x: nat)
    ensures p.Aligned(p.Blocks(k)) && p.Legal(p.Blocks(k))
    ensures p.Aligned(p.Blocks(k) + x) == p.Aligned(x)
    ensures p.Legal(p.Blocks(k) + x) == p.Legal(x)
    ensures (p.Blocks(k) + x) % AES_BLOCK == x % AES_BLOCK
  {
    match p.mode
    case Cbc4k =>
      assert p.Blocks(k) == 16 * (256 * k);
      AddMultiple16(256 * k, x);
      AddMultiple16(256 * k, 0);
      AddMultiple4096(k, x);
      AddMultiple4096(k, 0);
    case Ecb =>
      AddMultiple16(k, x);
      AddMultiple16(k, 0);
    case Cbc512NoPadding =>
      assert p.Blocks(k) == 16 * (32 * k);
      AddMultiple16(32 * k, x);
      AddMultiple16(32 * k, 0);
      AddMultiple512(k, x);
      AddMultiple512(k, 0);
  }

  /**
   Encrypting a buffer is encrypting its front of k blocks and then the rest, the rest numbered from where
   the front ends.
   */
  lemma EncryptComposition(p: Provider, a: seq<byte>, b: seq<byte>, n: nat, k: nat, isFinal: bool)
    requires |a| == p.Blocks(k)
    ensures p.Encrypt(a, n, false).Ok?
    ensures p.Encrypt(a + b, n, isFinal) == Prefixed(p.Encrypt(a, n, false).value, p.Encrypt(b, n + k, isFinal))
  {
    BlocksAreAligned(p, k, |b|);
    match p.mode
    case Cbc4k => Cbc4kConcat(Encrypt4k(p.key), a, b, n, k, isFinal);
    case Ecb => EcbConcat(p.key, a, b, k);
    case Cbc512NoPadding => Cbc512Concat(Encrypt512(p.key), a, b, n, k);
  }

  lemma DecipherConcat(p: Provider, a: seq<byte>, b: seq<byte>, n: nat, k: nat, isFinal: bool)
    requires |a| == p.Blocks(k)
    requires b != [] || !isFinal || !p.Padded()
    ensures p.Decipher(a, n, false).Ok?
    ensures p.Decipher(a + b, n, isFinal) == Prefixed(p.Decipher(a, n, false).value, p.Decipher(b, n + k, isFinal))
  {
    match p.mode
    case Cbc4k => Cbc4kDecryptConcat(Decrypt4k(p.key), a, b, n, k, isFinal);
    case Ecb => EcbConcat(p.key, a, b, k);
    case Cbc512NoPadding => Cbc512DecryptConcat(Decrypt512(p.key), a, b, n, k);
  }

  /**
   The same for decryption. Only a padded final decryption needs a rest that is not empty, because its last
   block is never decrypted in the loop.
   */
  lemma DecryptComposition(p: Provider, a: seq<byte>, b: seq<byte>, n: nat, k: nat, isFinal: bool)
    requires |a| == p.Blocks(k)
    requires b != [] || !isFinal || !p.Padded()
    ensures p.Decrypt(a, n, false).Ok?
    ensures p.Decrypt(a + b, n, isFinal) == Prefixed(p.Decrypt(a, n, false).value, p.Decrypt(b, n + k, isFinal))
  {
    BlocksAreAligned(p, k, |b|);
    BlocksAreAligned(p, k, 0);
    DecipherConcat(p, a, b, n, k, isFinal);
    assert |a + b| == p.Blocks(k) + |b|;
  }
}
