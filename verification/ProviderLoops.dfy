/**
 The providers' Encrypt and Decrypt as the original runs them: a loop that advances through the input block
 by block, counts block numbers up and stores into the caller's buffer. Each is proved to store exactly what
 the functions in Providers say, and to throw exactly when they do or when the buffer is too short. A null
 buffer asks for the size only.
 */
module ProviderLoops {
  import opened Bytes
  import opened Wrappers
  import opened BlockCipher
  import opened Providers

  /** Copies `bytes` into `buffer` from position `at` on. */
  method Store(buffer: array<byte>, at: nat, bytes: seq<byte>)
    requires at + |bytes| <= buffer.Length
    modifies buffer
    ensures buffer[..at + |bytes|] == old(buffer[..at]) + bytes
    ensures buffer[at + |bytes|..] == old(buffer[at + |bytes|..])
  {
    forall i | 0 <= i < |bytes| {
      buffer[at + i] := bytes[i];
    }
  }

  /** Splits off what is left at position i after one more block. */
  lemma Advance(s: seq<byte>, i: nat, k: nat)
    requires i + k <= |s|
    ensures s[i..][..k] == s[i..i + k] && s[i..][k..] == s[i + k..]
  {
  }

  method Cbc4kEncryptLoop(p: Provider, pbIn: seq<byte>, startBlock: nat, isFinal: bool, pbOut: array?<byte>)
    returns (r: Result<nat>)
    requires p.mode.Cbc4k?
    modifies pbOut
    ensures var spec := p.Encrypt(pbIn, startBlock, isFinal);
            && (r.Ok? <==> spec.Ok? && (pbOut != null ==> |spec.value| <= pbOut.Length))
            && (r.Ok? ==> r.value == |spec.value|)
            && (r.Ok? && pbOut != null ==> pbOut[..r.value] == spec.value)
            && (r.Ok? && pbOut != null ==> pbOut[r.value..] == old(pbOut[r.value..]))
  {
    hide Cbc4kEncrypt, CbcEncrypt, Encrypt4k, Decrypt4k, Pad, PadLength, Inverse, LittleEndian;
    if !isFinal && |pbIn| % CBC4K_BLOCK != 0 {
      return Err(InvalidArgument);
    }
    var encryptBlock := Encrypt4k(p.key);
    ghost var all := Cbc4kEncrypt(encryptBlock, pbIn, startBlock, isFinal);
    TransformsInverse(p.key);
    Cbc4kLength(encryptBlock, Decrypt4k(p.key), pbIn, startBlock);
    var cbRequired := if isFinal then (|pbIn| / AES_BLOCK + 1) * AES_BLOCK else |pbIn|;
    assert cbRequired == |all|;
    if pbOut == null {
      return Ok(cbRequired);
    }
    if pbOut.Length < cbRequired {
      return Err(InvalidArgument);
    }
    var i, n := 0, startBlock;
    assert pbIn[0..] == pbIn;
    while |pbIn| - i >= CBC4K_BLOCK
      invariant i <= |pbIn| && i <= pbOut.Length
      invariant all == pbOut[..i] + Cbc4kEncrypt(encryptBlock, pbIn[i..], n, isFinal)
      invariant pbOut[i..] == old(pbOut[i..])
    {
      Cbc4kEncryptStep(encryptBlock, Decrypt4k(p.key), pbIn[i..], n, isFinal);
      Advance(pbIn, i, CBC4K_BLOCK);
      Store(pbOut, i, encryptBlock(pbIn[i..i + CBC4K_BLOCK], n));
      i, n := i + CBC4K_BLOCK, n + 1;
    }
    Cbc4kEncryptStep(encryptBlock, Decrypt4k(p.key), pbIn[i..], n, isFinal);
    if isFinal {
      var last := encryptBlock(Pad(pbIn[i..]), n);
      Store(pbOut, i, last);
      i := i + |last|;
    }
    assert all == pbOut[..i];
    r := Ok(i);
  }

  lemma Cbc4kEncryptStep(enc: Transform, dec: Transform, rest: seq<byte>, n: nat, isFinal: bool)
    requires Inverse(enc, dec)
    ensures if |rest| >= CBC4K_BLOCK then
              && |enc(rest[..CBC4K_BLOCK], n)| == CBC4K_BLOCK
              && Cbc4kEncrypt(enc, rest, n, isFinal)
              == enc(rest[..CBC4K_BLOCK], n) + Cbc4kEncrypt(enc, rest[CBC4K_BLOCK..], n + 1, isFinal)
            else Cbc4kEncrypt(enc, rest, n, isFinal) == if isFinal then enc(Pad(rest), n) else []
  {
  }

  method Cbc4kDecryptLoop(p: Provider, pbIn: seq<byte>, startBlock: nat, isFinal: bool, pbOut: array?<byte>)
    returns (r: Result<nat>)
    requires p.mode.Cbc4k?
    modifies pbOut
    ensures var spec := p.Decrypt(pbIn, startBlock, isFinal);
            && (pbOut != null ==> (r.Ok? <==> spec.Ok? && |pbIn| <= pbOut.Length))
            && (pbOut != null && r.Ok? ==> r.value == |spec.value| <= |pbIn|)
            && (pbOut != null && r.Ok? ==> pbOut[..r.value] == spec.value)
            && (pbOut != null && r.Ok? ==> pbOut[r.value..] == p.Behind(old(pbOut[r.value..]), pbIn, isFinal))
    ensures pbOut == null && r.Ok? ==> r.value == |pbIn|
    ensures pbOut == null ==> (r.Ok? <==> |pbIn| % AES_BLOCK == 0 && (isFinal || |pbIn| % CBC4K_BLOCK == 0))
  {
    hide Cbc4kDecrypt, CbcDecrypt, Decrypt4k, DecryptFinal, Inverse, Provider.Behind;
    if !isFinal && |pbIn| % CBC4K_BLOCK != 0 {
      return Err(InvalidArgument);
    }
    if |pbIn| % AES_BLOCK != 0 {
      return Err(InvalidArgument);
    }
    if pbOut == null {
      return Ok(|pbIn|);
    }
    if pbOut.Length < |pbIn| {
      return Err(InsufficientBuffer);
    }
    var decryptBlock := Decrypt4k(p.key);
    ghost var all := Cbc4kDecrypt(decryptBlock, pbIn, startBlock, isFinal);
    TransformsInverse(p.key);
    Cbc4kDecryptLength(Encrypt4k(p.key), decryptBlock, pbIn, startBlock, isFinal);
    var i, n := 0, startBlock;
    assert pbIn[0..] == pbIn;
    assert all == Prefixed(pbOut[..0], all) by {
      assert all.Ok? ==> [] + all.value == all.value;
    }
    while if isFinal then |pbIn| - i > CBC4K_BLOCK else |pbIn| - i >= CBC4K_BLOCK
      invariant i <= |pbIn|
      invariant all == Prefixed(pbOut[..i], Cbc4kDecrypt(decryptBlock, pbIn[i..], n, isFinal))
      invariant pbOut[i..] == old(pbOut[i..])
      decreases |pbIn| - i
    {
      Cbc4kDecryptStep(Encrypt4k(p.key), decryptBlock, pbIn[i..], n, isFinal);
      Advance(pbIn, i, CBC4K_BLOCK);
      ghost var done := pbOut[..i];
      var block := decryptBlock(pbIn[i..i + CBC4K_BLOCK], n);
      Store(pbOut, i, block);
      PrefixedTwice(done, block, Cbc4kDecrypt(decryptBlock, pbIn[i + CBC4K_BLOCK..], n + 1, isFinal));
      i, n := i + CBC4K_BLOCK, n + 1;
    }
    Cbc4kDecryptStep(Encrypt4k(p.key), decryptBlock, pbIn[i..], n, isFinal);
    if isFinal {
      if |pbIn| - i < AES_BLOCK {
        return Err(InvalidArgument);
      }
      var last := DecryptFinal(decryptBlock, pbIn[i..], n);
      if last.Err? {
        return Err(last.error);
      }
      ghost var done := pbOut[..i];
      assert pbOut[i + |last.value|..] == old(pbOut[i + |last.value|..]) by {
        assert pbOut[i..][|last.value|..] == old(pbOut[i..])[|last.value|..];
      }
      Unpadded(p, pbIn, last.value, pbOut, i);
      i := i + |last.value|;
      assert pbOut[..i] == done + last.value;
    } else {
      assert pbOut[..i] + [] == pbOut[..i];
    }
    assert all == Ok(pbOut[..i]);
    r := Ok(i);
  }

  /** The library stores the plain bytes and leaves what it likes behind them. */
  method Unpadded(p: Provider, pbIn: seq<byte>, last: seq<byte>, pbOut: array<byte>, i: nat)
    requires i + |last| <= pbOut.Length
    modifies pbOut
    ensures pbOut[..i + |last|] == old(pbOut[..i]) + last
    ensures pbOut[i + |last|..] == p.Behind(old(pbOut[i + |last|..]), pbIn, true)
  {
    var rest := p.Behind(pbOut[i + |last|..], pbIn, true);
    Store(pbOut, i, last + rest);
    assert pbOut[..] == old(pbOut[..i]) + (last + rest);
  }

  lemma PrefixedTwice(a: seq<byte>, b: seq<byte>, r: Result<seq<byte>>)
    ensures Prefixed(a, Prefixed(b, r)) == Prefixed(a + b, r)
  {
    if r.Ok? {
      assert a + (b + r.value) == (a + b) + r.value;
    }
  }

  lemma Cbc4kDecryptStep(enc: Transform, dec: Transform, rest: seq<byte>, n: nat, isFinal: bool)
    requires Inverse(enc, dec)
    ensures if (if isFinal then |rest| > CBC4K_BLOCK else |rest| >= CBC4K_BLOCK) then
              && |dec(rest[..CBC4K_BLOCK], n)| == CBC4K_BLOCK
              && Cbc4kDecrypt(dec, rest, n, isFinal)
              == Prefixed(dec(rest[..CBC4K_BLOCK], n), Cbc4kDecrypt(dec, rest[CBC4K_BLOCK..], n + 1, isFinal))
            else if !isFinal then Cbc4kDecrypt(dec, rest, n, isFinal) == Ok([])
            else if |rest| < AES_BLOCK then Cbc4kDecrypt(dec, rest, n, isFinal).Err?
            else Cbc4kDecrypt(dec, rest, n, isFinal) == DecryptFinal(dec, rest, n)
  {
  }

  /** Bytes of the blocks before the last one, for which the loop checks the size of the buffer. */
  function LoopBytes(n: nat): nat {
    if n <= CBC512_BLOCK then 0 else CBC512_BLOCK + LoopBytes(n - CBC512_BLOCK)
  }

  /** Unlike the others this one does not check the size of the buffer for the last block. */
  method Cbc512EncryptLoop(p: Provider, pbIn: seq<byte>, startBlock: nat, isFinal: bool, pbOut: array?<byte>)
    returns (r: Result<nat>)
    requires p.mode.Cbc512NoPadding?
    modifies pbOut
    ensures var spec := p.Encrypt(pbIn, startBlock, isFinal);
            && (spec.Err? ==> r.Err?)
            && (spec.Ok? && pbOut != null && |pbIn| > pbOut.Length
                ==> r == Err(if pbOut.Length < LoopBytes(|pbIn|) then InvalidArgument else Undefined))
            && (spec.Ok? && (pbOut == null || |pbIn| <= pbOut.Length) ==> r == Ok(|pbIn|))
            && (r.Ok? ==> |spec.value| == |pbIn|)
            && (r.Ok? && pbOut != null ==> pbOut[..r.value] == spec.value)
            && (r.Ok? && pbOut != null ==> pbOut[r.value..] == old(pbOut[r.value..]))
  {
    hide Cbc512Encrypt, CbcEncrypt, Encrypt512, Inverse, LoopBytes;
    if !isFinal && |pbIn| % CBC512_BLOCK != 0 {
      return Err(InvalidArgument);
    }
    if |pbIn| % AES_BLOCK != 0 {
      return Err(InvalidArgument);
    }
    var encryptBlock := Encrypt512(p.key);
    ghost var all := Cbc512Encrypt(encryptBlock, pbIn, startBlock);
    TransformsInverse(p.key);
    Cbc512Length(encryptBlock, Decrypt512(p.key), pbIn, startBlock);
    if pbOut == null {
      return Ok(|pbIn|);
    }
    r := Cbc512EncryptBlocks(encryptBlock, Decrypt512(p.key), pbIn, startBlock, pbOut);
  }

  method Cbc512EncryptBlocks(encryptBlock: Transform, ghost dec: Transform, pbIn: seq<byte>, startBlock: nat,
      pbOut: array<byte>) returns (r: Result<nat>)
    requires Inverse(encryptBlock, dec) && |pbIn| % AES_BLOCK == 0
    modifies pbOut
    ensures |pbIn| > pbOut.Length
      ==> r == Err(if pbOut.Length < LoopBytes(|pbIn|) then InvalidArgument else Undefined)
    ensures |pbIn| <= pbOut.Length ==> r == Ok(|pbIn|)
    ensures r.Ok? ==> pbOut[..|pbIn|] == Cbc512Encrypt(encryptBlock, pbIn, startBlock)
    ensures r.Ok? ==> pbOut[|pbIn|..] == old(pbOut[|pbIn|..])
  {
    hide Cbc512Encrypt, Inverse;
    ghost var all := Cbc512Encrypt(encryptBlock, pbIn, startBlock);
    Cbc512Length(encryptBlock, dec, pbIn, startBlock);
    var i, n := 0, startBlock;
    assert pbIn[0..] == pbIn;
    while |pbIn| - i > CBC512_BLOCK
      invariant i <= |pbIn| && i <= pbOut.Length && LoopBytes(|pbIn|) == i + LoopBytes(|pbIn| - i)
      invariant all == pbOut[..i] + Cbc512Encrypt(encryptBlock, pbIn[i..], n)
      invariant pbOut[i..] == old(pbOut[i..])
    {
      if pbOut.Length - i < CBC512_BLOCK {
        return Err(InvalidArgument);
      }
      Cbc512EncryptStep(encryptBlock, dec, pbIn[i..], n);
      Advance(pbIn, i, CBC512_BLOCK);
      Store(pbOut, i, encryptBlock(pbIn[i..i + CBC512_BLOCK], n));
      i, n := i + CBC512_BLOCK, n + 1;
    }
    if pbOut.Length < |pbIn| {
      return Err(Undefined);
    }
    Cbc512EncryptStep(encryptBlock, dec, pbIn[i..], n);
    Store(pbOut, i, encryptBlock(pbIn[i..], n));
    r := Ok(|pbIn|);
  }

  lemma Cbc512EncryptStep(enc: Transform, dec: Transform, rest: seq<byte>, n: nat)
    requires Inverse(enc, dec)
    ensures if |rest| > CBC512_BLOCK then
              && |enc(rest[..CBC512_BLOCK], n)| == CBC512_BLOCK
              && Cbc512Encrypt(enc, rest, n)
              == enc(rest[..CBC512_BLOCK], n) + Cbc512Encrypt(enc, rest[CBC512_BLOCK..], n + 1)
            else Cbc512Encrypt(enc, rest, n) == enc(rest, n)
  {
  }

  method Cbc512DecryptLoop(p: Provider, pbIn: seq<byte>, startBlock: nat, isFinal: bool, pbOut: array?<byte>)
    returns (r: Result<nat>)
    requires p.mode.Cbc512NoPadding?
    modifies pbOut
    ensures var spec := p.Decrypt(pbIn, startBlock, isFinal);
            && (r.Ok? <==> spec.Ok? && (pbOut != null ==> |pbIn| <= pbOut.Length))
            && (r.Ok? ==> r.value == |spec.value| == |pbIn|)
            && (r.Ok? && pbOut != null ==> pbOut[..r.value] == spec.value)
            && (r.Ok? && pbOut != null ==> pbOut[r.value..] == old(pbOut[r.value..]))
  {
    hide Cbc512Decrypt, CbcDecrypt, Decrypt512, Inverse;
    if !isFinal && |pbIn| % CBC512_BLOCK != 0 {
      return Err(InvalidArgument);
    }
    if |pbIn| % AES_BLOCK != 0 {
      return Err(InvalidArgument);
    }
    var decryptBlock := Decrypt512(p.key);
    ghost var all := Cbc512Decrypt(decryptBlock, pbIn, startBlock);
    TransformsInverse(p.key);
    Cbc512Length(Encrypt512(p.key), decryptBlock, pbIn, startBlock);
    if pbOut == null {
      return Ok(|pbIn|);
    }
    if pbOut.Length < |pbIn| {
      return Err(InsufficientBuffer);
    }
    Cbc512DecryptBlocks(Encrypt512(p.key), decryptBlock, pbIn, startBlock, pbOut);
    r := Ok(|pbIn|);
  }

  method Cbc512DecryptBlocks(ghost enc: Transform, decryptBlock: Transform, pbIn: seq<byte>, startBlock: nat,
      pbOut: array<byte>)
    requires Inverse(enc, decryptBlock) && |pbIn| % AES_BLOCK == 0 && |pbIn| <= pbOut.Length
    modifies pbOut
    ensures pbOut[..|pbIn|] == Cbc512Decrypt(decryptBlock, pbIn, startBlock)
    ensures pbOut[|pbIn|..] == old(pbOut[|pbIn|..])
  {
    hide Cbc512Decrypt, Inverse;
    ghost var all := Cbc512Decrypt(decryptBlock, pbIn, startBlock);
    Cbc512Length(enc, decryptBlock, pbIn, startBlock);
    var i, n := 0, startBlock;
    assert pbIn[0..] == pbIn;
    while |pbIn| - i >= CBC512_BLOCK
      invariant i <= |pbIn|
      invariant all == pbOut[..i] + Cbc512Decrypt(decryptBlock, pbIn[i..], n)
      invariant pbOut[i..] == old(pbOut[i..])
    {
      Cbc512DecryptStep(enc, decryptBlock, pbIn[i..], n);
      Advance(pbIn, i, CBC512_BLOCK);
      Store(pbOut, i, decryptBlock(pbIn[i..i + CBC512_BLOCK], n));
      i, n := i + CBC512_BLOCK, n + 1;
    }
    Cbc512DecryptStep(enc, decryptBlock, pbIn[i..], n);
    if |pbIn| - i > 0 {
      Store(pbOut, i, decryptBlock(pbIn[i..], n));
    } else {
      assert pbOut[..i] + [] == pbOut[..i];
    }
  }

  lemma Cbc512DecryptStep(enc: Transform, dec: Transform, rest: seq<byte>, n: nat)
    requires Inverse(enc, dec)
    ensures if |rest| >= CBC512_BLOCK then
              && |dec(rest[..CBC512_BLOCK], n)| == CBC512_BLOCK
              && Cbc512Decrypt(dec, rest, n)
              == dec(rest[..CBC512_BLOCK], n) + Cbc512Decrypt(dec, rest[CBC512_BLOCK..], n + 1)
            else Cbc512Decrypt(dec, rest, n) == if |rest| > 0 then dec(rest, n) else []
  {
  }

  /** Block number and finality mean nothing to this provider. */
  method EcbTransform(p: Provider, encrypting: bool, pbIn: seq<byte>, startBlock: nat, isFinal: bool,
      pbOut: array?<byte>)
    returns (r: Result<nat>)
    requires p.mode.Ecb?
    modifies pbOut
    ensures var spec :=
              if encrypting then p.Encrypt(pbIn, startBlock, isFinal) else p.Decrypt(pbIn, startBlock, isFinal);
            && (r.Ok? <==> spec.Ok? && (pbOut != null ==> |pbIn| <= pbOut.Length))
            && (r.Ok? ==> r.value == |spec.value| == |pbIn|)
            && (r.Ok? && pbOut != null ==> pbOut[..r.value] == spec.value)
            && (r.Ok? && pbOut != null ==> pbOut[r.value..] == old(pbOut[r.value..]))
  {
    if |pbIn| % AES_BLOCK != 0 {
      return Err(InvalidArgument);
    }
    if pbOut == null {
      return Ok(|pbIn|);
    }
    if pbOut.Length < |pbIn| {
      return Err(InsufficientBuffer);
    }
    Store(pbOut, 0, if encrypting then EcbEncrypt(p.key, pbIn) else EcbDecrypt(p.key, pbIn));
    r := Ok(|pbIn|);
  }

  // ---------------------------------------------------------------- dispatch on the cipher mode

  method Encrypt(p: Provider, pbIn: seq<byte>, startBlock: nat, isFinal: bool, pbOut: array<byte>)
    returns (r: Result<nat>)
    requires p.GetCipherTextSize(|pbIn|).Ok? && p.GetCipherTextSize(|pbIn|).value == pbOut.Length
    modifies pbOut
    ensures var spec := p.Encrypt(pbIn, startBlock, isFinal);
            && (r.Ok? <==> spec.Ok?)
            && (r.Ok? ==> r.value == |spec.value| <= pbOut.Length && pbOut[..r.value] == spec.value)
  {
    hide Provider.Cipher;
    if p.Encrypt(pbIn, startBlock, isFinal).Ok? {
      CipherLength(p, pbIn, startBlock, isFinal);
    }
    match p.mode
    case Cbc4k => r := Cbc4kEncryptLoop(p, pbIn, startBlock, isFinal, pbOut);
    case Ecb => r := EcbTransform(p, true, pbIn, startBlock, isFinal, pbOut);
    case Cbc512NoPadding => r := Cbc512EncryptLoop(p, pbIn, startBlock, isFinal, pbOut);
  }

  method Decrypt(p: Provider, pbIn: seq<byte>, startBlock: nat, isFinal: bool, pbOut: array<byte>)
    returns (r: Result<nat>)
    modifies pbOut
    ensures var spec := p.Decrypt(pbIn, startBlock, isFinal);
            && (r.Ok? <==> spec.Ok? && |pbIn| <= pbOut.Length)
            && (r.Ok? ==> r.value == |spec.value| <= |pbIn| && pbOut[..r.value] == spec.value)
            && (r.Ok? ==> pbOut[r.value..] == p.Behind(old(pbOut[r.value..]), pbIn, isFinal))
  {
    hide Provider.Decipher;
    match p.mode
    case Cbc4k => r := Cbc4kDecryptLoop(p, pbIn, startBlock, isFinal, pbOut);
    case Ecb => r := EcbTransform(p, false, pbIn, startBlock, isFinal, pbOut);
    case Cbc512NoPadding => r := Cbc512DecryptLoop(p, pbIn, startBlock, isFinal, pbOut);
  }
}
