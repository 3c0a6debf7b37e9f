/**
 The bytes of finished ciphertext, one cipher block after another, as a decryptor of another vendor would have to
 know them: which bytes are enciphered, with which vector or block before them, in each mode.
 */
module CipherFormat {
  import opened Bytes
  import opened BlockCipher
  import opened Providers
  import opened CacheTheory

  // ---------------------------------------------------------------- chaining

  /** In cipher block chaining every block is enciphered together with the cipher block before it. */
  lemma {:induction false} CbcChains(key: Key, data: seq<byte>, iv: Block, i: nat)
    requires |data| % 16 == 0 && 16 * i + 16 <= |data|
    ensures var r := CbcEncrypt(key, data, iv);
            && |r| == |data|
            && r[16 * i..16 * i + 16]
               == key.encrypt(Xor(data[16 * i..16 * i + 16], if i == 0 then iv else r[16 * i - 16..16 * i]))
  {
    var r := CbcEncrypt(key, data, iv);
    var c: Block := key.encrypt(Xor(data[..16], iv));
    var rest := CbcEncrypt(key, data[16..], c);
    assert r == c + rest;
    if i > 0 {
      CbcChains(key, data[16..], c, i - 1);
      BehindFront(data, data[..16], data[16..], 16 * i);
      BehindFront(r, c, rest, 16 * i);
      if i > 1 {
        BehindFront(r, c, rest, 16 * i - 16);
      }
    }
  }

  /** Sixteen bytes of a sequence that opens with sixteen others. */
  lemma BehindFront(s: seq<byte>, front: seq<byte>, rest: seq<byte>, at: nat)
    requires s == front + rest && |front| <= at && at + 16 <= |s|
    ensures s[at..at + 16] == rest[at - |front|..at - |front| + 16]
  {
  }

  lemma {:induction false} CbcUnchains(key: Key, data: seq<byte>, iv: Block, i: nat)
    requires |data| % 16 == 0 && 16 * i + 16 <= |data|
    ensures var r := CbcDecrypt(key, data, iv);
            && |r| == |data|
            && r[16 * i..16 * i + 16]
               == Xor(key.decrypt(data[16 * i..16 * i + 16]), if i == 0 then iv else data[16 * i - 16..16 * i])
  {
    var r := CbcDecrypt(key, data, iv);
    var first := Xor(key.decrypt(data[..16]), iv);
    var rest := CbcDecrypt(key, data[16..], data[..16]);
    assert r == first + rest;
    if i > 0 {
      CbcUnchains(key, data[16..], data[..16], i - 1);
      BehindFront(data, data[..16], data[16..], 16 * i);
      BehindFront(r, first, rest, 16 * i);
      if i > 1 {
        BehindFront(data, data[..16], data[16..], 16 * i - 16);
      }
    }
  }

  /** In codebook mode every block stands for itself. */
  lemma {:induction false} EcbBlocks(key: Key, data: seq<byte>, i: nat)
    requires |data| % 16 == 0 && 16 * i + 16 <= |data|
    ensures var e, d := EcbEncrypt(key, data), EcbDecrypt(key, data);
            && |e| == |data| == |d|
            && e[16 * i..16 * i + 16] == key.encrypt(data[16 * i..16 * i + 16])
            && d[16 * i..16 * i + 16] == key.decrypt(data[16 * i..16 * i + 16])
  {
    var e, d := EcbEncrypt(key, data), EcbDecrypt(key, data);
    if i > 0 {
      EcbBlocks(key, data[16..], i - 1);
      BehindFront(data, data[..16], data[16..], 16 * i);
      BehindFront(e, key.encrypt(data[..16]), EcbEncrypt(key, data[16..]), 16 * i);
      BehindFront(d, key.decrypt(data[..16]), EcbDecrypt(key, data[16..]), 16 * i);
    }
  }

  // ---------------------------------------------------------------- the vectors

  /** The vector in front of block n of 4096 bytes: its number, in four bytes, enciphered. */
  ghost function Vector4k(key: Key, n: nat): Block {
    key.encrypt(seq(16, i requires 0 <= i < 16 => if i < 4 then n % 0x1_0000_0000 / Pow256(i) % 256 else 0))
  }

  /** The vector in front of block n of 512 bytes: where the block starts, in eight bytes, enciphered. */
  ghost function Vector512(key: Key, n: nat): Block {
    key.encrypt(seq(16, i requires 0 <= i < 16 => if i < 8 then n % 0x1_0000_0000 * 512 / Pow256(i) % 256 else 0))
  }

  lemma VectorsSpelled(key: Key, n: nat)
    ensures Iv4k(key, n) == Vector4k(key, n) && Iv512(key, n) == Vector512(key, n)
  {
    var a, b := LittleEndian(n % TWO_32, 4) + Zeros(12), LittleEndian(n % TWO_32 * 512, 8) + Zeros(8);
    forall i | 0 <= i < 8 ensures i < 4 ==> a[i] == n % TWO_32 / Pow256(i) % 256
                          ensures b[i] == n % TWO_32 * 512 / Pow256(i) % 256
    {
      if i < 4 {
        LittleEndianDigit(n % TWO_32, 4, i);
      }
      LittleEndianDigit(n % TWO_32 * 512, 8, i);
    }
    assert a == seq(16, i requires 0 <= i < 16 => if i < 4 then n % 0x1_0000_0000 / Pow256(i) % 256 else 0);
    assert b == seq(16, i requires 0 <= i < 16 => if i < 8 then n % 0x1_0000_0000 * 512 / Pow256(i) % 256 else 0);
  }

  /** Two blocks share a vector exactly when their numbers are equal in 32 bits. */
  lemma VectorsDiffer(key: Key, m: nat, n: nat)
    ensures Iv4k(key, m) == Iv4k(key, n) <==> m % 0x1_0000_0000 == n % 0x1_0000_0000
    ensures Iv512(key, m) == Iv512(key, n) <==> m % 0x1_0000_0000 == n % 0x1_0000_0000
  {
    SameInput(key, m % TWO_32, n % TWO_32, 4);
    SameInput(key, m % TWO_32 * 512, n % TWO_32 * 512, 8);
  }

  lemma SameInput(key: Key, m: nat, n: nat, width: nat)
    requires width <= 16 && m < Pow256(width) && n < Pow256(width)
    ensures var a: Block := LittleEndian(m, width) + Zeros(16 - width);
            var b: Block := LittleEndian(n, width) + Zeros(16 - width);
            key.encrypt(a) == key.encrypt(b) <==> m == n
  {
    var a: Block := LittleEndian(m, width) + Zeros(16 - width);
    var b: Block := LittleEndian(n, width) + Zeros(16 - width);
    LittleEndianRoundTrip(m, width);
    LittleEndianRoundTrip(n, width);
    assert a[..width] == LittleEndian(m, width) && b[..width] == LittleEndian(n, width);
    assert key.decrypt(key.encrypt(a)) == a && key.decrypt(key.encrypt(b)) == b;
  }

  // ---------------------------------------------------------------- finished ciphertext

  /** What is enciphered: the plain bytes; the padded mode appends 1 to 16 bytes, each of them that number. */
  ghost function Plaintext(p: Provider, plain: seq<byte>): seq<byte> {
    if p.mode.Cbc4k? then plain + seq(16 - |plain| % 16, i => 16 - |plain| % 16) else plain
  }

  /** How the i-th 16 bytes of ciphertext come about. The chain starts anew every 4096 or every 512 bytes. */
  ghost predicate EncipheredAt(p: Provider, data: seq<byte>, r: seq<byte>, i: nat)
    requires |r| == |data| && 16 * i + 16 <= |data|
  {
    r[16 * i..16 * i + 16] == p.key.encrypt(
      match p.mode
      case Ecb => data[16 * i..16 * i + 16]
      case Cbc4k =>
        Xor(data[16 * i..16 * i + 16], if i % 256 == 0 then Vector4k(p.key, i / 256) else r[16 * i - 16..16 * i])
      case Cbc512NoPadding =>
        Xor(data[16 * i..16 * i + 16], if i % 32 == 0 then Vector512(p.key, i / 32) else r[16 * i - 16..16 * i]))
  }

  ghost predicate Enciphered(p: Provider, plain: seq<byte>, r: seq<byte>) {
    var data := Plaintext(p, plain);
    |r| == |data| && forall i: nat | 16 * i + 16 <= |data| :: EncipheredAt(p, data, r, i)
  }

  /** No other bytes meet the format. */
  lemma {:induction false} OneFormat(p: Provider, plain: seq<byte>, r: seq<byte>, s: seq<byte>, n: nat)
    requires Enciphered(p, plain, r) && Enciphered(p, plain, s) && 16 * n <= |r|
    ensures r[..16 * n] == s[..16 * n]
  {
    hide Vector4k, Vector512, Xor, Plaintext;
    if n > 0 {
      OneFormat(p, plain, r, s, n - 1);
      var i := n - 1;
      assert EncipheredAt(p, Plaintext(p, plain), r, i) && EncipheredAt(p, Plaintext(p, plain), s, i);
      if i > 0 {
        assert r[16 * i - 16..16 * i] == r[..16 * i][16 * i - 16..16 * i];
        assert s[16 * i - 16..16 * i] == s[..16 * i][16 * i - 16..16 * i];
      }
      assert r[..16 * n] == r[..16 * i] + r[16 * i..16 * i + 16];
      assert s[..16 * n] == s[..16 * i] + s[16 * i..16 * i + 16];
    }
  }

  /** The vector that the providers themselves put in front of block n, and how many cipher blocks follow it. */
  ghost function VectorOf(p: Provider, n: nat): Block {
    if p.mode.Cbc4k? then Iv4k(p.key, n) else Iv512(p.key, n)
  }

  ghost function Span(p: Provider): (r: nat)
    ensures r == 256 || r == 32
  {
    if p.mode.Cbc4k? then 256 else 32
  }

  /** What the i-th block of a chained encryption that starts at block n is combined with. */
  ghost function Before(p: Provider, r: seq<byte>, n: nat, i: nat): Block
    requires 16 * i <= |r|
  {
    if i % Span(p) == 0 then VectorOf(p, n + i / Span(p)) else r[16 * i - 16..16 * i]
  }

  ghost predicate ChainedAt(p: Provider, data: seq<byte>, r: seq<byte>, n: nat, i: nat)
    requires |r| == |data| && 16 * i + 16 <= |data|
  {
    r[16 * i..16 * i + 16] == p.key.encrypt(Xor(data[16 * i..16 * i + 16], Before(p, r, n, i)))
  }

  lemma FirstBlocks(p: Provider, head: seq<byte>, tail: seq<byte>, e: seq<byte>, f: seq<byte>, n: nat, i: nat)
    requires |head| % 16 == 0 && |head| <= 16 * Span(p) && 16 * i + 16 <= |head| && |tail| == |f|
    requires e == CbcEncrypt(p.key, head, VectorOf(p, n))
    ensures ChainedAt(p, head + tail, e + f, n, i)
  {
    hide VectorOf, Xor, CbcEncrypt;
    hide Span, Before;
    CbcChains(p.key, head, VectorOf(p, n), i);
    WithinFront(head, tail, 16 * i);
    WithinFront(e, f, 16 * i);
    BeforeFirst(p, e, f, n, i);
  }

  lemma BeforeFirst(p: Provider, e: seq<byte>, f: seq<byte>, n: nat, i: nat)
    requires i < Span(p) && 16 * i + 16 <= |e|
    ensures Before(p, e + f, n, i) == if i == 0 then VectorOf(p, n) else e[16 * i - 16..16 * i]
  {
    hide VectorOf;
    if i > 0 {
      WithinFront(e, f, 16 * i - 16);
    }
  }

  lemma WithinFront(front: seq<byte>, rest: seq<byte>, at: nat)
    requires at + 16 <= |front|
    ensures (front + rest)[at..at + 16] == front[at..at + 16]
  {
  }

  lemma LaterBlocks(p: Provider, head: seq<byte>, tail: seq<byte>, e: seq<byte>, f: seq<byte>, n: nat, i: nat)
    requires |head| == 16 * Span(p) == |e| && |tail| == |f| && 16 * i + 16 <= |tail|
    requires ChainedAt(p, tail, f, n + 1, i)
    ensures ChainedAt(p, head + tail, e + f, n, i + Span(p))
  {
    hide VectorOf, Xor, Span, Before;
    BeforeLater(p, e, f, n, i);
    BehindFront(head + tail, head, tail, 16 * (i + Span(p)));
    BehindFront(e + f, e, f, 16 * (i + Span(p)));
  }

  lemma BeforeLater(p: Provider, e: seq<byte>, f: seq<byte>, n: nat, i: nat)
    requires |e| == 16 * Span(p) && 16 * i + 16 <= |f|
    ensures Before(p, e + f, n, i + Span(p)) == Before(p, f, n + 1, i)
  {
    hide VectorOf, Span;
    OneSpanOn(p, i);
    if i > 0 {
      BehindFront(e + f, e, f, 16 * (i + Span(p)) - 16);
    }
  }

  lemma OneSpanOn(p: Provider, i: nat)
    ensures (i + Span(p)) / Span(p) == i / Span(p) + 1 && (i + Span(p)) % Span(p) == i % Span(p)
    ensures i % Span(p) != 0 ==> i > 0
  {
  }

  lemma {:induction false} Cbc4kBlocks(p: Provider, plain: seq<byte>, n: nat, i: nat)
    requires p.mode.Cbc4k? && 16 * i + 16 <= |Plaintext(p, plain)|
    ensures var data, r := Plaintext(p, plain), Cbc4kEncrypt(Encrypt4k(p.key), plain, n, true);
            |r| == |data| && ChainedAt(p, data, r, n, i)
    decreases |plain|
  {
    hide Iv4k, Xor, ChainedAt, CbcEncrypt;
    var data, r := Plaintext(p, plain), Cbc4kEncrypt(Encrypt4k(p.key), plain, n, true);
    if |plain| < 4096 {
      assert data == Pad(plain);
      FirstBlocks(p, data, [], r, [], n, i);
      assert data + [] == data && r + [] == r;
    } else {
      var head, tail := plain[..4096], plain[4096..];
      var e, f := CbcEncrypt(p.key, head, Iv4k(p.key, n)), Cbc4kEncrypt(Encrypt4k(p.key), tail, n + 1, true);
      assert data == head + Plaintext(p, tail);
      Cbc4kBlocks(p, tail, n + 1, if i < 256 then 0 else i - 256);
      if i < 256 {
        FirstBlocks(p, head, Plaintext(p, tail), e, f, n, i);
      } else {
        LaterBlocks(p, head, Plaintext(p, tail), e, f, n, i - 256);
      }
    }
  }

  lemma {:induction false} Cbc512Blocks(p: Provider, plain: seq<byte>, n: nat, i: nat)
    requires p.mode.Cbc512NoPadding? && |plain| % 16 == 0 && 16 * i + 16 <= |plain|
    ensures var r := Cbc512Encrypt(Encrypt512(p.key), plain, n);
            |r| == |plain| && ChainedAt(p, plain, r, n, i)
    decreases |plain|
  {
    hide Iv512, Xor, ChainedAt, CbcEncrypt;
    var r := Cbc512Encrypt(Encrypt512(p.key), plain, n);
    if |plain| <= 512 {
      FirstBlocks(p, plain, [], r, [], n, i);
      assert plain + [] == plain && r + [] == r;
    } else {
      var head, tail := plain[..512], plain[512..];
      var e, f := CbcEncrypt(p.key, head, Iv512(p.key, n)), Cbc512Encrypt(Encrypt512(p.key), tail, n + 1);
      assert plain == head + tail;
      Cbc512Blocks(p, tail, n + 1, if i < 32 then 0 else i - 32);
      if i < 32 {
        FirstBlocks(p, head, tail, e, f, n, i);
      } else {
        LaterBlocks(p, head, tail, e, f, n, i - 32);
      }
    }
  }

  /** The finished ciphertext meets the format. */
  lemma WholeMeetsFormat(p: Provider, plain: seq<byte>)
    requires p.Legal(|plain|)
    ensures Enciphered(p, plain, Whole(p, plain))
  {
    hide Iv4k, Iv512, Vector4k, Vector512, Xor, CbcEncrypt, EcbEncrypt, Cbc4kEncrypt, Cbc512Encrypt, Encrypt4k,
      Encrypt512;
    var data, r := Plaintext(p, plain), Whole(p, plain);
    CipherLength(p, plain, 0, true);
    forall i: nat | 16 * i + 16 <= |data| ensures EncipheredAt(p, data, r, i) {
      match p.mode
      case Cbc4k => Cbc4kBlocks(p, plain, 0, i); VectorsSpelled(p.key, i / 256);
      case Ecb => EcbBlocks(p.key, plain, i);
      case Cbc512NoPadding => Cbc512Blocks(p, plain, 0, i); VectorsSpelled(p.key, i / 32);
    }
  }

  /** The finished ciphertext of a content is the one byte sequence in that format. */
  lemma CiphertextFormat(p: Provider, plain: seq<byte>, r: seq<byte>)
    requires p.Legal(|plain|)
    ensures Enciphered(p, plain, r) <==> r == Whole(p, plain)
  {
    hide EncipheredAt, Whole;
    WholeMeetsFormat(p, plain);
    if Enciphered(p, plain, r) {
      assert |r| % 16 == 0;
      OneFormat(p, plain, r, Whole(p, plain), |r| / 16);
      assert r[..|r|] == r && Whole(p, plain)[..|r|] == Whole(p, plain);
    }
  }

  /** The same wherever a flush succeeds. */
  lemma FlushFormat(p: Provider, plain: seq<byte>)
    requires CanFlush(p, |plain|)
    ensures Enciphered(p, plain, Whole(p, plain))
  {
    WholeMeetsFormat(p, plain);
  }
}
