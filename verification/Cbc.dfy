/** Payload decryption: CBC (section 6.2 of NIST SP 800-38A) and PKCS#7 padding (section 6.3
    of RFC 5652) over an abstract 16-byte block cipher. */
module Cbc {
  import opened Bits
  import opened Wrappers

  const BLOCK: nat := 16

  type block = b: bytes | |b| == BLOCK witness seq(16, _ => 0)

  /** One key of a block cipher. */
  datatype Cipher = Cipher(enc: block -> block, dec: block -> block) {
    ghost predicate Valid() {
      && (forall b: block :: dec(enc(b)) == b)
      && (forall b: block :: enc(dec(b)) == b)
    }
  }

  /** There are such ciphers: XOR with a key byte is one. */
  lemma ValidExists(key: byte)
    ensures var f := (b: block) => XorBlock(b, seq(16, _ => key)); Cipher(f, f).Valid()
  {
    var k: block := seq(16, _ => key);
    forall b: block ensures XorBlock(XorBlock(b, k), k) == b { XorBlockTwice(b, k); }
  }

  datatype DecryptError = TooShort | Misaligned | BadKey | BadPadding

  function XorBlock(a: block, b: block): block {
    seq(BLOCK, i requires 0 <= i < BLOCK => XorByte(a[i], b[i]))
  }

  lemma XorBlockTwice(a: block, b: block)
    ensures XorBlock(XorBlock(a, b), b) == a
  {
    forall i | 0 <= i < BLOCK ensures XorBlock(XorBlock(a, b), b)[i] == a[i] {
      XorInvolution(a[i], b[i]);
    }
  }

  // ----- Reference: what the panel does to a plaintext -----

  function Pad(m: bytes): (r: bytes)
    ensures |r| % BLOCK == 0 && |m| < |r| <= |m| + BLOCK
  {
    var n := BLOCK - |m| % BLOCK;
    m + seq(n, _ => n)
  }

  function CbcEncrypt(c: Cipher, prev: block, p: bytes): (r: bytes)
    requires |p| % BLOCK == 0
    ensures |r| == |p|
    decreases |p|
  {
    if |p| == 0 then [] else
    var x := c.enc(XorBlock(p[..BLOCK], prev));
    x + CbcEncrypt(c, x, p[BLOCK..])
  }

  function Encrypt(c: Cipher, iv: block, m: bytes): bytes {
    iv + CbcEncrypt(c, iv, Pad(m))
  }

  // ----- The client's side -----

  function CbcDecrypt(c: Cipher, prev: block, x: bytes): (r: bytes)
    requires |x| % BLOCK == 0
    ensures |r| == |x|
    decreases |x|
  {
    if |x| == 0 then [] else
    XorBlock(c.dec(x[..BLOCK]), prev) + CbcDecrypt(c, x[..BLOCK], x[BLOCK..])
  }

  /** Removal of the padding from the decrypted bytes. */
  function Unpad(out: bytes): Result<bytes, DecryptError>
    requires out != []
  {
    var pad := out[|out| - 1];
    if pad == 0 || pad > BLOCK || pad > |out| then Failure(BadPadding)
    else if exists i | |out| - pad <= i < |out| :: out[i] != pad then Failure(BadPadding)
    else Success(out[..|out| - pad])
  }

  /** `key` is None when the cipher refuses the key. */
  function Decrypt(data: bytes, key: Option<Cipher>): Result<bytes, DecryptError> {
    if |data| < 2 * BLOCK then Failure(TooShort)
    else if (|data| - BLOCK) % BLOCK != 0 then Failure(Misaligned)
    else match key
    case None => Failure(BadKey)
    case Some(c) => Unpad(CbcDecrypt(c, data[..BLOCK], data[BLOCK..]))
  }

  lemma {:induction false} DecryptInverts(c: Cipher, prev: block, p: bytes)
    requires c.Valid() && |p| % BLOCK == 0
    ensures CbcDecrypt(c, prev, CbcEncrypt(c, prev, p)) == p
    decreases |p|
  {
    if |p| > 0 {
      var first: block := p[..BLOCK];
      var x := c.enc(XorBlock(first, prev));
      var e := CbcEncrypt(c, prev, p);
      assert e[..BLOCK] == x && e[BLOCK..] == CbcEncrypt(c, x, p[BLOCK..]);
      XorBlockTwice(first, prev);
      DecryptInverts(c, x, p[BLOCK..]);
    }
  }

  lemma {:induction false} EncryptInverts(c: Cipher, prev: block, x: bytes)
    requires c.Valid() && |x| % BLOCK == 0
    ensures CbcEncrypt(c, prev, CbcDecrypt(c, prev, x)) == x
    decreases |x|
  {
    if |x| > 0 {
      var first: block := x[..BLOCK];
      var d := CbcDecrypt(c, prev, x);
      assert d[..BLOCK] == XorBlock(c.dec(first), prev) && d[BLOCK..] == CbcDecrypt(c, first, x[BLOCK..]);
      XorBlockTwice(c.dec(first), prev);
      EncryptInverts(c, first, x[BLOCK..]);
      assert x == x[..BLOCK] + x[BLOCK..];
    }
  }

  /** Unpadding accepts exactly the padded strings. */
  lemma UnpadExact(out: bytes, m: bytes)
    requires out != [] && |out| % BLOCK == 0
    ensures Unpad(out) == Success(m) <==> out == Pad(m)
  {
    if Unpad(out) == Success(m) {
      var pad := out[|out| - 1];
      assert |m| == |out| - pad;
      assert |m| % BLOCK == (BLOCK - pad) % BLOCK;
      assert pad == BLOCK - |m| % BLOCK;
      forall i | |m| <= i < |out| ensures out[i] == pad { }
      assert out == Pad(m);
    }
  }

  /** Decryption accepts exactly the encryptions under the IV that heads the data: it returns
      m if and only if the data is IV followed by the encryption of m, for every m. */
  lemma DecryptExact(c: Cipher, data: bytes, m: bytes)
    requires c.Valid()
    ensures Decrypt(data, Some(c)) == Success(m) <==>
            |data| >= BLOCK && data == Encrypt(c, data[..BLOCK], m)
  {
    if |data| >= BLOCK {
      var iv: block := data[..BLOCK];
      var x := data[BLOCK..];
      assert data == iv + x;
      if data == Encrypt(c, iv, m) {
        assert x == CbcEncrypt(c, iv, Pad(m));
        DecryptInverts(c, iv, Pad(m));
        UnpadExact(Pad(m), m);
      }
      if Decrypt(data, Some(c)) == Success(m) {
        EncryptInverts(c, iv, x);
        UnpadExact(CbcDecrypt(c, iv, x), m);
      }
    }
  }

  /** Every plaintext comes back, whatever its length and IV. */
  lemma RoundTrip(c: Cipher, iv: block, m: bytes)
    requires c.Valid()
    ensures Decrypt(Encrypt(c, iv, m), Some(c)) == Success(m)
  {
    assert Encrypt(c, iv, m)[..BLOCK] == iv;
    DecryptExact(c, Encrypt(c, iv, m), m);
  }

  /** Two plaintexts never share an encryption. */
  lemma EncryptInjective(c: Cipher, iv1: block, m1: bytes, iv2: block, m2: bytes)
    requires c.Valid() && Encrypt(c, iv1, m1) == Encrypt(c, iv2, m2)
    ensures iv1 == iv2 && m1 == m2
  {
    RoundTrip(c, iv1, m1);
    RoundTrip(c, iv2, m2);
    assert iv1 == Encrypt(c, iv1, m1)[..BLOCK] && iv2 == Encrypt(c, iv2, m2)[..BLOCK];
  }

  /** The plaintexts whose encryption fits the 65536-byte message cap. */
  lemma FitsCap(c: Cipher, iv: block, m: bytes)
    ensures |Encrypt(c, iv, m)| <= 65536 <==> |m| <= 65519
  {
  }

  lemma DecryptStep(c: Cipher, prev: block, x: bytes, n: nat)
    requires n + BLOCK <= |x| && |x[n..]| % BLOCK == 0
    ensures CbcDecrypt(c, prev, x[n..]) ==
            XorBlock(c.dec(x[n..n + BLOCK]), prev) + CbcDecrypt(c, x[n..n + BLOCK], x[n + BLOCK..])
  {
    assert x[n..][..BLOCK] == x[n..n + BLOCK] && x[n..][BLOCK..] == x[n + BLOCK..];
  }

  lemma NothingLeft(c: Cipher, prev: block)
    ensures CbcDecrypt(c, prev, []) == []
  {
  }

  /** CBC decryption into a fresh buffer, block by block. */
  method CryptBlocks(c: Cipher, iv: block, x: bytes) returns (out: array<byte>)
    requires |x| % BLOCK == 0
    ensures fresh(out) && out[..] == CbcDecrypt(c, iv, x)
  {
    hide CbcDecrypt, XorBlock;
    out := new byte[|x|];
    var n := 0;
    var prev := iv;
    while n < |x|
      invariant 0 <= n <= |x| && n % BLOCK == 0
      invariant out[..n] + CbcDecrypt(c, prev, x[n..]) == CbcDecrypt(c, iv, x)
    {
      var b: block := x[n..n + BLOCK];
      var d := XorBlock(c.dec(b), prev);
      DecryptStep(c, prev, x, n);
      ghost var filled := out[..n];
      forall i | 0 <= i < BLOCK { out[n + i] := d[i]; }
      assert out[..n + BLOCK] == filled + d;
      prev, n := b, n + BLOCK;
    }
    assert out[..] == out[..n] && x[n..] == [];
    NothingLeft(c, prev);
  }

  /** The decryption routine: length checks, CBC, then a scan of the padding. */
  method WsDecrypt(data: bytes, key: Option<Cipher>) returns (r: Result<bytes, DecryptError>)
    ensures r == Decrypt(data, key)
  {
    if |data| < 2 * BLOCK { return Failure(TooShort); }
    if (|data| - BLOCK) % BLOCK != 0 { return Failure(Misaligned); }
    if key.None? { return Failure(BadKey); }
    var out := CryptBlocks(key.value, data[..BLOCK], data[BLOCK..]);
    ghost var whole := out[..];
    var pad := out[out.Length - 1];
    assert whole[|whole| - 1] == pad;
    if pad == 0 || pad > BLOCK || pad > out.Length { return Failure(BadPadding); }
    var i := out.Length - pad;
    while i < out.Length
      invariant out.Length - pad <= i <= out.Length
      invariant forall j | out.Length - pad <= j < i :: whole[j] == pad
    {
      if out[i] != pad {
        assert whole[i] != pad;
        return Failure(BadPadding);
      }
      i := i + 1;
    }
    return Success(out[..out.Length - pad]);
  }

  // ----- The chaining, byte by byte -----

  lemma {:induction false} DecryptBlock(c: Cipher, iv: block, x: bytes, j: nat)
    requires |x| % 16 == 0 && j % 16 == 0 && j + 16 <= |x|
    ensures CbcDecrypt(c, iv, x)[j..j + 16] == XorBlock(c.dec(x[j..j + 16]), (iv + x)[j..j + 16])
    decreases |x|
  {
    hide CbcDecrypt, XorBlock;
    var first: block := x[..BLOCK];
    var rest := x[BLOCK..];
    DecryptStep(c, iv, x, 0);
    assert x[0..] == x && x[0..BLOCK] == first;
    var head := XorBlock(c.dec(first), iv);
    var d := CbcDecrypt(c, iv, x);
    assert d == head + CbcDecrypt(c, first, rest);
    if j == 0 {
      assert d[..16] == head && (iv + x)[0..16] == iv;
    } else {
      DecryptBlock(c, first, rest, j - 16);
      assert d[j..j + 16] == CbcDecrypt(c, first, rest)[j - 16..j];
      assert rest[j - 16..j] == x[j..j + 16];
      assert (first + rest)[j - 16..j] == x[j - 16..j] == (iv + x)[j..j + 16];
    }
  }

  /** Every decrypted byte is the block cipher's byte XOR the ciphertext byte one block earlier,
      which for the first block is the IV's. */
  lemma DecryptBytes(c: Cipher, iv: block, x: bytes, k: nat)
    requires |x| % 16 == 0 && k < |x|
    ensures CbcDecrypt(c, iv, x)[k] == XorByte(c.dec(x[k - k % 16..k - k % 16 + 16])[k % 16], (iv + x)[k])
  {
    hide CbcDecrypt, XorByte;
    var j := k - k % 16;
    DecryptBlock(c, iv, x, j);
    assert CbcDecrypt(c, iv, x)[k] == CbcDecrypt(c, iv, x)[j..j + 16][k % 16];
    assert (iv + x)[k] == (iv + x)[j..j + 16][k % 16];
  }

  lemma EncryptStep(c: Cipher, prev: block, p: bytes)
    requires |p| >= BLOCK && |p| % BLOCK == 0
    ensures var x := c.enc(XorBlock(p[..BLOCK], prev));
      CbcEncrypt(c, prev, p) == x + CbcEncrypt(c, x, p[BLOCK..])
  {
  }

  lemma {:induction false} EncryptBlock(c: Cipher, iv: block, p: bytes, j: nat)
    requires |p| % 16 == 0 && j % 16 == 0 && j + 16 <= |p|
    ensures var e := CbcEncrypt(c, iv, p); e[j..j + 16] == c.enc(XorBlock(p[j..j + 16], (iv + e)[j..j + 16]))
    decreases |p|
  {
    hide CbcEncrypt, XorBlock;
    var first: block := p[..BLOCK];
    var rest := p[BLOCK..];
    EncryptStep(c, iv, p);
    var x := c.enc(XorBlock(first, iv));
    var e, t := CbcEncrypt(c, iv, p), CbcEncrypt(c, x, rest);
    if j == 0 {
      assert e[0..16] == x && p[0..16] == first && (iv + e)[0..16] == iv;
    } else {
      EncryptBlock(c, x, rest, j - 16);
      assert e[j..j + 16] == t[j - 16..j] && rest[j - 16..j] == p[j..j + 16];
      assert (iv + e)[j..j + 16] == e[j - 16..j] == (x + t)[j - 16..j];
    }
  }

  /** Every encrypted block is the cipher's value of the plaintext block XOR the block before, which
      for the first block is the IV. */
  lemma EncryptBytes(c: Cipher, iv: block, p: bytes, k: nat, b: block)
    requires |p| % 16 == 0 && k < |p|
    requires var before := iv + CbcEncrypt(c, iv, p);
      forall i | 0 <= i < 16 :: b[i] == XorByte(p[k - k % 16 + i], before[k - k % 16 + i])
    ensures CbcEncrypt(c, iv, p)[k] == c.enc(b)[k % 16]
  {
    hide CbcEncrypt, XorByte;
    var j := k - k % 16;
    var e := CbcEncrypt(c, iv, p);
    EncryptBlock(c, iv, p, j);
    assert b == XorBlock(p[j..j + 16], (iv + e)[j..j + 16]);
    assert e[k] == e[j..j + 16][k % 16];
  }

  /** The padding: n bytes of value n, at least one and at most sixteen, up to a multiple of 16. */
  lemma PadMeaning(m: bytes)
    ensures var r := Pad(m); var n := |r| - |m|;
      && 1 <= n <= 16 && |r| % 16 == 0 && r[..|m|] == m && forall i | |m| <= i < |r| :: r[i] == n
  {
  }

  /** Why data is refused, in the order of the checks. */
  lemma DecryptRefuses(data: bytes, key: Option<Cipher>)
    ensures Decrypt(data, key) == Failure(TooShort) <==> |data| < 32
    ensures Decrypt(data, key) == Failure(Misaligned) <==> |data| >= 32 && |data| % 16 != 0
    ensures Decrypt(data, key) == Failure(BadKey) <==> |data| >= 32 && |data| % 16 == 0 && key.None?
    ensures Decrypt(data, key) == Failure(BadPadding) <==>
            && |data| >= 32 && |data| % 16 == 0 && key.Some?
            && forall m :: CbcDecrypt(key.value, data[..16], data[16..]) != Pad(m)
  {
    hide CbcDecrypt, Pad;
    if |data| >= 32 && |data| % 16 == 0 && key.Some? {
      var out := CbcDecrypt(key.value, data[..16], data[16..]);
      forall m ensures Unpad(out) == Success(m) <==> out == Pad(m) { UnpadExact(out, m); }
      if Unpad(out).Success? { assert out == Pad(Unpad(out).value); }
    }
  }
}
