/** WebSocket frames (sections 5.2 and 5.3 of RFC 6455): the frames a peer may put on
    the wire, what the client writes, and what the client's reader makes of a stream. */
module Frames {
  import opened Bits
  import opened Wrappers

  const MAX_PAYLOAD: nat := 65536

  const OP_CONTINUATION: nat := 0
  const OP_TEXT: nat := 1
  const OP_BINARY: nat := 2
  const OP_CLOSE: nat := 8
  const OP_PING: nat := 9
  const OP_PONG: nat := 10

  type mask = m: bytes | |m| == 4 witness [0, 0, 0, 0]

  function Masked(p: bytes, m: mask): (r: bytes)
    ensures |r| == |p|
  {
    seq(|p|, i requires 0 <= i < |p| => XorByte(p[i], m[i % 4]))
  }

  lemma MaskedTwice(p: bytes, m: mask)
    ensures Masked(Masked(p, m), m) == p
  {
    forall i | 0 <= i < |p| ensures Masked(Masked(p, m), m)[i] == p[i] {
      XorInvolution(p[i], m[i % 4]);
    }
  }

  /** What the reader reports for one frame; the payload is unmasked. */
  datatype Frame = Frame(op: nat, fin: bool, payload: bytes)

  /** How a sender spells the payload length. */
  datatype LengthForm = Short | Medium | Long

  /** A frame as a peer may send it: any reserved bits, any length form that holds the
      length, masked or not. `payload` is the unmasked payload. */
  datatype WireFrame = WireFrame(rsv: nat, fin: bool, op: nat, form: LengthForm, key: Option<mask>, payload: bytes)
  {
    ghost predicate Legal() {
      && rsv < 8 && op < 16
      && match form {
           case Short => |payload| < 126
           case Medium => |payload| < 0x1_0000
           case Long => |payload| < 0x1_0000_0000_0000_0000
         }
    }

    function View(): Frame {
      Frame(op, fin, payload)
    }
  }

  function FirstByte(w: WireFrame): byte
    requires w.rsv < 8 && w.op < 16
  {
    (if w.fin then 128 else 0) + 16 * w.rsv + w.op
  }

  function LengthCode(form: LengthForm, n: nat): (c: nat)
    requires form == Short ==> n < 126
    ensures c < 128
  {
    match form case Short => n case Medium => 126 case Long => 127
  }

  function Extension(form: LengthForm, n: nat): bytes {
    match form case Short => [] case Medium => BigEndian(n, 2) case Long => BigEndian(n, 8)
  }

  function KeyBytes(key: Option<mask>): bytes {
    if key.Some? then key.value else []
  }

  function Body(key: Option<mask>, p: bytes): (r: bytes)
    ensures |r| == |p|
  {
    if key.Some? then Masked(p, key.value) else p
  }

  /** Everything that precedes the payload. */
  function Head(w: WireFrame): bytes
    requires w.Legal()
  {
    [FirstByte(w), (if w.key.Some? then 128 else 0) + LengthCode(w.form, |w.payload|)]
    + Extension(w.form, |w.payload|) + KeyBytes(w.key)
  }

  function Encode(w: WireFrame): bytes
    requires w.Legal()
  {
    Head(w) + Body(w.key, w.payload)
  }

  datatype Parsed = Got(frame: Frame, rest: bytes) | Truncated | TooBig(size: nat)

  /** A 32-bit Go int, as on the ARM target: conversion keeps the low 32 bits. */
  function GoInt(v: int): int {
    var w := v % 0x1_0000_0000;
    if w < 0x8000_0000 then w else w - 0x1_0000_0000
  }

  /** Number of bytes of the extended length that follows a 7-bit length code. */
  function ExtensionSize(code: nat): nat {
    if code == 126 then 2 else if code == 127 then 8 else 0
  }

  /** The length announced by the first two bytes and the extension after them. */
  function Announced(s: bytes, code: nat): (n: nat)
    requires code < 128 && 2 + ExtensionSize(code) <= |s|
    ensures n < 0x1_0000_0000_0000_0000
  {
    LengthWritten(code, s[2..2 + ExtensionSize(code)]);
    if ExtensionSize(code) == 0 then code else BigValue(s[2..2 + ExtensionSize(code)])
  }

  /** The mask and payload that start at offset `at`. */
  function Contents(s: bytes, at: nat, masked: bool, size: nat): (r: Parsed)
    requires 2 <= at <= |s|
    ensures r.Got? ==> |r.frame.payload| == size && |r.rest| <= |s| - 2
  {
    var body := if masked then at + 4 else at;
    if |s| < body + size then Truncated else
    var p := s[body..body + size];
    Got(Frame(s[0] % 16, s[0] >= 128, if masked then Masked(p, s[at..at + 4]) else p), s[body + size..])
  }

  /** The reader's decision on a stream `s`. */
  function Parse(s: bytes): (r: Parsed)
    ensures r.Got? ==> |r.frame.payload| <= MAX_PAYLOAD && |r.rest| <= |s| - 2
    ensures r.Got? ==> r.frame.op < 16
    ensures r.TooBig? ==> MAX_PAYLOAD < r.size < 0x1_0000_0000_0000_0000
  {
    if |s| < 2 || |s| < 2 + ExtensionSize(s[1] % 128) then Truncated else
    var size := Announced(s, s[1] % 128);
    if size > MAX_PAYLOAD then TooBig(size)
    else Contents(s, 2 + ExtensionSize(s[1] % 128), s[1] >= 128, size)
  }

  /** The reader's bit masks pick out the digits that Parse names. */
  lemma ByteTests(b: byte)
    ensures And(b, 0x0F) == b % 16 && And(b, 0x7F) == b % 128
    ensures And(b, 0x80) != 0 <==> b >= 128
  {
    Pow2Values();
    AndMask(b, 4);
    AndMask(b, 7);
    AndPow2(b, 7);
    HighDigit(b);
  }

  lemma HighDigit(b: byte)
    ensures Bit(b, 7) <==> b >= 128
  {
    var c := b / 16;
    assert Bit(b, 7) == Bit(c, 3) by {
      assert Bit(b, 7) == Bit(b / 2, 6) == Bit(b / 2 / 2, 5);
      assert Bit(b / 4, 5) == Bit(b / 4 / 2, 4) == Bit(b / 8 / 2, 3);
    }
    assert Bit(c, 3) == Bit(c / 2, 2) == Bit(c / 2 / 2, 1) == Bit(c / 2 / 2 / 2, 0);
  }

  /** The layout of an encoded frame followed by `rest`. */
  lemma Layout(w: WireFrame, rest: bytes)
    requires w.Legal()
    ensures var s := Encode(w) + rest; var n := |w.payload|;
      var at := 2 + |Extension(w.form, n)|; var body := at + |KeyBytes(w.key)|;
      && |s| >= at && |Encode(w)| == body + n && |Head(w)| == body
      && s[0] == FirstByte(w) && s[1] == (if w.key.Some? then 128 else 0) + LengthCode(w.form, n)
      && s[2..at] == Extension(w.form, n) && s[at..body] == KeyBytes(w.key)
      && s[body..body + n] == Body(w.key, w.payload) && s[body + n..] == rest
  {
  }

  /** The extension of a legal frame reads back as the payload length. */
  lemma LengthReads(w: WireFrame)
    requires w.Legal()
    ensures var n := |w.payload|; var code := LengthCode(w.form, n);
      && ExtensionSize(code) == |Extension(w.form, n)|
      && (if ExtensionSize(code) == 0 then code else BigValue(Extension(w.form, n))) == n
  {
    Pow256Values();
    if w.form.Medium? { BigRoundTrip(|w.payload|, 2); }
    if w.form.Long? { BigRoundTrip(|w.payload|, 8); }
  }

  /** A stream laid out like `w` reads as `w`. */
  lemma ParseShape(s: bytes, w: WireFrame, rest: bytes)
    requires w.Legal() && |w.payload| <= MAX_PAYLOAD
    requires |s| >= 2 && s[0] == FirstByte(w)
    requires s[1] == (if w.key.Some? then 128 else 0) + LengthCode(w.form, |w.payload|)
    requires var at := 2 + ExtensionSize(LengthCode(w.form, |w.payload|));
      var body := at + |KeyBytes(w.key)|; var end := body + |w.payload|;
      && |s| >= end
      && (at == 2 || BigValue(s[2..at]) == |w.payload|)
      && s[at..body] == KeyBytes(w.key) && s[body..end] == Body(w.key, w.payload) && s[end..] == rest
    ensures Parse(s) == Got(w.View(), rest)
  {
    hide BigValue, BigEndian, Masked;
    if w.key.Some? { MaskedTwice(w.payload, w.key.value); }
  }

  /** Reading inverts every legal encoding and leaves the rest of the stream. */
  lemma ParseEncode(w: WireFrame, rest: bytes)
    requires w.Legal() && |w.payload| <= MAX_PAYLOAD
    ensures Parse(Encode(w) + rest) == Got(w.View(), rest)
  {
    Layout(w, rest);
    LengthReads(w);
    ParseShape(Encode(w) + rest, w, rest);
  }

  /** A frame above the cap is refused as soon as its length is known, whatever follows. */
  lemma ParseOversize(w: WireFrame, s: bytes)
    requires w.Legal() && |w.payload| > MAX_PAYLOAD
    requires 2 + |Extension(w.form, |w.payload|)| <= |s|
    requires s[..2 + |Extension(w.form, |w.payload|)|] <= Encode(w)
    ensures Parse(s) == TooBig(|w.payload|)
  {
    hide BigEndian, BigValue, Masked, Contents;
    var at := 2 + |Extension(w.form, |w.payload|)|;
    Layout(w, []);
    assert Encode(w) + [] == Encode(w);
    assert s[..at] == Encode(w)[..at];
    assert s[0] == s[..at][0] && s[1] == s[..at][1];
    assert s[2..at] == s[..at][2..] == Encode(w)[..at][2..] == Encode(w)[2..at];
    LengthReads(w);
  }

  lemma ParseShort(s: bytes, w: WireFrame)
    requires w.Legal() && |w.payload| <= MAX_PAYLOAD
    requires |s| >= 1 ==> s[0] == FirstByte(w)
    requires |s| >= 2 ==> s[1] == (if w.key.Some? then 128 else 0) + LengthCode(w.form, |w.payload|)
    requires var at := 2 + ExtensionSize(LengthCode(w.form, |w.payload|));
      && (2 < at <= |s| ==> BigValue(s[2..at]) == |w.payload|)
      && |s| < at + |KeyBytes(w.key)| + |w.payload|
    ensures Parse(s) == Truncated
  {
    hide BigValue, BigEndian, Masked;
  }

  lemma SliceOfPrefix(e: bytes, k: nat, a: nat, b: nat)
    requires a <= b <= k <= |e|
    ensures e[..k][a..b] == e[a..b]
  {
  }

  /** A frame cut short is never mistaken for a whole one: encodings delimit themselves. */
  lemma ParseCut(w: WireFrame, k: nat)
    requires w.Legal() && |w.payload| <= MAX_PAYLOAD && k < |Encode(w)|
    ensures Parse(Encode(w)[..k]) == Truncated
  {
    var e := Encode(w);
    Layout(w, []);
    assert e + [] == e;
    LengthReads(w);
    var at := 2 + |Extension(w.form, |w.payload|)|;
    if k >= at { SliceOfPrefix(e, k, 2, at); }
    ParseShort(e[..k], w);
  }

  /** The frame that a successful read stands for. */
  function FrameRead(s: bytes): WireFrame
    requires Parse(s).Got?
  {
    var code := s[1] % 128;
    var at := 2 + ExtensionSize(code);
    var f := Parse(s).frame;
    WireFrame((s[0] / 16) % 8, f.fin, f.op,
              if code == 126 then Medium else if code == 127 then Long else Short,
              if s[1] >= 128 then Some(s[at..at + 4]) else None,
              f.payload)
  }

  /** A legal length field is the one its code and extension bytes announce. */
  lemma LengthWritten(code: nat, ext: bytes)
    requires code < 128 && |ext| == ExtensionSize(code)
    ensures var size := if |ext| == 0 then code else BigValue(ext);
      var form := if code == 126 then Medium else if code == 127 then Long else Short;
      && (form.Short? ==> size < 126) && (form.Medium? ==> size < 0x1_0000)
      && (form.Long? ==> size < 0x1_0000_0000_0000_0000)
      && LengthCode(form, size) == code && Extension(form, size) == ext
  {
    Pow256Values();
    BigOnto(ext);
  }

  lemma FrameReadLegal(s: bytes)
    requires Parse(s).Got?
    ensures var w := FrameRead(s); var code := s[1] % 128;
      var at := 2 + ExtensionSize(code); var body := at + |KeyBytes(w.key)|;
      && w.Legal() && |w.payload| <= MAX_PAYLOAD && w.View() == Parse(s).frame
      && FirstByte(w) == s[0] && at <= body <= body + |w.payload| <= |s|
      && (if w.key.Some? then 128 else 0) + LengthCode(w.form, |w.payload|) == s[1]
      && Extension(w.form, |w.payload|) == s[2..at] && KeyBytes(w.key) == s[at..body]
      && Body(w.key, w.payload) == s[body..body + |w.payload|]
      && Parse(s).rest == s[body + |w.payload|..]
  {
    hide BigValue, BigEndian, Masked;
    var w := FrameRead(s);
    var code := s[1] % 128;
    var at := 2 + ExtensionSize(code);
    LengthWritten(code, s[2..at]);
    if w.key.Some? { MaskedTwice(s[at + 4..at + 4 + |w.payload|], w.key.value); }
  }

  /** Every successful read consumed exactly one legal encoding of what it reports. */
  lemma ParseSound(s: bytes)
    requires Parse(s).Got?
    ensures var w := FrameRead(s);
      && w.Legal() && |w.payload| <= MAX_PAYLOAD && w.View() == Parse(s).frame
      && s == Encode(w) + Parse(s).rest && |Encode(w)| >= 2
  {
    hide Parse, FrameRead, BigEndian, Masked, Extension, Body, KeyBytes, LengthCode, FirstByte;
    FrameReadLegal(s);
    var w := FrameRead(s);
    var at := 2 + ExtensionSize(s[1] % 128);
    var body := at + |KeyBytes(w.key)|;
    var end := body + |w.payload|;
    assert Head(w) == s[..body] by {
      assert s[..body] == s[..2] + s[2..at] + s[at..body];
      assert s[..2] == [s[0], s[1]];
    }
    assert s == s[..body] + s[body..end] + s[end..];
  }

  /** What the client's writer produces for one frame: FIN set, masked, shortest length form. */
  function ClientHead(op: nat, n: nat, m: mask): bytes
    requires op < 16 && n < 0x1_0000_0000_0000_0000
  {
    [128 + op]
    + (if n < 126 then [128 + n]
       else if n <= 0xFFFF then [128 + 126] + BigEndian(n, 2)
       else [128 + 127] + BigEndian(n, 8))
    + m
  }

  function ClientFrame(op: nat, p: bytes, m: mask): bytes
    requires op < 16 && |p| < 0x1_0000_0000_0000_0000
  {
    ClientHead(op, |p|, m) + Masked(p, m)
  }

  function ClientWire(op: nat, p: bytes, m: mask): WireFrame {
    WireFrame(0, true, op, if |p| < 126 then Short else if |p| <= 0xFFFF then Medium else Long, Some(m), p)
  }

  /** The writer's `|= 0x80` adds the top digit. */
  lemma MarkHigh(n: byte)
    requires n < 128
    ensures OrByte(0x80, n) == 128 + n && OrByte(n, 0x80) == 128 + n
  {
    Pow2Values();
    OrPow2(7, n);
    OrCommutes(n, 0x80);
  }

  lemma {:induction false} OrCommutes(a: nat, b: nat)
    ensures Or(a, b) == Or(b, a)
    decreases a + b
  {
    if a > 0 || b > 0 { OrCommutes(a / 2, b / 2); }
  }

  /** The writer's bytes are the masked, FIN-set, shortest-form encoding of the payload. */
  lemma ClientFrameIsLegal(op: nat, p: bytes, m: mask)
    requires op < 16 && |p| < 0x1_0000_0000_0000_0000
    ensures ClientWire(op, p, m).Legal()
    ensures ClientFrame(op, p, m) == Encode(ClientWire(op, p, m))
  {
    assert ClientHead(op, |p|, m) == Head(ClientWire(op, p, m));
  }

  /** Frame round trip with the exact bound: a reader gets the payload back when it is at
      most 65536 bytes and refuses it otherwise. */
  lemma ClientRoundTrip(op: nat, p: bytes, m: mask, rest: bytes)
    requires op < 16 && |p| < 0x1_0000_0000_0000_0000
    ensures Parse(ClientFrame(op, p, m) + rest) ==
            if |p| <= 65536 then Got(Frame(op, true, p), rest) else TooBig(|p|)
  {
    var w := ClientWire(op, p, m);
    ClientFrameIsLegal(op, p, m);
    if |p| <= MAX_PAYLOAD {
      ParseEncode(w, rest);
    } else {
      Layout(w, rest);
      var at := 2 + |Extension(w.form, |p|)|;
      assert (Encode(w) + rest)[..at] == Encode(w)[..at];
      ParseOversize(w, Encode(w) + rest);
    }
  }

  /** Byte i of a masked payload differs from the payload's byte in the digits of mask byte i mod 4. */
  lemma MaskedDigits(p: bytes, m: mask, i: nat, k: nat)
    requires i < |p|
    ensures Bit(Masked(p, m)[i], k) <==> Bit(p[i], k) != Bit(m[i % 4], k)
  {
    XorByteBit(p[i], m[i % 4], k);
  }

  /** The header bytes of every legal frame (section 5.2): FIN and reserved bits above the opcode,
      the mask flag above the length code, the extended length with the high byte first, the key. */
  lemma HeaderBytes(w: WireFrame)
    requires w.Legal()
    ensures var e := Encode(w); var n := |w.payload|;
      && |e| >= 2 && e[0] == (if w.fin then 0x80 else 0) + 0x10 * w.rsv + w.op
      && (w.form.Short? ==> e[1] == (if w.key.Some? then 0x80 else 0) + n && |Head(w)| == 2 + |KeyBytes(w.key)|)
      && (w.form.Medium? ==>
            && |e| >= 4 && e[1] == (if w.key.Some? then 0x80 else 0) + 126 && |Head(w)| == 4 + |KeyBytes(w.key)|
            && e[2] == n / 256 && e[3] == n % 256)
      && (w.form.Long? ==>
            && |e| >= 10 && e[1] == (if w.key.Some? then 0x80 else 0) + 127 && |Head(w)| == 10 + |KeyBytes(w.key)|
            && forall i | 2 <= i < 10 :: e[i] == n / Pow256(9 - i) % 256)
      && (w.key.Some? ==> e[|Head(w)| - 4..|Head(w)|] == w.key.value)
      && e[|Head(w)|..] == Body(w.key, w.payload)
  {
    hide BigEndian, Body, Pow256;
    var e, n := Encode(w), |w.payload|;
    match w.form
    case Short =>
    case Medium =>
      TwoBytes(n, 0, 0);
      assert e[2] == BigEndian(n, 2)[0] && e[3] == BigEndian(n, 2)[1];
    case Long =>
      forall i | 2 <= i < 10 ensures e[i] == n / Pow256(9 - i) % 256 {
        BigEndianBytes(n, 8, i - 2);
        assert e[i] == BigEndian(n, 8)[i - 2];
      }
  }

  /** Narrowing keeps the value modulo 2^32 and lands in the range of a 32-bit int. */
  lemma GoIntExact(v: int)
    ensures -0x8000_0000 <= GoInt(v) < 0x8000_0000 && (v - GoInt(v)) % 0x1_0000_0000 == 0
    ensures -0x8000_0000 <= v < 0x8000_0000 ==> GoInt(v) == v
  {
  }
}
