/** Known answers: the example frames of section 5.7 of RFC 6455 and the values the repository's
    own tests use. */
module Vectors {
  import opened Bits
  import opened Wrappers
  import opened Frames
  import opened Messages
  import Text
  import Pdu
  import Sessions

  const HELLO: bytes := [0x48, 0x65, 0x6C, 0x6C, 0x6F]
  const KEY: mask := [0x37, 0xFA, 0x21, 0x3D]

  lemma Xor4837()
    ensures Xor(0x48, 0x37) == 0x7F
  {
    assert Xor(0x2, 0x1) == 0x3;
    assert Xor(0x09, 0x06) == 0x0F;
  }

  lemma Xor65FA()
    ensures Xor(0x65, 0xFA) == 0x9F
  {
    assert Xor(0x3, 0x7) == 0x4;
    assert Xor(0x0C, 0x1F) == 0x13;
  }

  lemma Xor6C21()
    ensures Xor(0x6C, 0x21) == 0x4D
  {
    assert Xor(0x3, 0x1) == 0x2;
    assert Xor(0x0D, 0x04) == 0x09;
  }

  lemma Xor6C3D()
    ensures Xor(0x6C, 0x3D) == 0x51
  {
    assert Xor(0x3, 0x1) == 0x2;
    assert Xor(0x0D, 0x07) == 0x0A;
  }

  lemma Xor6F37()
    ensures Xor(0x6F, 0x37) == 0x58
  {
    assert Xor(0x3, 0x1) == 0x2;
    assert Xor(0x0D, 0x06) == 0x0B;
  }

  lemma MaskedHello()
    ensures Masked(HELLO, KEY) == [0x7F, 0x9F, 0x4D, 0x51, 0x58]
  {
    hide Xor;
    Xor4837();
    Xor65FA();
    Xor6C21();
    Xor6C3D();
    Xor6F37();
  }

  /** The masked text and pong frames, and headers for 256 bytes and 64 KiB of binary data. */
  lemma FramesWritten()
    ensures ClientFrame(1, HELLO, KEY) == [0x81, 0x85, 0x37, 0xFA, 0x21, 0x3D, 0x7F, 0x9F, 0x4D, 0x51, 0x58]
    ensures ClientFrame(10, HELLO, KEY) == [0x8A, 0x85, 0x37, 0xFA, 0x21, 0x3D, 0x7F, 0x9F, 0x4D, 0x51, 0x58]
    ensures ClientHead(2, 256, KEY) == [0x82, 0xFE, 0x01, 0x00, 0x37, 0xFA, 0x21, 0x3D]
    ensures ClientHead(2, 65536, KEY) == [0x82, 0xFF, 0, 0, 0, 0, 0, 0x01, 0x00, 0x00, 0x37, 0xFA, 0x21, 0x3D]
  {
    MaskedHello();
    TwoBytes(256, 0, 0);
    LongLength();
  }

  lemma LongLength()
    ensures BigEndian(65536, 8) == [0, 0, 0, 0, 0, 1, 0, 0]
  {
    assert BigEndian(0, 1) == [0] && BigEndian(0, 2) == [0, 0] && BigEndian(0, 3) == [0, 0, 0];
    assert BigEndian(0, 5) == [0, 0, 0, 0, 0] by { assert BigEndian(0, 4) == [0, 0, 0, 0]; }
    assert BigEndian(1, 6) == [0, 0, 0, 0, 0, 1];
    assert BigEndian(256, 7) == [0, 0, 0, 0, 0, 1, 0];
  }

  /** An unmasked frame with a short payload. */
  lemma ShortParsed(b: byte, p: bytes, rest: bytes)
    requires |p| < 126
    ensures Parse([b, |p|] + p + rest) == Got(Frame(b % 16, b >= 128, p), rest)
  {
    hide Masked;
    var s: bytes := [b, |p|] + p + rest;
    assert s[2..2 + |p|] == p && s[2 + |p|..] == rest;
  }

  /** The unmasked text frame, the ping, and the text in two fragments. */
  lemma PlainParsed()
    ensures Parse([0x81, 0x05] + HELLO) == Got(Frame(1, true, HELLO), [])
    ensures Parse([0x89, 0x05] + HELLO) == Got(Frame(9, true, HELLO), [])
    ensures Parse([0x01, 0x03, 0x48, 0x65, 0x6C, 0x80, 0x02, 0x6C, 0x6F]) ==
            Got(Frame(1, false, [0x48, 0x65, 0x6C]), [0x80, 0x02, 0x6C, 0x6F])
    ensures Parse([0x80, 0x02, 0x6C, 0x6F]) == Got(Frame(0, true, [0x6C, 0x6F]), [])
  {
    hide Parse;
    ShortParsed(0x81, HELLO, []);
    ShortParsed(0x89, HELLO, []);
    assert [0x81, 0x05] + HELLO + [] == [0x81, 0x05] + HELLO;
    assert [0x89, 0x05] + HELLO + [] == [0x89, 0x05] + HELLO;
    ShortParsed(0x01, [0x48, 0x65, 0x6C], [0x80, 0x02, 0x6C, 0x6F]);
    assert [0x01, 0x03] + [0x48, 0x65, 0x6C] + [0x80, 0x02, 0x6C, 0x6F] ==
           [0x01, 0x03, 0x48, 0x65, 0x6C, 0x80, 0x02, 0x6C, 0x6F];
    ShortParsed(0x80, [0x6C, 0x6F], []);
    assert [0x80, 0x02] + [0x6C, 0x6F] + [] == [0x80, 0x02, 0x6C, 0x6F];
  }

  /** The masked text frame. */
  lemma MaskedParsed()
    ensures Parse([0x81, 0x85] + KEY + [0x7F, 0x9F, 0x4D, 0x51, 0x58]) == Got(Frame(1, true, HELLO), [])
  {
    hide Masked;
    MaskedHello();
    MaskedTwice(HELLO, KEY);
    var s: bytes := [0x81, 0x85] + KEY + [0x7F, 0x9F, 0x4D, 0x51, 0x58];
    assert s[2..6] == KEY && s[6..11] == [0x7F, 0x9F, 0x4D, 0x51, 0x58];
  }

  /** A whole text message, the same in two fragments, a binary one, a close, and opcode 3. */
  lemma MessagesRead(rand: Entropy, l: Link)
    ensures Receive(rand, [0x81, 0x05] + HELLO, l, NOTHING) == Message(1, HELLO, [], l)
    ensures Receive(rand, [0x01, 0x03, 0x48, 0x65, 0x6C, 0x80, 0x02, 0x6C, 0x6F], l, NOTHING) ==
            Message(1, HELLO, [], l)
    ensures Receive(rand, [0x82, 0x00], l, NOTHING) == Message(2, [], [], l)
    ensures Receive(rand, [0x8A, 0x00, 0x82, 0x00], l, NOTHING) == Message(2, [], [], l)
    ensures Receive(rand, [0x88, 0x00], l, NOTHING) == Ended(ServerClosed, l)
    ensures Receive(rand, [0x83, 0x00], l, NOTHING) == Ended(BadOpcode(3), l)
    ensures Receive(rand, [0x80, 0x00], l, NOTHING) == Ended(NoStartFrame, l)
  {
    PlainParsed();
    EmptyFrames();
    hide Parse;
    var two: bytes := [0x80, 0x02, 0x6C, 0x6F];
    assert Receive(rand, two, l, Partial(1, [0x48, 0x65, 0x6C])) == Message(1, HELLO, [], l);
  }

  lemma EmptyFrames()
    ensures Parse([0x88, 0x00]) == Got(Frame(8, true, []), [])
    ensures Parse([0x82, 0x00]) == Got(Frame(2, true, []), [])
    ensures Parse([0x8A, 0x00, 0x82, 0x00]) == Got(Frame(10, true, []), [0x82, 0x00])
    ensures Parse([0x83, 0x00]) == Got(Frame(3, true, []), [])
    ensures Parse([0x80, 0x00]) == Got(Frame(0, true, []), [])
  {
  }

  // ----- The PDU of the tests -----

  const SAMPLE := "0001000C9183902143658700000141"
  const OCTETS: bytes := [0x00, 0x01, 0x00, 0x0C, 0x91, 0x83, 0x90, 0x21, 0x43, 0x65, 0x87, 0x00, 0x00, 0x01, 0x41]

  lemma FirstOctets(i: nat)
    requires i < 8
    ensures Text.Spells(SAMPLE[2 * i], OCTETS[i] / 16) && Text.Spells(SAMPLE[2 * i + 1], OCTETS[i] % 16)
  {
  }

  lemma LastOctets(i: nat)
    requires 8 <= i < 15
    ensures Text.Spells(SAMPLE[2 * i], OCTETS[i] / 16) && Text.Spells(SAMPLE[2 * i + 1], OCTETS[i] % 16)
  {
  }

  lemma SampleOctets()
    ensures Text.HexDecode(SAMPLE) == Some(OCTETS)
  {
    hide Text.HexDecode, Text.Spells;
    forall i | 0 <= i < |OCTETS|
      ensures Text.Spells(SAMPLE[2 * i], OCTETS[i] / 16) && Text.Spells(SAMPLE[2 * i + 1], OCTETS[i] % 16)
    {
      if i < 8 { FirstOctets(i); } else { LastOctets(i); }
    }
    Text.HexExact(SAMPLE, OCTETS);
  }

  /** The decoder's answer for it. */
  lemma SampleDecoded()
    ensures Pdu.Decode(SAMPLE) == Success(Pdu.PduInfo("380912345678", 0, 14, 0))
  {
    hide Text.HexDecode, Text.TrimSpace, Pdu.DecodeBytes;
    SampleOctets();
    Pdu.HexHasNoSpace(SAMPLE);
    Pdu.AcceptedLength(OCTETS);
    Pdu.FieldsExact(OCTETS);
    var info := Pdu.DecodeBytes(OCTETS).value;
    assert info.phone == "380912345678";
  }

  /** What a raw session writes: five commands, the last one ended by Ctrl-Z. */
  lemma ScriptWritten(pduHex: string, tpduLen: int)
    ensures Sessions.Script(pduHex, tpduLen, false) ==
            ["AT+CMEE=1\r", "AT+CMGF=0\r", "AT+CMGS=" + Text.Decimal(tpduLen) + "\r",
             Text.ToUpper(pduHex) + [26 as char]]
    ensures Sessions.Script(pduHex, tpduLen, true) ==
            ["AT+CMEE=1\r", "AT+CMGF=0\r", "AT+CNMI=2,1,0,1,0\r", "AT+CMGS=" + Text.Decimal(tpduLen) + "\r",
             Text.ToUpper(Pdu.SetReport(pduHex)) + [26 as char]]
  {
    hide Text.Decimal, Text.ToUpper, Pdu.SetReport;
  }
}
