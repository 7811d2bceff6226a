/** SMS-SUBMIT PDUs (sections 9.2.2.2 and 9.1.2.5 of 3GPP TS 23.040): the decoder, a reference
    encoder, and the rewrite that asks for a delivery report. */
module Pdu {
  import opened Bits
  import opened Wrappers
  import opened Text
  import Frames

  datatype PduInfo = PduInfo(phone: string, dcs: nat, atLength: int, mr: nat)

  datatype PduError = BadHex | Cut

  // ----- Reference encoder -----

  type nibble = x: int | 0 <= x < 16

  /** The fields of an SMS-SUBMIT behind an SMSC header. `filler` is the unused half octet of
      an odd number of digits; the standard asks for 15 there. */
  datatype Submit = Submit(smsc: bytes, first: byte, mr: byte, toa: byte, digits: seq<nibble>, filler: nibble,
                           pid: byte, dcs: byte, tail: bytes)
  {
    ghost predicate Valid() { |smsc| < 256 && |digits| < 256 }
  }

  /** Two half octets, the low one first. */
  function Pack(lo: nat, hi: nat): byte
    requires lo < 16 && hi < 16
  {
    lo + 16 * hi
  }

  /** Digits in swapped half octets. */
  function SemiOctets(ds: seq<nibble>, filler: nibble): (r: bytes)
    ensures |r| == (|ds| + 1) / 2
  {
    if ds == [] then []
    else if |ds| == 1 then [Pack(ds[0], filler)]
    else [Pack(ds[0], ds[1])] + SemiOctets(ds[2..], filler)
  }

  /** Everything after the SMSC part. */
  function Tpdu(x: Submit): bytes
    requires x.Valid()
  {
    [x.first, x.mr, |x.digits|, x.toa] + SemiOctets(x.digits, x.filler) + [x.pid, x.dcs] + x.tail
  }

  function EncodeSubmit(x: Submit): bytes
    requires x.Valid()
  {
    [|x.smsc|] + x.smsc + Tpdu(x)
  }

  function DigitString(ds: seq<nibble>): (s: string)
    ensures |s| == |ds|
  {
    seq(|ds|, i requires 0 <= i < |ds| => UpperDigit(ds[i]))
  }

  function Info(x: Submit): PduInfo
    requires x.Valid()
  {
    PduInfo(DigitString(x.digits), x.dcs, |Tpdu(x)|, x.mr)
  }

  // ----- The relay's decoder -----

  /** Both half octets of every byte, low half first. */
  function Halves(s: bytes): (ds: seq<nibble>)
    ensures |ds| == 2 * |s|
  {
    if s == [] then [] else [s[0] % 16, s[0] / 16] + Halves(s[1..])
  }

  /** The first octet: how long the SMSC part is. */
  function SmscLength(p: bytes): nat
    requires p != []
  {
    p[0]
  }

  /** The address length: how many digits the recipient has. */
  function AddressLength(p: bytes): nat
    requires p != [] && SmscLength(p) + 3 < |p|
  {
    p[SmscLength(p) + 3]
  }

  /** What the decoder makes of the octets; Cut stands for the recovered panic. */
  function DecodeBytes(p: bytes): Result<PduInfo, PduError> {
    if p == [] || SmscLength(p) + 3 >= |p| then Failure(Cut) else
    var k, len := SmscLength(p), AddressLength(p);
    var n := (len + 1) / 2;
    if k + 5 + n + 1 >= |p| then Failure(Cut) else
    var digits := DigitString(Halves(p[k + 5..k + 5 + n]));
    Success(PduInfo(digits[..len], p[k + 6 + n], |p| - 1 - k, p[k + 2]))
  }

  function Decode(pduHex: string): Result<PduInfo, PduError> {
    match HexDecode(TrimSpace(pduHex))
    case None => Failure(BadHex)
    case Some(p) => DecodeBytes(p)
  }

  lemma PackHalves(lo: nat, hi: nat)
    requires lo < 16 && hi < 16
    ensures Pack(lo, hi) % 16 == lo && Pack(lo, hi) / 16 == hi
  {
  }

  /** Decoding semi-octets gives the digits back, the filler after an odd number. */
  lemma {:induction false} HalvesOfSemiOctets(ds: seq<nibble>, filler: nibble)
    ensures Halves(SemiOctets(ds, filler)) == if |ds| % 2 == 0 then ds else ds + [filler]
    decreases |ds|
  {
    hide Pack;
    if |ds| == 1 {
      PackHalves(ds[0], filler);
      assert SemiOctets(ds, filler)[1..] == [];
      assert Halves(SemiOctets(ds, filler)) == [ds[0], filler] + [];
    } else if |ds| >= 2 {
      PackHalves(ds[0], ds[1]);
      HalvesOfSemiOctets(ds[2..], filler);
      assert SemiOctets(ds, filler)[1..] == SemiOctets(ds[2..], filler);
      assert ds == [ds[0], ds[1]] + ds[2..];
    }
  }

  /** Any octets are the semi-octets of their halves. */
  lemma {:induction false} SemiOctetsOfHalves(s: bytes, n: nat, filler: nibble)
    requires (n + 1) / 2 == |s| && (n % 2 == 1 ==> filler == Halves(s)[n])
    ensures SemiOctets(Halves(s)[..n], filler) == s
    decreases |s|
  {
    var ds := Halves(s)[..n];
    if n == 1 {
      assert s == [s[0]];
    } else if n >= 2 {
      assert Halves(s)[2..] == Halves(s[1..]);
      assert ds[2..] == Halves(s[1..])[..n - 2];
      SemiOctetsOfHalves(s[1..], n - 2, filler);
      assert s == [s[0]] + s[1..];
    }
  }

  /** The submit message that an accepted octet string spells. */
  function Spelled(p: bytes): Submit
    requires DecodeBytes(p).Success?
  {
    var k, len := SmscLength(p), AddressLength(p);
    var n := (len + 1) / 2;
    var ds := Halves(p[k + 5..k + 5 + n]);
    Submit(p[1..k + 1], p[k + 1], p[k + 2], p[k + 4], ds[..len],
           if len % 2 == 1 then ds[len] else 15, p[k + 5 + n], p[k + 6 + n], p[k + 7 + n..])
  }

  lemma Layout(x: Submit)
    requires x.Valid()
    ensures var p := EncodeSubmit(x); var k := |x.smsc|; var n := (|x.digits| + 1) / 2;
      && |p| == k + 7 + n + |x.tail| && p[0] == k && p[k + 2] == x.mr && p[k + 3] == |x.digits|
      && p[k + 5..k + 5 + n] == SemiOctets(x.digits, x.filler)
      && p[k + 6 + n] == x.dcs && |Tpdu(x)| == |p| - 1 - k
  {
  }

  /** The decoder inverts the encoder for every SMSC header, digit count and tail. */
  lemma DecodeInverts(x: Submit)
    requires x.Valid()
    ensures DecodeBytes(EncodeSubmit(x)) == Success(Info(x))
  {
    hide EncodeSubmit, Tpdu, SemiOctets, Halves;
    Layout(x);
    HalvesOfSemiOctets(x.digits, x.filler);
    var ds := Halves(SemiOctets(x.digits, x.filler));
    assert DigitString(ds)[..|x.digits|] == DigitString(x.digits);
  }

  lemma SpelledEncodes(p: bytes)
    requires DecodeBytes(p).Success?
    ensures Spelled(p).Valid() && EncodeSubmit(Spelled(p)) == p
  {
    hide SemiOctets, Halves, EncodeSubmit, Tpdu;
    var x := Spelled(p);
    var k, len := SmscLength(p), AddressLength(p);
    var n := (len + 1) / 2;
    SemiOctetsOfHalves(p[k + 5..k + 5 + n], len, x.filler);
    Assembled(p, x, k, n);
  }

  lemma Assembled(p: bytes, x: Submit, k: nat, n: nat)
    requires x.Valid() && k + 6 + n < |p| && k == p[0] && |x.digits| == p[k + 3]
    requires x.smsc == p[1..k + 1] && SemiOctets(x.digits, x.filler) == p[k + 5..k + 5 + n]
    requires x.first == p[k + 1] && x.mr == p[k + 2] && x.toa == p[k + 4]
    requires x.pid == p[k + 5 + n] && x.dcs == p[k + 6 + n] && x.tail == p[k + 7 + n..]
    ensures EncodeSubmit(x) == p
  {
    hide SemiOctets;
    PduPieces(p, k, n);
  }

  lemma PduPieces(p: bytes, k: nat, n: nat)
    requires k + 6 + n < |p|
    ensures p == [p[0]] + p[1..k + 1]
                 + ([p[k + 1], p[k + 2], p[k + 3], p[k + 4]] + p[k + 5..k + 5 + n]
                    + [p[k + 5 + n], p[k + 6 + n]] + p[k + 7 + n..])
  {
  }

  /** The decoder accepts exactly the encodings of submit messages and reports their fields:
      the phone has as many characters as the address length says and the AT length counts
      the octets after the SMSC part. */
  lemma DecodeExact(p: bytes, info: PduInfo)
    ensures DecodeBytes(p) == Success(info) <==>
            exists x: Submit :: x.Valid() && p == EncodeSubmit(x) && info == Info(x)
    ensures DecodeBytes(p) == Success(info) ==>
            |info.phone| == AddressLength(p) && info.atLength == |p| - 1 - SmscLength(p)
  {
    hide EncodeSubmit, Info, Spelled;
    if DecodeBytes(p) == Success(info) {
      SpelledEncodes(p);
      DecodeInverts(Spelled(p));
    }
    forall x: Submit | x.Valid() && p == EncodeSubmit(x) && info == Info(x)
      ensures DecodeBytes(p) == Success(info)
    {
      DecodeInverts(x);
    }
  }

  /** The exact length condition for acceptance. */
  lemma AcceptedLength(p: bytes)
    ensures DecodeBytes(p).Success? <==>
            p != [] && |p| > SmscLength(p) + 3 && |p| >= SmscLength(p) + 7 + (AddressLength(p) + 1) / 2
  {
  }

  /** The decoder as a cursor over the octets, every index checked where Go would panic. */
  method DecodeSubmitPDU(pduHex: string) returns (r: Result<PduInfo, PduError>)
    ensures r == Decode(pduHex)
  {
    hide And, Halves, HexDecode, TrimSpace;
    var decoded := HexDecode(TrimSpace(pduHex));
    if decoded.None? { return Failure(BadHex); }
    var p := decoded.value;
    if |p| == 0 { return Failure(Cut); }
    var i := SmscLength(p) + 1;
    i := i + 2;
    if i >= |p| { return Failure(Cut); }
    var daLen: nat := p[i];
    i := i + 2;
    var nb := (daLen + 1) / 2;
    assert daLen == AddressLength(p);
    if i + nb > |p| { return Failure(Cut); }
    var digits := "";
    ghost var addr := p[i..i + nb];
    var j := 0;
    NoHalves();
    assert addr[..0] == [];
    while j < nb
      invariant 0 <= j <= nb
      invariant digits == DigitString(Halves(addr[..j]))
    {
      var b := p[i + j];
      Frames.ByteTests(b);
      HalvesGrow(addr, j);
      digits := digits + [UpperDigit(And(b, 0x0F)), UpperDigit(b / 16)];
      j := j + 1;
    }
    assert addr[..nb] == addr;
    if |digits| > daLen { digits := digits[..daLen]; }
    assert digits == DigitString(Halves(addr))[..daLen];
    i := i + nb;
    if i + 1 >= |p| { return Failure(Cut); }
    return Success(PduInfo(digits, p[i + 1], |p| - 1 - SmscLength(p), p[SmscLength(p) + 2]));
  }

  lemma NoHalves()
    ensures DigitString(Halves([])) == ""
  {
  }

  lemma {:induction false} HalvesGrow(s: bytes, j: nat)
    requires j < |s|
    ensures Halves(s[..j + 1]) == Halves(s[..j]) + [s[j] % 16, s[j] / 16]
    ensures DigitString(Halves(s[..j + 1])) ==
            DigitString(Halves(s[..j])) + [UpperDigit(s[j] % 16), UpperDigit(s[j] / 16)]
    decreases j
  {
    if j == 0 {
      assert s[..1][1..] == [] && Halves(s[..1]) == [s[0] % 16, s[0] / 16] + Halves([]);
    } else {
      HalvesGrow(s[1..], j - 1);
      assert s[..j + 1][1..] == s[1..][..j] && s[..j][1..] == s[1..][..j - 1];
    }
  }

  // ----- The delivery report rewrite (section 9.2.3.5) -----

  /** The report path: sets TP-SRR in a PDU that decodes as it stands. */
  function SetReport(pduHex: string): string {
    match HexDecode(pduHex)
    case None => pduHex
    case Some(raw) =>
      if |raw| > 1 && 1 + raw[0] < |raw| then HexEncode(raw[1 + raw[0] := OrByte(raw[1 + raw[0]], 0x20)])
      else pduHex
  }

  /** OR with 0x20 sets digit 5 and keeps the others. */
  lemma SetsOneBit(b: byte)
    ensures forall k: nat :: Bit(OrByte(b, 0x20), k) == (k == 5 || Bit(b, k))
  {
    assert Pow2(5) == 0x20 by { assert Pow2(3) == 8; }
    forall k: nat ensures Bit(OrByte(b, 0x20), k) == (k == 5 || Bit(b, k)) {
      OrBit(b, 0x20, k);
      Pow2Bit(5, k);
    }
  }

  lemma FirstOctetIsFree(p: bytes, b: byte)
    requires DecodeBytes(p).Success?
    ensures DecodeBytes(p[1 + p[0] := b]) == DecodeBytes(p)
  {
    var k := SmscLength(p);
    var q := p[1 + k := b];
    var n := (AddressLength(p) + 1) / 2;
    assert q[k + 5..k + 5 + n] == p[k + 5..k + 5 + n];
  }

  lemma HexHasNoSpace(s: string)
    ensures HexDecode(s).Some? ==> TrimSpace(s) == s
  {
    HexAccepts(s);
    TrimSpaceMeaning(s);
    if s != "" { assert s[0] in s && s[|s| - 1] in s; }
  }

  /** The rewrite keeps what every accepted PDU means: recipient, coding, reference and length.
      It takes effect exactly when nothing surrounds the hex digits, and then changes one bit. */
  lemma ReportKeepsMeaning(pduHex: string)
    requires Decode(pduHex).Success?
    ensures Decode(SetReport(pduHex)) == Decode(pduHex)
    ensures var p := HexDecode(TrimSpace(pduHex)).value;
      HexDecode(TrimSpace(SetReport(pduHex))) ==
      Some(if TrimSpace(pduHex) == pduHex then p[1 + p[0] := OrByte(p[1 + p[0]], 0x20)] else p)
    ensures TrimSpace(pduHex) != pduHex ==> SetReport(pduHex) == pduHex
  {
    hide TrimSpace, HexDecode, HexEncode, OrByte, DecodeBytes;
    var p := HexDecode(TrimSpace(pduHex)).value;
    AcceptedLength(p);
    HexHasNoSpace(pduHex);
    if TrimSpace(pduHex) == pduHex {
      var b := OrByte(p[1 + p[0]], 0x20);
      var q := p[1 + p[0] := b];
      FirstOctetIsFree(p, b);
      HexRoundTrip(q);
      HexHasNoSpace(HexEncode(q));
    }
  }

  /** Every encoding of a submit message, written in hex, is an accepted PDU without surrounding
      space, so the rewrite takes effect on it. */
  lemma EverySubmitAccepted(x: Submit)
    requires x.Valid()
    ensures var h := HexEncode(EncodeSubmit(x));
      Decode(h) == Success(Info(x)) && TrimSpace(h) == h && HexDecode(h) == Some(EncodeSubmit(x))
  {
    hide EncodeSubmit, Info, HexEncode, HexDecode, TrimSpace, DecodeBytes;
    HexRoundTrip(EncodeSubmit(x));
    HexHasNoSpace(HexEncode(EncodeSubmit(x)));
    DecodeInverts(x);
  }

  /** A line feed after a PDU is trimmed before decoding. */
  lemma LineFeedIgnored(pduHex: string)
    requires TrimSpace(pduHex) == pduHex
    ensures TrimSpace(pduHex + "\n") == pduHex && Decode(pduHex + "\n") == Decode(pduHex)
  {
    hide HexDecode, DecodeBytes;
    TrimSpaceMeaning(pduHex);
    var s := pduHex + "\n";
    assert s[..|s| - 1] == pduHex;
    if pduHex != "" {
      assert s[0] == pduHex[0];
    } else {
      assert s[1..] == "";
    }
  }

  /** The case without effect happens too: put a line feed after any accepted PDU and it means
      the same, but the report is no longer asked for. */
  lemma ReportCanBeSkipped(pduHex: string)
    requires Decode(pduHex).Success? && TrimSpace(pduHex) == pduHex
    ensures Decode(pduHex + "\n") == Decode(pduHex) && SetReport(pduHex + "\n") == pduHex + "\n"
    ensures HexDecode(TrimSpace(SetReport(pduHex + "\n"))) == HexDecode(pduHex)
    ensures var p := HexDecode(pduHex).value;
      HexDecode(TrimSpace(SetReport(pduHex))) == Some(p[1 + p[0] := OrByte(p[1 + p[0]], 0x20)])
  {
    hide TrimSpace, HexDecode, HexEncode, OrByte, DecodeBytes, SetReport;
    LineFeedIgnored(pduHex);
    ReportKeepsMeaning(pduHex);
    ReportKeepsMeaning(pduHex + "\n");
    assert TrimSpace(pduHex + "\n") != pduHex + "\n" by { assert |pduHex + "\n"| > |pduHex|; }
  }

  /** Where the fields of an accepted PDU stand, with p[0] octets of SMSC part: digit j of the
      recipient is the low half of its octet when j is even and the high half when it is odd. */
  lemma FieldsExact(p: bytes)
    requires DecodeBytes(p).Success?
    ensures var info := DecodeBytes(p).value; var k: nat := p[0];
      && |p| > k + 6 + (|info.phone| + 1) / 2 && |info.phone| == p[k + 3]
      && (forall j | 0 <= j < |info.phone| ::
            info.phone[j] == UPPER[if j % 2 == 0 then p[k + 5 + j / 2] % 16 else p[k + 5 + j / 2] / 16])
      && info.dcs == p[k + 6 + (|info.phone| + 1) / 2] && info.mr == p[k + 2] && info.atLength == |p| - 1 - k
  {
    hide Halves;
    AcceptedLength(p);
    var k, len := SmscLength(p), AddressLength(p);
    var addr := p[k + 5..k + 5 + (len + 1) / 2];
    forall j | 0 <= j < len
      ensures DigitString(Halves(addr))[j] == UPPER[if j % 2 == 0 then addr[j / 2] % 16 else addr[j / 2] / 16]
    {
      HalvesAt(addr, j);
      DigitsWritten(Halves(addr)[j]);
    }
  }

  lemma {:induction false} HalvesAt(s: bytes, j: nat)
    requires j < 2 * |s|
    ensures Halves(s)[j] == if j % 2 == 0 then s[j / 2] % 16 else s[j / 2] / 16
    decreases |s|
  {
    if j >= 2 { HalvesAt(s[1..], j - 2); }
  }

  /** Why a PDU is refused: no hex octets, or octets that end before the fields. */
  lemma RefusedExact(pduHex: string)
    ensures Decode(pduHex) == Failure(BadHex) <==> forall p :: !SpellsAll(TrimSpace(pduHex), p)
    ensures Decode(pduHex) == Failure(Cut) <==>
            exists p :: SpellsAll(TrimSpace(pduHex), p) && DecodeBytes(p).Failure?
  {
    hide HexDecode, TrimSpace, SpellsAll, Halves;
    var s := TrimSpace(pduHex);
    forall p ensures SpellsAll(s, p) <==> HexDecode(s) == Some(p) { HexExact(s, p); }
    if HexDecode(s).Some? { assert SpellsAll(s, HexDecode(s).value); }
  }
}
