/** The atserver record format and the two transports for a PDU. */
module AtServer {
  import opened Bits
  import opened Wrappers
  import opened Text
  import opened Pdu

  const REQ_SIZE: nat := 0x208
  const TEXT_MAX: nat := REQ_SIZE - 8
  const CTRL_Z: string := "\U{1A}"

  /** Does the text trigger two-stage framing? */
  predicate IsCmgs(text: string) {
    (Contains(ToUpper(text), "+CMGS=") || Contains(ToUpper(text), "+CMGW=")) && Contains(text, ">")
  }

  /** The text that goes into the record for a command. */
  function RecordText(cmd: string): string {
    var text := TrimCrLf(cmd);
    if IsCmgs(text) then text else text + "\r\n"
  }

  /** Does "+CMGS=" or "+CMGW=" start at offset i, in any mixture of cases? */
  ghost predicate MentionAt(text: string, i: int) {
    && 0 <= i && i + 6 <= |text| && text[i] == '+' && text[i + 1] in "cC" && text[i + 2] in "mM"
    && text[i + 3] in "gG" && (text[i + 4] in "sSwW" || text[i + 4] as nat == 0x17F) && text[i + 5] == '='
  }

  ghost predicate Mentions(text: string) {
    exists i :: MentionAt(text, i)
  }

  lemma UpperIs(c: char)
    ensures Upper(c) == '+' <==> c == '+'
    ensures Upper(c) == '=' <==> c == '='
    ensures Upper(c) == 'C' <==> c in "cC"
    ensures Upper(c) == 'M' <==> c in "mM"
    ensures Upper(c) == 'G' <==> c in "gG"
    ensures Upper(c) == 'W' <==> c in "wW"
    ensures Upper(c) == 'S' <==> c in "sS" || c as nat == 0x17F
  {
  }

  lemma SixAt(up: string, w: char, i: nat)
    requires i + 6 <= |up|
    ensures At(up, "+CMG" + [w] + "=", i) <==>
            && up[i] == '+' && up[i + 1] == 'C' && up[i + 2] == 'M' && up[i + 3] == 'G' && up[i + 4] == w
            && up[i + 5] == '='
  {
    var t := "+CMG" + [w] + "=";
    assert t == ['+', 'C', 'M', 'G', w, '='];
    assert up[i..i + 6] == [up[i], up[i + 1], up[i + 2], up[i + 3], up[i + 4], up[i + 5]];
  }

  lemma MentionsAt(text: string, i: nat)
    requires i + 6 <= |text|
    ensures At(ToUpper(text), "+CMGS=", i) || At(ToUpper(text), "+CMGW=", i) <==> MentionAt(text, i)
  {
    hide Upper, At;
    assert "+CMG" + ['S'] + "=" == "+CMGS=" && "+CMG" + ['W'] + "=" == "+CMGW=";
    SixAt(ToUpper(text), 'S', i);
    SixAt(ToUpper(text), 'W', i);
    UpperIs(text[i]);
    UpperIs(text[i + 1]);
    UpperIs(text[i + 2]);
    UpperIs(text[i + 3]);
    UpperIs(text[i + 4]);
    UpperIs(text[i + 5]);
  }

  lemma HasMark(text: string)
    ensures Contains(text, ">") <==> '>' in text
  {
    if i :| 0 <= i < |text| && text[i] == '>' { assert text[i..i + 1] == ">" && At(text, ">", i); }
    if Contains(text, ">") {
      var i: nat :| i <= |text| && At(text, ">", i);
      assert text[i] == text[i..i + 1][0] == '>';
    }
  }

  lemma HasMention(text: string)
    ensures Contains(ToUpper(text), "+CMGS=") || Contains(ToUpper(text), "+CMGW=") <==> Mentions(text)
  {
    hide ToUpper, MentionAt;
    var up := ToUpper(text);
    if i: nat :| i <= |up| && (At(up, "+CMGS=", i) || At(up, "+CMGW=", i)) { MentionsAt(text, i); }
    if i: int :| MentionAt(text, i) {
      InText(text, i);
      MentionsAt(text, i);
    }
  }

  lemma InText(text: string, i: int)
    requires MentionAt(text, i)
    ensures 0 <= i && i + 6 <= |text|
  {
  }

  /** The two-stage test, character by character. */
  lemma IsCmgsExact(text: string)
    ensures IsCmgs(text) <==> '>' in text && Mentions(text)
  {
    hide ToUpper, Mentions, Contains;
    HasMark(text);
    HasMention(text);
  }

  /** Milliseconds of a duration in nanoseconds, rounded toward zero. */
  function Milliseconds(ns: int): int {
    if ns >= 0 then ns / 1_000_000 else -((-ns) / 1_000_000)
  }

  function Record(text: bytes, ms: int): (r: bytes)
    requires |text| <= TEXT_MAX
    ensures |r| == REQ_SIZE
  {
    LittleEndian(|text|, 2) + [0, 0] + LittleEndian(ms % 0x1_0000_0000, 4) + text + seq(TEXT_MAX - |text|, _ => 0)
  }

  function Frame(cmd: string, timeout: int): Result<bytes, nat> {
    var text := Utf8(RecordText(cmd));
    if |text| > TEXT_MAX then Failure(|text|) else Success(Record(text, Milliseconds(timeout)))
  }

  /** What atserver reads out of a record. */
  function TextOf(rec: bytes): bytes
    requires |rec| == REQ_SIZE
  {
    var n := LittleValue(rec[..2]);
    if 8 + n <= REQ_SIZE then rec[8..8 + n] else rec[8..]
  }

  function TimeoutOf(rec: bytes): nat
    requires |rec| == REQ_SIZE
  {
    LittleValue(rec[4..8])
  }

  /** The record decodes back: text, and timeout modulo 2^32 milliseconds. */
  lemma RecordDecodes(text: bytes, ms: int)
    requires |text| <= TEXT_MAX
    ensures TextOf(Record(text, ms)) == text && TimeoutOf(Record(text, ms)) == ms % 0x1_0000_0000
    ensures Record(text, ms)[2..4] == [0, 0]
    ensures forall i | 8 + |text| <= i < REQ_SIZE :: Record(text, ms)[i] == 0
  {
    Pow256Values();
    LittleRoundTrip(|text|, 2);
    LittleRoundTrip(ms % 0x1_0000_0000, 4);
    hide LittleValue, LittleEndian;
    var r := Record(text, ms);
    assert r[..2] == LittleEndian(|text|, 2);
    assert r[4..8] == LittleEndian(ms % 0x1_0000_0000, 4);
    assert r[8..8 + |text|] == text;
  }

  /** A command has a record exactly when its text fits 512 bytes; the record is 0x208 bytes
      long and gives back the text and, for timeouts below 2^32 ms, the timeout. */
  lemma FrameDecodes(cmd: string, timeout: int)
    ensures Frame(cmd, timeout).Success? <==> |Utf8(RecordText(cmd))| <= TEXT_MAX
    ensures Frame(cmd, timeout).Success? ==>
      var r := Frame(cmd, timeout).value;
      && |r| == REQ_SIZE && TextOf(r) == Utf8(RecordText(cmd))
      && r[2..4] == [0, 0] && (forall i | 8 + |TextOf(r)| <= i < REQ_SIZE :: r[i] == 0)
      && (0 <= timeout < 0x1_0000_0000 * 1_000_000 ==> TimeoutOf(r) == timeout / 1_000_000)
  {
    hide Record;
    if |Utf8(RecordText(cmd))| <= TEXT_MAX {
      RecordDecodes(Utf8(RecordText(cmd)), Milliseconds(timeout));
      if 0 <= timeout < 0x1_0000_0000 * 1_000_000 { assert 0 <= timeout / 1_000_000 < 0x1_0000_0000; }
    }
  }

  /** What the record carries of a command: its text without trailing CR and LF, and CR LF after it
      unless the text has a '>' and mentions +CMGS= or +CMGW=. */
  lemma FrameText(cmd: string, timeout: int)
    requires Frame(cmd, timeout).Success?
    ensures var t := TrimCrLf(cmd); var r := Frame(cmd, timeout).value;
      && |r| == 520 && TextOf(r) == Utf8(if '>' in t && Mentions(t) then t else t + "\r\n")
    ensures '>' !in cmd ==> TextOf(Frame(cmd, timeout).value) == Utf8(TrimCrLf(cmd) + "\r\n")
  {
    hide Utf8, IsCmgs, TextOf, Mentions, Record;
    IsCmgsExact(TrimCrLf(cmd));
    FrameDecodes(cmd, timeout);
    assert forall i | 0 <= i < |TrimCrLf(cmd)| :: TrimCrLf(cmd)[i] == cmd[i];
  }

  /** The bytes of a record: length and timeout with the low byte first, zeros between and after. */
  lemma RecordBytes(text: bytes, ms: int)
    requires |text| <= 512
    ensures var r := Record(text, ms); var t := ms % 0x1_0000_0000;
      && |r| == 520 && r[0] == |text| % 256 && r[1] == |text| / 256 && r[2] == 0 && r[3] == 0
      && r[4] == t % 256 && r[5] == t / 0x100 % 256 && r[6] == t / 0x1_0000 % 256 && r[7] == t / 0x100_0000 % 256
      && r[8..8 + |text|] == text && forall i | 8 + |text| <= i < 520 :: r[i] == 0
  {
    hide LittleEndian;
    var t: nat := ms % 0x1_0000_0000;
    TwoBytes(|text|, 0, 0);
    LittleEndianBytes(t, 4, 0);
    LittleEndianBytes(t, 4, 1);
    LittleEndianBytes(t, 4, 2);
    LittleEndianBytes(t, 4, 3);
    SmallPow256();
    var r := Record(text, ms);
    assert r[4] == LittleEndian(t, 4)[0] && r[5] == LittleEndian(t, 4)[1];
    assert r[6] == LittleEndian(t, 4)[2] && r[7] == LittleEndian(t, 4)[3];
    assert r[0] == LittleEndian(|text|, 2)[0] && r[1] == LittleEndian(|text|, 2)[1];
    assert r[8..8 + |text|] == text;
  }

  lemma SmallPow256()
    ensures Pow256(0) == 1 && Pow256(1) == 0x100 && Pow256(2) == 0x1_0000 && Pow256(3) == 0x100_0000
  {
  }

  /** A timeout is cut to whole milliseconds toward zero. */
  lemma MillisecondsExact(ns: int)
    ensures ns >= 0 ==> Milliseconds(ns) >= 0 && 0 <= ns - 1_000_000 * Milliseconds(ns) < 1_000_000
    ensures ns < 0 ==> Milliseconds(ns) <= 0 && 0 <= 1_000_000 * Milliseconds(ns) - ns < 1_000_000
  {
  }

  /** Records tell requests apart up to trailing CR and LF of the command and up to the timeout
      in milliseconds modulo 2^32, and only up to those. */
  lemma FrameInjective(cmd1: string, timeout1: int, cmd2: string, timeout2: int)
    requires Frame(cmd1, timeout1).Success? && Frame(cmd2, timeout2).Success?
    ensures Frame(cmd1, timeout1) == Frame(cmd2, timeout2) <==>
            && TrimCrLf(cmd1) == TrimCrLf(cmd2)
            && Milliseconds(timeout1) % 0x1_0000_0000 == Milliseconds(timeout2) % 0x1_0000_0000
  {
    hide IsCmgs, TextOf, TimeoutOf, Utf8, TrimCrLf, Milliseconds;
    RecordDecodes(Utf8(RecordText(cmd1)), Milliseconds(timeout1));
    RecordDecodes(Utf8(RecordText(cmd2)), Milliseconds(timeout2));
    hide Record;
    if Frame(cmd1, timeout1) == Frame(cmd2, timeout2) {
      Utf8Injective(RecordText(cmd1), RecordText(cmd2));
      var t1, t2 := TrimCrLf(cmd1), TrimCrLf(cmd2);
      NoCrLfAtEnd(cmd1);
      NoCrLfAtEnd(cmd2);
      SameRecordText(t1, IsCmgs(t1), t2, IsCmgs(t2));
    } else if TrimCrLf(cmd1) == TrimCrLf(cmd2) {
      SameMilliseconds(Utf8(RecordText(cmd1)), Milliseconds(timeout1), Milliseconds(timeout2));
    }
  }

  lemma NoCrLfAtEnd(s: string)
    ensures TrimCrLf(s) == "" || !IsCrLf(TrimCrLf(s)[|TrimCrLf(s)| - 1])
  {
  }

  lemma SameMilliseconds(text: bytes, ms1: int, ms2: int)
    requires |text| <= TEXT_MAX
    ensures ms1 % 0x1_0000_0000 == ms2 % 0x1_0000_0000 ==> Record(text, ms1) == Record(text, ms2)
  {
  }

  lemma FrameOfTrimmed(cmd1: string, cmd2: string, timeout: int)
    requires TrimCrLf(cmd1) == TrimCrLf(cmd2)
    ensures Frame(cmd1, timeout) == Frame(cmd2, timeout)
  {
  }

  lemma SameRecordText(t1: string, bare1: bool, t2: string, bare2: bool)
    requires t1 == "" || !IsCrLf(t1[|t1| - 1])
    requires t2 == "" || !IsCrLf(t2[|t2| - 1])
    requires (if bare1 then t1 else t1 + "\r\n") == (if bare2 then t2 else t2 + "\r\n")
    ensures t1 == t2
  {
    var w := if bare1 then t1 else t1 + "\r\n";
    assert !bare1 ==> w != "" && IsCrLf(w[|w| - 1]);
    assert !bare2 ==> w != "" && IsCrLf(w[|w| - 1]);
    assert bare1 == bare2;
    if !bare1 && !bare2 { assert t1 == (t1 + "\r\n")[..|t1|] && t2 == (t2 + "\r\n")[..|t2|]; }
  }

  /** Appending CR and LF to a command changes nothing. */
  lemma CrLfIgnored(cmd: string, tail: string, timeout: int)
    requires forall c | c in tail :: c in "\r\n"
    ensures Frame(cmd + tail, timeout) == Frame(cmd, timeout)
  {
    TrimCrLfAppended(cmd, tail);
    FrameOfTrimmed(cmd + tail, cmd, timeout);
  }

  /** Builds the record in a zeroed buffer of the fixed size. */
  method AtSrvFrame(cmd: string, timeout: int) returns (r: Result<bytes, nat>)
    ensures r == Frame(cmd, timeout)
  {
    hide LittleEndian, Utf8, IsCmgs, TrimCrLf;
    var text := TrimCrLf(cmd);
    if !IsCmgs(text) { text := text + "\r\n"; }
    var enc := Utf8(text);
    if |enc| > TEXT_MAX { return Failure(|enc|); }
    var buf := new byte[REQ_SIZE](_ => 0);
    var size := LittleEndian(|enc|, 2);
    var time := LittleEndian(Milliseconds(timeout) % 0x1_0000_0000, 4);
    forall i | 0 <= i < 2 { buf[i] := size[i]; }
    forall i | 0 <= i < 4 { buf[4 + i] := time[i]; }
    forall i | 0 <= i < |enc| { buf[8 + i] := enc[i]; }
    assert buf[..] == size + [0, 0] + time + enc + seq(TEXT_MAX - |enc|, _ => 0);
    return Success(buf[..]);
  }

  /** The text of a response of which the first |got| bytes arrived. */
  function ResponseText(got: bytes): Result<bytes, nat> {
    if |got| < 8 then Failure(|got|) else
    var ln := LittleValue(got[..2]);
    Success(got[8..8 + if ln > |got| - 8 then |got| - 8 else ln])
  }

  /** A response cut anywhere yields the announced text as far as it came, and an error when
      not even the header came. */
  lemma ResponseDecodes(head: bytes, text: bytes, pad: bytes, n: nat)
    requires |head| == 8 && LittleValue(head[..2]) == |text| && n <= 8 + |text| + |pad|
    ensures ResponseText((head + text + pad)[..n]) ==
            if n < 8 then Failure(n) else Success(text[..if n - 8 < |text| then n - 8 else |text|])
  {
    hide LittleValue;
    if n >= 8 { TextSlice(head, text, pad, n, if n - 8 < |text| then n - 8 else |text|); }
  }

  lemma TextSlice(head: bytes, text: bytes, pad: bytes, n: nat, m: nat)
    requires |head| == 8 && m <= |text| && 8 + m <= n <= 8 + |text| + |pad|
    ensures (head + text + pad)[..n][8..8 + m] == text[..m]
    ensures (head + text + pad)[..n][..2] == head[..2]
  {
  }

  // ----- The two ways a PDU reaches the modem -----

  /** The command for atserver. */
  function CmgsCommand(pduHex: string, tpduLen: int): string {
    "AT+CMGS=" + Decimal(tpduLen) + ">" + ToUpper(pduHex)
  }

  function FirstMark(text: string): (i: nat)
    requires '>' in text
    ensures i < |text| && text[i] == '>' && '>' !in text[..i]
  {
    if text[0] == '>' then 0 else
    assert text == [text[0]] + text[1..];
    var i := 1 + FirstMark(text[1..]);
    assert text[..i] == [text[0]] + text[1..][..i - 1];
    i
  }

  /** The two stages atserver makes of a text: it breaks it at '>', ends the first part with
      CR LF and the second with Ctrl-Z. */
  function Stages(text: string): (string, string)
    requires '>' in text
  {
    (text[..FirstMark(text)] + "\r\n", text[FirstMark(text) + 1..] + CTRL_Z)
  }

  /** The PDU stage on the raw device path. */
  function RawStage(pduHex: string, report: bool): string {
    ToUpper(if report then SetReport(pduHex) else pduHex) + CTRL_Z
  }

  lemma {:induction false} SpacesAround(s: string)
    ensures forall c | c in s :: c in TrimSpace(s) || IsSpace(c)
  {
    SpacesLeft(s);
    SpacesRight(TrimLeftSpace(s));
  }

  lemma {:induction false} SpacesLeft(s: string)
    ensures forall c | c in s :: c in TrimLeftSpace(s) || IsSpace(c)
  {
    if s != "" && IsSpace(s[0]) {
      SpacesLeft(s[1..]);
      assert s == [s[0]] + s[1..];
    }
  }

  lemma {:induction false} SpacesRight(s: string)
    ensures forall c | c in s :: c in TrimRightSpace(s) || IsSpace(c)
  {
    if s != "" && IsSpace(s[|s| - 1]) {
      SpacesRight(s[..|s| - 1]);
      assert s == s[..|s| - 1] + [s[|s| - 1]];
    }
  }

  lemma AcceptedCharacters(pduHex: string)
    requires Decode(pduHex).Success?
    ensures forall c | c in pduHex :: IsHex(c) || IsSpace(c)
    ensures '>' !in ToUpper(pduHex)
  {
    SpacesAround(pduHex);
    HexAccepts(TrimSpace(pduHex));
    forall i | 0 <= i < |pduHex| ensures ToUpper(pduHex)[i] != '>' { assert pduHex[i] in pduHex; }
  }

  lemma {:induction false} TrimUpper(s: string)
    ensures TrimCrLf(ToUpper(s)) == ToUpper(TrimCrLf(s))
  {
    if s != "" && IsCrLf(s[|s| - 1]) {
      TrimUpper(s[..|s| - 1]);
      assert ToUpper(s)[..|s| - 1] == ToUpper(s[..|s| - 1]);
    }
  }

  lemma {:induction false} TrimAfterMark(head: string, s: string)
    requires head != "" && !IsCrLf(head[|head| - 1])
    ensures TrimCrLf(head + s) == head + TrimCrLf(s)
    decreases |s|
  {
    if s == "" {
      assert head + s == head;
    } else if IsCrLf(s[|s| - 1]) {
      TrimAfterMark(head, s[..|s| - 1]);
      assert (head + s)[..|head + s| - 1] == head + s[..|s| - 1];
    }
  }

  lemma UpperPrefix(s: string)
    ensures ToUpper(TrimCrLf(s)) <= ToUpper(s)
    ensures ToUpper(TrimCrLf(s)) == "" || !IsCrLf(ToUpper(TrimCrLf(s))[|TrimCrLf(s)| - 1])
  {
  }

  /** The command's head: no '>' before the separator. */
  lemma HeadIsClean(tpduLen: int)
    ensures '>' !in "AT+CMGS=" + Decimal(tpduLen)
  {
    DecimalReads(tpduLen);
  }

  lemma CommandIsCmgs(tpduLen: int, stage: string)
    ensures IsCmgs("AT+CMGS=" + Decimal(tpduLen) + ">" + stage)
  {
    var text := "AT+CMGS=" + Decimal(tpduLen) + ">" + stage;
    var m := 8 + |Decimal(tpduLen)|;
    assert text[m..m + 1] == ">" && At(text, ">", m);
    var up := ToUpper(text);
    assert up[2] == '+' && up[3] == 'C' && up[4] == 'M' && up[5] == 'G' && up[6] == 'S' && up[7] == '=' by {
      assert text[2] == '+' && text[3] == 'C' && text[4] == 'M' && text[5] == 'G' && text[6] == 'S' && text[7] == '=';
    }
    assert up[2..8] == "+CMGS=";
    assert At(up, "+CMGS=", 2);
  }

  /** For every accepted PDU, the record's text has exactly one '>' and no CR LF at its end,
      and atserver breaks it into the command line and the upper-cased PDU. */
  lemma AtServerSees(pduHex: string, tpduLen: int)
    requires Decode(pduHex).Success?
    ensures var text := RecordText(CmgsCommand(pduHex, tpduLen)); var head := "AT+CMGS=" + Decimal(tpduLen);
      && text == head + ">" + ToUpper(TrimCrLf(pduHex)) && !IsCrLf(text[|text| - 1])
      && '>' in text && '>' !in text[..FirstMark(text)] && '>' !in text[FirstMark(text) + 1..]
      && Stages(text) == (head + "\r\n", ToUpper(TrimCrLf(pduHex)) + CTRL_Z)
  {
    hide IsCmgs, Decimal, Decode, TrimCrLf, ToUpper, FirstMark;
    var head := "AT+CMGS=" + Decimal(tpduLen);
    var body := ToUpper(TrimCrLf(pduHex));
    var cmd := CmgsCommand(pduHex, tpduLen);
    assert cmd == (head + ">") + ToUpper(pduHex);
    TrimAfterMark(head + ">", ToUpper(pduHex));
    TrimUpper(pduHex);
    CommandIsCmgs(tpduLen, body);
    var text := head + ">" + body;
    assert RecordText(cmd) == text;
    assert text[|head|] == '>';
    HeadIsClean(tpduLen);
    AcceptedCharacters(pduHex);
    UpperPrefix(pduHex);
    SplitAtMark(head, body, text);
    if body != "" { assert text[|text| - 1] == body[|body| - 1]; }
  }

  lemma SplitAtMark(head: string, body: string, text: string)
    requires text == head + ">" + body && '>' !in head
    ensures '>' in text && FirstMark(text) == |head| && text[..|head|] == head && text[|head| + 1..] == body
  {
    assert text[|head|] == '>';
    var i := FirstMark(text);
    assert forall j | 0 <= j < |head| :: text[j] == head[j] && head[j] in head;
    assert forall j | 0 <= j < i :: text[..i][j] == text[j];
  }

  /** The PDUs that fit one record: nine characters of command, the printed length, the digits. */
  lemma CmgsFits(pduHex: string, tpduLen: int, timeout: int)
    requires Decode(pduHex).Success? && TrimSpace(pduHex) == pduHex
    ensures Frame(CmgsCommand(pduHex, tpduLen), timeout).Success? <==> 9 + |Decimal(tpduLen)| + |pduHex| <= TEXT_MAX
  {
    hide Decode, Record, Utf8, CmgsCommand, ToUpper, TrimSpace, RecordText, Decimal, HexDecode, FirstMark;
    AtServerSees(pduHex, tpduLen);
    TrimSpaceMeaning(pduHex);
    AcceptedDecodes(pduHex);
    assert TrimCrLf(pduHex) == pduHex;
    var body := ToUpper(pduHex);
    var text := "AT+CMGS=" + Decimal(tpduLen) + ">" + body;
    assert Ascii(text) by {
      DecimalReads(tpduLen);
      UpperIsAscii(pduHex);
    }
    AsciiLength(text);
  }

  lemma UpperIsAscii(s: string)
    requires HexDecode(s).Some?
    ensures Ascii(ToUpper(s))
  {
    hide HexDecode;
    HexAccepts(s);
    forall i | 0 <= i < |s| ensures ToUpper(s)[i] as nat < 0x80 { assert s[i] in s; }
  }

  /** Both transports put the same PDU stage before Ctrl-Z exactly when the PDU text does not
      end in CR or LF. Without surrounding white space they agree, and the stage decodes to the
      octets of the original. */
  lemma TransportsAgree(pduHex: string, tpduLen: int)
    requires Decode(pduHex).Success?
    ensures var text := RecordText(CmgsCommand(pduHex, tpduLen));
      && '>' in text
      && (Stages(text).1 == RawStage(pduHex, false) <==> pduHex == "" || !IsCrLf(pduHex[|pduHex| - 1]))
    ensures TrimSpace(pduHex) == pduHex ==>
      var text := RecordText(CmgsCommand(pduHex, tpduLen));
      && Stages(text).1 == ToUpper(pduHex) + CTRL_Z == RawStage(pduHex, false)
      && HexDecode(ToUpper(pduHex)) == HexDecode(pduHex) && HexDecode(pduHex).Some?
  {
    hide RecordText, CmgsCommand, Stages, Decode;
    AtServerSees(pduHex, tpduLen);
    TrimSpaceMeaning(pduHex);
    var cut := TrimCrLf(pduHex);
    assert |ToUpper(cut) + CTRL_Z| == |cut| + 1 && |ToUpper(pduHex) + CTRL_Z| == |pduHex| + 1;
    if TrimSpace(pduHex) == pduHex {
      AcceptedDecodes(pduHex);
      UpperKeepsHex(pduHex);
    }
  }

  /** The case of disagreement happens: put a line feed after any accepted PDU and the decoder
      takes it for the same message, yet the stages differ. */
  lemma TransportsCanDisagree(pduHex: string, tpduLen: int)
    requires Decode(pduHex).Success? && TrimSpace(pduHex) == pduHex
    ensures Decode(pduHex + "\n") == Decode(pduHex)
    ensures var text := RecordText(CmgsCommand(pduHex + "\n", tpduLen));
      && '>' in text && Stages(text).1 == ToUpper(pduHex) + CTRL_Z
      && RawStage(pduHex + "\n", false) == ToUpper(pduHex) + "\n" + CTRL_Z != Stages(text).1
  {
    hide RecordText, CmgsCommand, Stages, Decode, TrimSpace;
    LineFeedIgnored(pduHex);
    AtServerSees(pduHex + "\n", tpduLen);
    TrimSpaceMeaning(pduHex);
    assert (pduHex + "\n")[..|pduHex|] == pduHex;
    assert TrimCrLf(pduHex + "\n") == TrimCrLf(pduHex) == pduHex;
    assert ToUpper(pduHex + "\n") == ToUpper(pduHex) + "\n";
  }

  lemma AcceptedDecodes(pduHex: string)
    requires Decode(pduHex).Success?
    ensures HexDecode(TrimSpace(pduHex)).Some?
  {
  }

  /** With the report requested as well, the raw stage still decodes to the same message. */
  lemma ReportStageKeepsMeaning(pduHex: string)
    requires Decode(pduHex).Success? && TrimSpace(pduHex) == pduHex
    ensures Decode(ToUpper(SetReport(pduHex))) == Decode(pduHex)
    ensures RawStage(pduHex, true) == ToUpper(SetReport(pduHex)) + CTRL_Z
  {
    hide DecodeBytes, SetReport, HexDecode, TrimSpace;
    ReportKeepsMeaning(pduHex);
    var s := SetReport(pduHex);
    AcceptedDecodes(pduHex);
    HexHasNoSpace(pduHex);
    ReportDecodes(pduHex);
    HexHasNoSpace(s);
    UpperKeepsHex(s);
    HexHasNoSpace(ToUpper(s));
  }

  lemma ReportDecodes(pduHex: string)
    requires HexDecode(pduHex).Some?
    ensures HexDecode(SetReport(pduHex)).Some?
  {
    var raw := HexDecode(pduHex).value;
    if |raw| > 1 && 1 + SmscLength(raw) < |raw| { HexRoundTrip(raw[1 + raw[0] := OrByte(raw[1 + raw[0]], 0x20)]); }
  }
}
