/** One transmission over either transport: what is written, in which order, and when it
    counts as sent. The modem's answers are arbitrary. */
module Sessions {
  import opened Bits
  import opened Wrappers
  import opened Text
  import opened Pdu
  import opened AtServer

  // ----- Raw device -----

  /** What the shared buffer shows at each poll before the deadline, and at the end. */
  datatype Wait = Wait(polls: seq<string>, last: string)

  predicate HasToken(s: string, tokens: seq<string>) {
    exists i :: 0 <= i < |tokens| && Contains(s, tokens[i])
  }

  /** The first buffer that shows a token, or the final one. */
  ghost predicate Answer(w: Wait, tokens: seq<string>, r: string) {
    if exists i :: 0 <= i < |w.polls| && HasToken(w.polls[i], tokens)
    then exists i :: 0 <= i < |w.polls| && r == w.polls[i] && HasToken(r, tokens)
                     && forall j | 0 <= j < i :: !HasToken(w.polls[j], tokens)
    else r == w.last
  }

  method WaitFor(tokens: seq<string>, w: Wait) returns (r: string)
    ensures Answer(w, tokens, r)
  {
    hide Contains;
    var i := 0;
    while i < |w.polls|
      invariant 0 <= i <= |w.polls| && forall j | 0 <= j < i :: !HasToken(w.polls[j], tokens)
    {
      var t := 0;
      while t < |tokens|
        invariant 0 <= t <= |tokens| && forall u | 0 <= u < t :: !Contains(w.polls[i], tokens[u])
      {
        if Contains(w.polls[i], tokens[t]) { return w.polls[i]; }
        t := t + 1;
      }
      i := i + 1;
    }
    return w.last;
  }

  /** There is only one answer. */
  lemma AnswerUnique(w: Wait, tokens: seq<string>, r: string, q: string)
    requires Answer(w, tokens, r) && Answer(w, tokens, q)
    ensures r == q
  {
    hide HasToken;
    if i :| 0 <= i < |w.polls| && HasToken(w.polls[i], tokens) {
      var a :| 0 <= a < |w.polls| && r == w.polls[a] && HasToken(r, tokens)
               && forall j | 0 <= j < a :: !HasToken(w.polls[j], tokens);
      var b :| 0 <= b < |w.polls| && q == w.polls[b] && HasToken(q, tokens)
               && forall j | 0 <= j < b :: !HasToken(w.polls[j], tokens);
      assert a == b;
    }
  }

  /** The modem's side of a raw session: whether the device opens, and what it answers to each
      stage of the exchange. */
  datatype Modem = Modem(opens: bool, cmee: Wait, cmgf: Wait, cnmi: Wait, prompt: Wait, reply: Wait)

  /** Everything a complete session writes, in order; the PDU comes last. */
  function Script(pduHex: string, tpduLen: int, report: bool): seq<string> {
    ["AT+CMEE=1\r", "AT+CMGF=0\r"] + (if report then ["AT+CNMI=2,1,0,1,0\r"] else [])
    + ["AT+CMGS=" + Decimal(tpduLen) + "\r", RawStage(pduHex, report)]
  }

  ghost predicate Shows(w: Wait, tokens: seq<string>, word: string, trimmed: bool) {
    exists r :: Answer(w, tokens, r) && Contains(if trimmed then TrimSpace(r) else r, word)
  }

  ghost predicate PduMode(m: Modem) { Shows(m.cmgf, ["OK", "ERROR"], "OK", true) }
  ghost predicate Prompted(m: Modem) { Shows(m.prompt, [">"], ">", false) }
  ghost predicate Accepted(m: Modem) { Shows(m.reply, ["+CMGS", "ERROR", "+CMS"], "+CMGS", true) }

  /** When a raw session reports success. */
  ghost predicate SentBy(m: Modem) { m.opens && PduMode(m) && Prompted(m) && Accepted(m) }

  lemma ShowsAnswer(w: Wait, tokens: seq<string>, word: string, trimmed: bool, r: string)
    requires Answer(w, tokens, r)
    ensures Shows(w, tokens, word, trimmed) <==> Contains(if trimmed then TrimSpace(r) else r, word)
  {
    hide Contains, TrimSpace, Answer;
    if Shows(w, tokens, word, trimmed) {
      var q :| Answer(w, tokens, q) && Contains(if trimmed then TrimSpace(q) else q, word);
      AnswerUnique(w, tokens, r, q);
    }
  }

  /** A raw session writes the script in order and stops early only before the PDU: the PDU is
      written exactly when the modem took PDU mode and gave the prompt, and it counts as sent
      exactly when the modem then acknowledged it. */
  method SendPDU(pduHex: string, tpduLen: int, report: bool, m: Modem) returns (ok: bool, written: seq<string>)
    ensures written <= Script(pduHex, tpduLen, report)
    ensures |written| == |Script(pduHex, tpduLen, report)| <==> m.opens && PduMode(m) && Prompted(m)
    ensures ok <==> SentBy(m)
  {
    hide Contains, TrimSpace, Answer, Shows, RawStage, Decimal;
    ok, written := false, [];
    if !m.opens { return; }
    written := ["AT+CMEE=1\r"];
    var r := WaitFor(["OK", "ERROR"], m.cmee);
    written := written + ["AT+CMGF=0\r"];
    r := WaitFor(["OK", "ERROR"], m.cmgf);
    ShowsAnswer(m.cmgf, ["OK", "ERROR"], "OK", true, r);
    if !Contains(TrimSpace(r), "OK") { return; }
    if report {
      written := written + ["AT+CNMI=2,1,0,1,0\r"];
      r := WaitFor(["OK", "ERROR"], m.cnmi);
    }
    written := written + ["AT+CMGS=" + Decimal(tpduLen) + "\r"];
    r := WaitFor([">"], m.prompt);
    ShowsAnswer(m.prompt, [">"], ">", false, r);
    if !Contains(r, ">") { return; }
    written := written + [RawStage(pduHex, report)];
    r := WaitFor(["+CMGS", "ERROR", "+CMS"], m.reply);
    ShowsAnswer(m.reply, ["+CMGS", "ERROR", "+CMS"], "+CMGS", true, r);
    ok := Contains(TrimSpace(r), "+CMGS");
  }

  // ----- atserver -----

  /** One character per byte, as Go converts bytes to a string for an ASCII search. */
  function Characters(b: bytes): string {
    seq(|b|, i requires 0 <= i < |b| => b[i] as char)
  }

  /** What happens to one request's connection: the dial fails; the write fails after the socket
      took some bytes; or the record is written and `sent` comes back before the end or the
      deadline. */
  datatype Socket = DialFailed | WriteFailed(taken: nat) | Answered(sent: bytes)

  const RESP_SIZE: nat := 0x2808

  /** What the client reads of a response: one buffer at most. */
  function Got(sent: bytes): bytes {
    if |sent| <= RESP_SIZE then sent else sent[..RESP_SIZE]
  }

  /** The text that comes back, if any. */
  function Ask(cmd: string, timeout: int, so: Socket): Option<string> {
    if Frame(cmd, timeout).Failure? || !so.Answered? then None else
    match ResponseText(Got(so.sent))
    case Failure(_) => None
    case Success(b) => Some(Characters(b))
  }

  /** What reaches the socket of a record; nothing when the command has none. */
  function Reached(rec: Result<bytes, nat>, so: Socket): bytes {
    if rec.Failure? then [] else
    match so
    case DialFailed => []
    case WriteFailed(k) => if k < |rec.value| then rec.value[..k] else rec.value
    case Answered(_) => rec.value
  }

  /** Does the socket take a whole record? */
  predicate TakesAll(so: Socket) {
    so.Answered? || (so.WriteFailed? && so.taken >= REQ_SIZE)
  }

  const FIVE: int := 5_000_000_000
  const THIRTY: int := 30_000_000_000

  predicate Says(answer: Option<string>, word: string) {
    answer.Some? && Contains(answer.value, word)
  }

  /** One request on a connection of its own. */
  method AtSrvCmd(cmd: string, timeout: int, so: Socket) returns (answer: Option<string>, sent: bytes)
    ensures answer == Ask(cmd, timeout, so)
    ensures sent == Reached(Frame(cmd, timeout), so)
  {
    hide Frame, ResponseText;
    var req := AtSrvFrame(cmd, timeout);
    if req.Failure? { return None, []; }
    match so
    case DialFailed => return None, [];
    case WriteFailed(k) => return None, if k < |req.value| then req.value[..k] else req.value;
    case Answered(back) =>
      sent := req.value;
      var resp := ResponseText(if |back| <= 0x2808 then back else back[..0x2808]);
      if resp.Failure? { return None, sent; }
      return Some(Characters(resp.value)), sent;
  }

  /** Nothing reaches a socket that was not dialled; of a record the socket gets the bytes it took,
      and it gets the record whole exactly when it takes 520 bytes. */
  lemma ReachedWhole(cmd: string, timeout: int, so: Socket)
    ensures Frame(cmd, timeout).Success? ==>
      var rec := Frame(cmd, timeout).value;
      && |rec| == REQ_SIZE && Reached(Frame(cmd, timeout), so) <= rec
      && (Reached(Frame(cmd, timeout), so) == rec <==> TakesAll(so))
      && |Reached(Frame(cmd, timeout), so)| == match so {
           case DialFailed => 0
           case WriteFailed(k) => if k < 520 then k else 520
           case Answered(_) => 520
         }
  {
    hide Frame;
    FrameDecodes(cmd, timeout);
  }

  lemma SetupFits()
    ensures Frame("AT+CMEE=1", FIVE).Success? && Frame("AT+CMGF=0", FIVE).Success?
  {
    hide Frame;
    Short("AT+CMEE=1");
    Short("AT+CMGF=0");
  }

  lemma Short(cmd: string)
    requires Ascii(cmd) && |cmd| <= 16
    ensures Frame(cmd, FIVE).Success?
  {
    hide Utf8, IsCmgs, Record;
    var text := RecordText(cmd);
    assert |text| <= 18;
    assert Ascii(text) by {
      var cut := TrimCrLf(cmd);
      forall i | 0 <= i < |cut| ensures cut[i] as nat < 0x80 { assert cut[i] == cmd[i] && cmd[i] in cmd; }
    }
    AsciiLength(text);
  }

  /** The text of the two set-up records ends in CR LF, that of the PDU record, for an accepted PDU,
      does not; they allow 5, 5 and 30 seconds. */
  lemma SessionTexts(pduHex: string, tpduLen: int)
    requires Decode(pduHex).Success? && Frame(CmgsCommand(pduHex, tpduLen), THIRTY).Success?
    ensures Frame("AT+CMEE=1", FIVE).Success? && Frame("AT+CMGF=0", FIVE).Success?
    ensures var r := Frame("AT+CMEE=1", FIVE).value;
      |r| == 520 && TextOf(r) == Utf8("AT+CMEE=1\r\n") && TimeoutOf(r) == 5000
    ensures var r := Frame("AT+CMGF=0", FIVE).value;
      |r| == 520 && TextOf(r) == Utf8("AT+CMGF=0\r\n") && TimeoutOf(r) == 5000
    ensures var r := Frame(CmgsCommand(pduHex, tpduLen), THIRTY).value;
      && |r| == 520 && TimeoutOf(r) == 30000
      && TextOf(r) == Utf8("AT+CMGS=" + Decimal(tpduLen) + ">" + ToUpper(TrimCrLf(pduHex)))
  {
    hide Utf8, TextOf, TimeoutOf, Frame, Decimal, ToUpper, TrimCrLf, CmgsCommand, Decode;
    SetupFits();
    assert "AT+CMEE=1" + "\r\n" == "AT+CMEE=1\r\n" && "AT+CMGF=0" + "\r\n" == "AT+CMGF=0\r\n";
    SetupText("AT+CMEE=1");
    SetupText("AT+CMGF=0");
    FrameDecodes(CmgsCommand(pduHex, tpduLen), THIRTY);
    AtServerSees(pduHex, tpduLen);
  }

  lemma SetupText(cmd: string)
    requires cmd != "" && !IsCrLf(cmd[|cmd| - 1]) && '>' !in cmd && Frame(cmd, FIVE).Success?
    ensures var r := Frame(cmd, FIVE).value;
      |r| == 520 && TextOf(r) == Utf8(cmd + "\r\n") && TimeoutOf(r) == 5000
  {
    hide Utf8, TextOf, TimeoutOf, Frame, Mentions, RecordText;
    Untrimmed(cmd);
    FrameText(cmd, FIVE);
    FrameDecodes(cmd, FIVE);
  }

  lemma Untrimmed(s: string)
    requires s != "" && !IsCrLf(s[|s| - 1])
    ensures TrimCrLf(s) == s
  {
  }

  /** Did the record with the PDU reach atserver whole? It is the third of the session. */
  ghost predicate PduReached(records: seq<bytes>, cmgs: string) {
    |records| == 3 && Frame(cmgs, THIRTY).Success? && records[2] == Frame(cmgs, THIRTY).value
  }

  /** An atserver session makes up to three requests, each only after the one before was answered
      well. The PDU reaches atserver exactly when error reporting was answered, PDU mode was
      confirmed, its text fits one record and the third socket takes it whole; it counts as sent
      exactly when then the answer names +CMGS. */
  method SendPDUviaATSrv(pduHex: string, tpduLen: int, so: (Socket, Socket, Socket))
    returns (ok: bool, records: seq<bytes>)
    ensures Frame("AT+CMEE=1", FIVE).Success? && Frame("AT+CMGF=0", FIVE).Success?
    ensures var cmee := Ask("AT+CMEE=1", FIVE, so.0); var cmgf := Ask("AT+CMGF=0", FIVE, so.1);
      var cmgs := CmgsCommand(pduHex, tpduLen);
      && |records| == (if cmee.None? then 1 else if !Says(cmgf, "OK") then 2 else 3)
      && records[0] == Reached(Frame("AT+CMEE=1", FIVE), so.0)
      && (|records| >= 2 ==> records[1] == Reached(Frame("AT+CMGF=0", FIVE), so.1))
      && (|records| == 3 ==> records[2] == Reached(Frame(cmgs, THIRTY), so.2))
      && (PduReached(records, cmgs) <==>
            cmee.Some? && Says(cmgf, "OK") && Frame(cmgs, THIRTY).Success? && TakesAll(so.2))
      && (ok <==> PduReached(records, cmgs) && Says(Ask(cmgs, THIRTY, so.2), "+CMGS"))
  {
    hide Contains, Frame, Ask, CmgsCommand, Reached;
    SetupFits();
    ok := false;
    var cmgs := CmgsCommand(pduHex, tpduLen);
    var r, sent := AtSrvCmd("AT+CMEE=1", FIVE, so.0);
    records := [sent];
    if r.None? { return; }
    r, sent := AtSrvCmd("AT+CMGF=0", FIVE, so.1);
    records := records + [sent];
    if r.None? || !Contains(r.value, "OK") { return; }
    r, sent := AtSrvCmd(cmgs, THIRTY, so.2);
    records := records + [sent];
    ReachedWhole(cmgs, THIRTY, so.2);
    AnsweredTakesAll(cmgs, THIRTY, so.2);
    if r.None? { return; }
    ok := Contains(r.value, "+CMGS");
  }

  lemma PrefixSlice(s: bytes, k: nat, a: nat, b: nat)
    requires a <= b <= k <= |s|
    ensures s[..k][a..b] == s[a..b] && (k == |s| ==> s[..k] == s)
  {
  }

  /** The answer to a request whose record went out: the characters after the eight-byte header, as
      many as the header's first two bytes announce, low byte first, but no more than came and
      never more than 10240; nothing when the header is incomplete. */
  lemma AskExact(cmd: string, timeout: int, sent: bytes)
    requires Frame(cmd, timeout).Success?
    ensures |sent| < 8 ==> Ask(cmd, timeout, Answered(sent)) == None
    ensures |sent| >= 8 ==>
      var n: nat := sent[0] as nat + 256 * sent[1] as nat;
      var came := if |sent| <= 10248 then |sent| - 8 else 10240;
      Ask(cmd, timeout, Answered(sent)) == Some(Characters(sent[8..8 + if n <= came then n else came]))
  {
    hide Frame, LittleValue;
    if |sent| >= 8 {
      var g := Got(sent);
      TwoBytes(0, sent[0], sent[1]);
      assert g[..2] == [sent[0], sent[1]];
      var ln := LittleValue(g[..2]);
      var m := if ln > |g| - 8 then |g| - 8 else ln;
      PrefixSlice(sent, |g|, 8, 8 + m);
    }
  }

  lemma AnsweredTakesAll(cmd: string, timeout: int, so: Socket)
    ensures Ask(cmd, timeout, so).Some? ==> Frame(cmd, timeout).Success? && TakesAll(so)
  {
    hide Frame, ResponseText;
  }
}
