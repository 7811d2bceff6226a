/** The two frontends' decision on a request: which PDUs may be claimed for sending. */
module Gate {
  import opened Wrappers
  import opened Text
  import opened Pdu

  function Normalize(s: string): string {
    if s == "" then "" else (if IsDigit(s[0]) then [s[0]] else "") + Normalize(s[1..])
  }

  predicate IsDigit(c: char) { '0' <= c <= '9' }

  /** Normalising a concatenation normalises its parts; a digit stays, anything else goes. So
      it keeps the decimal digits in order and nothing more. */
  lemma {:induction false} NormalizeMeaning(s: string, c: char, t: string)
    ensures Normalize(s + [c] + t) == Normalize(s) + (if IsDigit(c) then [c] else "") + Normalize(t)
    ensures forall d | d in Normalize(s) :: IsDigit(d)
    decreases |s|
  {
    hide Normalize;
    var u := s + [c] + t;
    NormalizeStep(u, 0);
    assert u[0..] == u;
    if s == "" {
      NothingNormal(s);
      assert u[0] == c && u[1..] == t;
    } else {
      NormalizeStep(s, 0);
      assert s[0..] == s;
      NormalizeMeaning(s[1..], c, t);
      assert u[0] == s[0] && u[1..] == s[1..] + [c] + t;
    }
  }

  /** strings.Split(s, ","). */
  function SplitCommas(s: string): (r: seq<string>)
    ensures r != []
  {
    if s == "" then [""]
    else
      var r := SplitCommas(s[1..]);
      if s[0] == ',' then [""] + r else [[s[0]] + r[0]] + r[1..]
  }

  function JoinCommas(r: seq<string>): string
    requires r != []
  {
    if |r| == 1 then r[0] else r[0] + "," + JoinCommas(r[1..])
  }

  /** The entries are the pieces between commas: no entry has one, and joining them gives the
      flag back. */
  lemma {:induction false} SplitExact(s: string)
    ensures JoinCommas(SplitCommas(s)) == s && forall e | e in SplitCommas(s) :: ',' !in e
  {
    if s != "" {
      SplitExact(s[1..]);
      var r := SplitCommas(s[1..]);
      var q := SplitCommas(s);
      if s[0] == ',' {
        assert q[1..] == r;
        assert JoinCommas(q) == "" + "," + JoinCommas(r);
      } else {
        assert q[1..] == r[1..] && q[0] == [s[0]] + r[0];
        forall e | e in q ensures ',' !in e { if e != q[0] { assert e in r; } else { assert r[0] in r; } }
        assert JoinCommas(q) == [s[0]] + JoinCommas(r);
      }
    }
  }

  function Digitful(es: seq<string>): seq<string> {
    if es == [] then []
    else (if Normalize(es[0]) != "" then [Normalize(es[0])] else []) + Digitful(es[1..])
  }

  /** The parsed allow list of a flag value. */
  function AllowList(flag: string): seq<string> {
    Digitful(SplitCommas(flag))
  }

  predicate Allowed(list: seq<string>, phone: string) {
    list == [] || Normalize(phone) in list
  }

  method NormalizeMSISDN(s: string) returns (r: string)
    ensures r == Normalize(s)
  {
    hide Normalize;
    r := "";
    var i := 0;
    while i < |s|
      invariant 0 <= i <= |s| && r + Normalize(s[i..]) == Normalize(s)
    {
      NormalizeStep(s, i);
      if IsDigit(s[i]) { r := r + [s[i]]; }
      i := i + 1;
    }
    NothingNormal(s[i..]);
  }

  lemma NothingNormal(s: string)
    requires s == ""
    ensures Normalize(s) == ""
  {
  }

  lemma NormalizeStep(s: string, i: nat)
    requires i < |s|
    ensures Normalize(s[i..]) == (if IsDigit(s[i]) then [s[i]] else "") + Normalize(s[i + 1..])
  {
    assert s[i..][1..] == s[i + 1..];
  }

  lemma DigitfulStep(es: seq<string>, i: nat)
    requires i < |es|
    ensures Digitful(es[i..]) == (if Normalize(es[i]) != "" then [Normalize(es[i])] else []) + Digitful(es[i + 1..])
  {
    hide Normalize;
    assert es[i..][1..] == es[i + 1..];
  }

  lemma NothingDigitful(es: seq<string>)
    requires es == []
    ensures Digitful(es) == []
  {
  }

  method ParseAllowList(flag: string) returns (list: seq<string>)
    ensures list == AllowList(flag)
  {
    hide Normalize, SplitCommas, Digitful;
    list := [];
    var es := SplitCommas(flag);
    var i := 0;
    while i < |es|
      invariant 0 <= i <= |es| && list + Digitful(es[i..]) == Digitful(es)
    {
      DigitfulStep(es, i);
      var n := NormalizeMSISDN(es[i]);
      if n != "" { list := list + [n]; }
      i := i + 1;
    }
    NothingDigitful(es[i..]);
  }

  method DestinationAllowed(list: seq<string>, phone: string) returns (ok: bool)
    ensures ok == Allowed(list, phone)
  {
    if |list| == 0 { return true; }
    var p := NormalizeMSISDN(phone);
    var i := 0;
    while i < |list|
      invariant 0 <= i <= |list| && p !in list[..i]
    {
      if list[i] == p { return true; }
      i := i + 1;
    }
    return false;
  }

  ghost predicate HasEntry(es: seq<string>, n: string) {
    exists e :: e in es && Normalize(e) == n
  }

  lemma {:induction false} DigitfulMember(es: seq<string>, n: string)
    ensures n in Digitful(es) <==> n != "" && HasEntry(es, n)
  {
    hide Normalize;
    if es != [] {
      DigitfulMember(es[1..], n);
      var head := if Normalize(es[0]) != "" then [Normalize(es[0])] else [];
      assert Digitful(es) == head + Digitful(es[1..]);
      assert n in head <==> n != "" && Normalize(es[0]) == n;
      assert es == [es[0]] + es[1..];
      assert HasEntry(es, n) <==> Normalize(es[0]) == n || HasEntry(es[1..], n) by {
        if HasEntry(es[1..], n) {
          var e :| e in es[1..] && Normalize(e) == n;
          assert e in es;
        }
        if Normalize(es[0]) == n { assert es[0] in es; }
      }
    }
  }

  lemma EntryHere(es: seq<string>, e: string)
    requires e in es
    ensures HasEntry(es, Normalize(e))
  {
  }

  lemma EntryOf(es: seq<string>, n: string) returns (e: string)
    requires HasEntry(es, n)
    ensures e in es && Normalize(e) == n
  {
    e :| e in es && Normalize(e) == n;
  }

  /** A recipient passes exactly when no entry of the flag has a digit (no restriction), or it
      has digits and they are the digits of some entry, whatever the punctuation. */
  lemma AllowedExact(flag: string, phone: string)
    ensures Allowed(AllowList(flag), phone) <==>
            || (forall e | e in SplitCommas(flag) :: Normalize(e) == "")
            || (Normalize(phone) != "" && HasEntry(SplitCommas(flag), Normalize(phone)))
  {
    hide Normalize, SplitCommas, Digitful, HasEntry;
    var es := SplitCommas(flag);
    DigitfulMember(es, Normalize(phone));
    if Digitful(es) == [] {
      forall e | e in es ensures Normalize(e) == "" {
        EntryHere(es, e);
        DigitfulMember(es, Normalize(e));
      }
    } else {
      var n := Digitful(es)[0];
      assert n in Digitful(es);
      DigitfulMember(es, n);
      var e := EntryOf(es, n);
      assert Normalize(e) != "";
      assert Allowed(AllowList(flag), phone) <==> Normalize(phone) in Digitful(es);
    }
  }

  // ----- Requests -----

  datatype HookBody = HookNotJson | HookBody(pdu: string, pduLength: int)

  datatype WsRequest =
    | WsNotJson
    | Connect
    | PduRequest(pdu: string, length: Option<int>)
    | SmsRequest
    | UnknownType

  datatype Request = Hook(body: HookBody) | Ws(request: WsRequest)

  /** A PDU that passed the gate, with the length that goes into AT+CMGS. */
  datatype Job = Job(pdu: string, tpduLen: int, phone: string)

  datatype Refusal = NotJson | NoPdu | BadPdu | DestinationRefused | NothingToSend

  function Admit(r: Request, allow: seq<string>): Result<Job, Refusal> {
    match r
    case Hook(HookNotJson) => Failure(NotJson)
    case Hook(HookBody(pdu, n)) =>
      if pdu == "" then Failure(NoPdu) else AdmitPdu(pdu, if n == 0 then None else Some(n), allow)
    case Ws(WsNotJson) => Failure(NotJson)
    case Ws(PduRequest(pdu, n)) => AdmitPdu(pdu, if n.Some? && n.value > 0 then n else None, allow)
    case Ws(_) => Failure(NothingToSend)
  }

  function AdmitPdu(pdu: string, length: Option<int>, allow: seq<string>): Result<Job, Refusal> {
    match Decode(pdu)
    case Failure(_) => Failure(BadPdu)
    case Success(info) =>
      if !Allowed(allow, info.phone) then Failure(DestinationRefused)
      else Success(Job(pdu, if length.Some? then length.value else info.atLength, info.phone))
  }

  function RequestPdu(r: Request): Option<string> {
    match r
    case Hook(HookBody(pdu, _)) => Some(pdu)
    case Ws(PduRequest(pdu, _)) => Some(pdu)
    case _ => None
  }

  lemma EmptyPduRejected()
    ensures Decode("").Failure?
  {
  }

  /** Both frontends let exactly the same PDUs through: those that decode to an allowed
      recipient. The job keeps the PDU text as received. */
  lemma AdmitExact(r: Request, allow: seq<string>)
    ensures Admit(r, allow).Success? <==>
            && RequestPdu(r).Some? && Decode(RequestPdu(r).value).Success?
            && Allowed(allow, Decode(RequestPdu(r).value).value.phone)
    ensures Admit(r, allow).Success? ==>
            var job := Admit(r, allow).value;
            && Some(job.pdu) == RequestPdu(r) && job.pdu != "" && Decode(job.pdu).Success?
            && job.phone == Decode(job.pdu).value.phone
  {
    hide Decode;
    EmptyPduRejected();
  }

  lemma AtLengthPositive(pdu: string)
    requires Decode(pdu).Success?
    ensures Decode(pdu).value.atLength >= 6
  {
    hide HexDecode, TrimSpace, Halves;
    AcceptedLength(HexDecode(TrimSpace(pdu)).value);
  }

  /** The frontends agree on the AT length exactly for the lengths that are not negative: a
      negative one is passed on by the hook and replaced by the socket frontend. */
  lemma LengthsAgree(pdu: string, n: int, allow: seq<string>)
    requires Decode(pdu).Success? && Allowed(allow, Decode(pdu).value.phone)
    ensures var hook := Admit(Hook(HookBody(pdu, n)), allow); var ws := Admit(Ws(PduRequest(pdu, Some(n))), allow);
      && hook.Success? && ws.Success?
      && hook.value.tpduLen == (if n == 0 then Decode(pdu).value.atLength else n)
      && (hook == ws <==> n >= 0)
  {
    hide Decode;
    EmptyPduRejected();
    AtLengthPositive(pdu);
  }

  /** The length that goes into AT+CMGS: the announced one where the frontend takes it, that is a
      non-zero one on the hook and a positive one on the socket; in every other case, also without
      one, the octets after the SMSC part. */
  lemma JobLength(r: Request, allow: seq<string>)
    requires Admit(r, allow).Success?
    ensures var job := Admit(r, allow).value; var p := HexDecode(TrimSpace(job.pdu)).value;
      && |p| > 0
      && job.tpduLen == match r {
           case Hook(HookBody(_, n)) => if n != 0 then n else |p| - 1 - p[0]
           case Ws(PduRequest(_, Some(n))) => if n > 0 then n else |p| - 1 - p[0]
           case _ => |p| - 1 - p[0]
         }
  {
    hide HexDecode, TrimSpace, Halves, Allowed;
    AcceptedLength(HexDecode(TrimSpace(Admit(r, allow).value.pdu)).value);
  }

  /** Why a request is turned down. */
  lemma RefusedExact(r: Request, allow: seq<string>)
    ensures Admit(r, allow) == Failure(NotJson) <==> r == Hook(HookNotJson) || r == Ws(WsNotJson)
    ensures Admit(r, allow) == Failure(NoPdu) <==> r.Hook? && RequestPdu(r) == Some("")
    ensures Admit(r, allow) == Failure(NothingToSend) <==>
            r == Ws(Connect) || r == Ws(SmsRequest) || r == Ws(UnknownType)
    ensures Admit(r, allow) == Failure(BadPdu) <==>
            && RequestPdu(r).Some? && Decode(RequestPdu(r).value).Failure?
            && !(r.Hook? && RequestPdu(r).value == "")
    ensures Admit(r, allow) == Failure(DestinationRefused) <==>
            && RequestPdu(r).Some? && Decode(RequestPdu(r).value).Success?
            && !Allowed(allow, Decode(RequestPdu(r).value).value.phone)
  {
    hide Decode, Allowed;
    EmptyPduRejected();
  }

  /** The decimal digits, one by one. */
  lemma DigitsListed(c: char)
    ensures IsDigit(c) <==> c in "0123456789"
  {
    if IsDigit(c) { assert "0123456789"[c as nat - '0' as nat] == c; }
  }
}
