/** The client's message reader (sections 5.4 and 5.5 of RFC 6455): reassembly of fragments
    with control frames answered in between, and what a stream must look like for it. */
module Messages {
  import opened Bits
  import opened Wrappers
  import opened Frames

  /** The sending side of a connection: bytes written so far, how many more bytes the
      transport takes before a write fails, and how many masks were drawn. */
  datatype Link = Link(out: bytes, room: nat, draws: nat)

  /** The i-th draw of four random bytes; None when the random source fails. */
  type Entropy = nat -> Option<mask>

  /** One call of the frame writer. A failing write still delivers what fits. */
  function Send(rand: Entropy, l: Link, op: nat, p: bytes): (Link, bool)
    requires op < 16 && |p| < 0x1_0000_0000_0000_0000
  {
    match rand(l.draws)
    case None => (l.(draws := l.draws + 1), false)
    case Some(m) =>
      var f := ClientFrame(op, p, m);
      if |f| <= l.room then (Link(l.out + f, l.room - |f|, l.draws + 1), true)
      else (Link(l.out + f[..l.room], 0, l.draws + 1), false)
  }

  datatype Stop =
    | EndOfStream
    | FrameTooBig(size: nat)
    | WriteFailed
    | ServerClosed
    | NoStartFrame
    | MessageTooBig
    | BadOpcode(op: nat)

  datatype Received = Message(op: nat, payload: bytes, rest: bytes, link: Link) | Ended(why: Stop, link: Link)

  /** The message under construction: opcode 0 when no start frame was seen. */
  datatype Partial = Partial(op: nat, buf: bytes)

  const NOTHING := Partial(0, [])

  predicate Start(f: Frame) { f.op == OP_TEXT || f.op == OP_BINARY }
  predicate Data(f: Frame) { Start(f) || f.op == OP_CONTINUATION }
  predicate Control(f: Frame) { f.op == OP_PING || f.op == OP_PONG }

  /** Effect of a frame on the message under construction. */
  function Absorb(st: Partial, f: Frame): Partial {
    if Start(f) then Partial(f.op, f.payload)
    else if f.op == OP_CONTINUATION then Partial(st.op, st.buf + f.payload)
    else st
  }

  /** The reader on stream `s`, with message `st` under construction. */
  function Receive(rand: Entropy, s: bytes, l: Link, st: Partial): (r: Received)
    requires |st.buf| <= MAX_PAYLOAD
    ensures r.Message? ==> |r.payload| <= MAX_PAYLOAD && |r.rest| < |s|
    decreases |s|
  {
    match Parse(s)
    case Truncated => Ended(EndOfStream, l)
    case TooBig(size) => Ended(FrameTooBig(size), l)
    case Got(f, rest) =>
      if f.op == OP_PING then
        var (l', ok) := Send(rand, l, OP_PONG, f.payload);
        if ok then Receive(rand, rest, l', st) else Ended(WriteFailed, l')
      else if f.op == OP_PONG then Receive(rand, rest, l, st)
      else if f.op == OP_CLOSE then Ended(ServerClosed, l)
      else if !Data(f) then Ended(BadOpcode(f.op), l)
      else if f.op == OP_CONTINUATION && st.op == 0 then Ended(NoStartFrame, l)
      else if f.op == OP_CONTINUATION && |st.buf| + |f.payload| > MAX_PAYLOAD then Ended(MessageTooBig, l)
      else
        var st' := Absorb(st, f);
        if f.fin then Message(st'.op, st'.buf, rest, l) else Receive(rand, rest, l, st')
  }

  // ----- What a message is, as a property of the frames on the wire -----

  /** Payload bytes of the data frames, in order. */
  function Payloads(fs: seq<Frame>): bytes {
    if fs == [] then [] else
    var f := fs[|fs| - 1];
    Payloads(fs[..|fs| - 1]) + if Data(f) then f.payload else []
  }

  /** Payloads of the pings, in order. */
  function Pings(fs: seq<Frame>): seq<bytes> {
    if fs == [] then []
    else (if fs[0].op == OP_PING then [fs[0].payload] else []) + Pings(fs[1..])
  }

  /** fs[k] is the latest start frame among the first n. */
  ghost predicate LatestStart(fs: seq<Frame>, k: int, n: int)
    ensures LatestStart(fs, k, n) ==> 0 <= k < n <= |fs| && Start(fs[k])
  {
    0 <= k < n <= |fs| && Start(fs[k]) && forall j | k < j < n :: !Start(fs[j])
  }

  ghost predicate HasStart(fs: seq<Frame>, n: nat)
    requires n <= |fs|
  {
    exists k :: 0 <= k < n && Start(fs[k])
  }

  /** No continuation before the first start frame. */
  ghost predicate Ordered(fs: seq<Frame>) {
    forall i | 0 <= i < |fs| && fs[i].op == OP_CONTINUATION :: HasStart(fs, i)
  }

  /** At no point did the pieces since the latest start frame exceed the cap. */
  ghost predicate WithinCap(fs: seq<Frame>) {
    forall k, n | LatestStart(fs, k, n) :: |Payloads(fs[k..n])| <= MAX_PAYLOAD
  }

  ghost predicate Unfinished(f: Frame) { Control(f) || (Data(f) && !f.fin) }

  /** Frames after which the reader is still waiting for the end of a message. */
  ghost predicate Pending(fs: seq<Frame>) {
    (forall i | 0 <= i < |fs| :: Unfinished(fs[i])) && Ordered(fs) && WithinCap(fs)
  }

  /** The frames carry exactly one message: the latest start frame and what continues it,
      closed by the first final data frame; control frames may stand anywhere before. */
  ghost predicate Carries(fs: seq<Frame>, op: nat, payload: bytes) {
    && fs != [] && Data(fs[|fs| - 1]) && fs[|fs| - 1].fin
    && (forall i | 0 <= i < |fs| - 1 :: Unfinished(fs[i]))
    && Ordered(fs) && WithinCap(fs)
    && exists k :: LatestStart(fs, k, |fs|) && op == fs[k].op && payload == Payloads(fs[k..])
  }

  function Views(ws: seq<WireFrame>): (fs: seq<Frame>)
    ensures |fs| == |ws|
  {
    seq(|ws|, i requires 0 <= i < |ws| => ws[i].View())
  }

  ghost predicate AllLegal(ws: seq<WireFrame>) {
    forall w | w in ws :: w.Legal() && |w.payload| <= MAX_PAYLOAD
  }

  ghost function EncodeAll(ws: seq<WireFrame>): bytes
    requires AllLegal(ws)
  {
    if ws == [] then [] else Encode(ws[0]) + EncodeAll(ws[1..])
  }

  ghost predicate Sendable(ps: seq<bytes>) {
    forall p | p in ps :: |p| <= MAX_PAYLOAD
  }

  /** One pong per payload, in order, as long as writing succeeds. */
  ghost function PongAll(rand: Entropy, l: Link, ps: seq<bytes>): (Link, bool)
    requires Sendable(ps)
    decreases |ps|
  {
    if ps == [] then (l, true) else
    var (l', ok) := Send(rand, l, OP_PONG, ps[0]);
    if ok then PongAll(rand, l', ps[1..]) else (l', false)
  }

  // ----- The running state of the reader, in terms of the frames read so far -----

  ghost function After(fs: seq<Frame>): Partial {
    if fs == [] then NOTHING else Absorb(After(fs[..|fs| - 1]), fs[|fs| - 1])
  }

  ghost predicate BufferIs(fs: seq<Frame>) {
    if HasStart(fs, |fs|)
    then exists k :: LatestStart(fs, k, |fs|) && After(fs) == Partial(fs[k].op, Payloads(fs[k..]))
    else After(fs) == NOTHING
  }

  lemma LatestStartUnique(fs: seq<Frame>, j: int, k: int, n: int)
    requires LatestStart(fs, j, n) && LatestStart(fs, k, n)
    ensures j == k
  {
  }

  lemma BufferAfterStart(fs: seq<Frame>)
    requires fs != [] && Start(fs[|fs| - 1])
    ensures BufferIs(fs)
  {
    var n := |fs| - 1;
    assert LatestStart(fs, n, |fs|);
    assert fs[n..] == [fs[n]] && [fs[n]][..0] == [];
    assert Payloads([fs[n]]) == [] + fs[n].payload == fs[n].payload;
  }

  lemma PayloadsSplit(fs: seq<Frame>, k: nat)
    requires k < |fs|
    ensures var n := |fs| - 1;
      Payloads(fs[k..]) == Payloads(fs[..n][k..]) + if Data(fs[n]) then fs[n].payload else []
  {
    assert fs[k..][..|fs[k..]| - 1] == fs[..|fs| - 1][k..];
  }

  lemma AfterLast(fs: seq<Frame>)
    requires fs != []
    ensures After(fs) == Absorb(After(fs[..|fs| - 1]), fs[|fs| - 1])
  {
  }

  /** Start frames among the first n do not depend on what follows. */
  lemma StartsInPrefix(fs: seq<Frame>, n: nat, m: nat)
    requires n <= m <= |fs|
    ensures HasStart(fs[..m], n) <==> HasStart(fs, n)
    ensures forall k :: LatestStart(fs[..m], k, n) <==> LatestStart(fs, k, n)
  {
    var gs := fs[..m];
    assert forall i | 0 <= i < n :: gs[i] == fs[i];
  }

  lemma NoStartAtEnd(fs: seq<Frame>, n: nat)
    requires n < |fs| && !Start(fs[n])
    ensures HasStart(fs, n + 1) <==> HasStart(fs, n)
    ensures forall k :: LatestStart(fs, k, n + 1) <==> LatestStart(fs, k, n)
  {
  }

  lemma BufferAfterOther(fs: seq<Frame>)
    requires fs != [] && !Start(fs[|fs| - 1]) && Ordered(fs) && BufferIs(fs[..|fs| - 1])
    ensures BufferIs(fs)
  {
    hide Payloads, After, HasStart, LatestStart;
    var n := |fs| - 1;
    var init := fs[..n];
    AfterLast(fs);
    StartsInPrefix(fs, n, n);
    NoStartAtEnd(fs, n);
    if HasStart(init, n) {
      var k :| LatestStart(init, k, n) && After(init) == Partial(init[k].op, Payloads(init[k..]));
      PayloadsSplit(fs, k);
      assert LatestStart(fs, k, |fs|);
      assert After(fs) == Partial(fs[k].op, Payloads(fs[k..]));
    }
  }

  lemma {:induction false} BufferAlways(fs: seq<Frame>)
    requires Ordered(fs)
    ensures BufferIs(fs)
  {
    if fs != [] {
      if Start(fs[|fs| - 1]) {
        BufferAfterStart(fs);
      } else {
        OrderedPrefix(fs, |fs| - 1);
        BufferAlways(fs[..|fs| - 1]);
        BufferAfterOther(fs);
      }
    }
  }

  /** The buffer holds the payloads since the latest start frame, under that frame's opcode. */
  lemma AfterMeaning(fs: seq<Frame>)
    requires Ordered(fs)
    ensures forall k | LatestStart(fs, k, |fs|) :: After(fs) == Partial(fs[k].op, Payloads(fs[k..]))
    ensures if HasStart(fs, |fs|) then exists k :: LatestStart(fs, k, |fs|) else After(fs) == NOTHING
  {
    hide After, Payloads, Ordered;
    BufferAlways(fs);
    forall k | LatestStart(fs, k, |fs|) ensures After(fs) == Partial(fs[k].op, Payloads(fs[k..])) {
      assert Start(fs[k]);
      assert HasStart(fs, |fs|);
      var j :| LatestStart(fs, j, |fs|) && After(fs) == Partial(fs[j].op, Payloads(fs[j..]));
      LatestStartUnique(fs, j, k, |fs|);
    }
  }

  lemma OrderedPrefix(fs: seq<Frame>, n: nat)
    requires n <= |fs| && Ordered(fs)
    ensures Ordered(fs[..n])
  {
    hide HasStart;
    forall i | 0 <= i < n && fs[..n][i].op == OP_CONTINUATION ensures HasStart(fs[..n], i) {
      assert HasStart(fs, i);
      StartsInPrefix(fs, i, n);
    }
  }

  lemma CapPrefix(fs: seq<Frame>, n: nat)
    requires n <= |fs| && WithinCap(fs)
    ensures WithinCap(fs[..n])
  {
    hide LatestStart, Payloads;
    forall k, m | LatestStart(fs[..n], k, m) ensures |Payloads(fs[..n][k..m])| <= MAX_PAYLOAD {
      StartsInPrefix(fs, m, n);
      assert fs[..n][k..m] == fs[k..m];
    }
  }

  lemma BufferBound(fs: seq<Frame>)
    requires Ordered(fs) && WithinCap(fs)
    ensures |After(fs).buf| <= MAX_PAYLOAD
  {
    AfterMeaning(fs);
    if HasStart(fs, |fs|) {
      var k :| LatestStart(fs, k, |fs|);
      assert fs[k..|fs|] == fs[k..];
    }
  }

  lemma StartsBefore(fs: seq<Frame>, f: Frame)
    requires Ordered(fs)
    ensures HasStart(fs + [f], |fs|) <==> After(fs).op != 0
    ensures After(fs + [f]) == Absorb(After(fs), f)
  {
    hide After, Ordered, Payloads, HasStart;
    var gs := fs + [f];
    assert gs[..|fs|] == fs;
    AfterLast(gs);
    AfterMeaning(fs);
    StartsInPrefix(gs, |fs|, |fs|);
  }

  lemma ExtendOrdered(fs: seq<Frame>, f: Frame)
    requires Ordered(fs)
    ensures Ordered(fs + [f]) <==> (f.op == OP_CONTINUATION ==> After(fs).op != 0)
  {
    hide HasStart, After;
    var gs := fs + [f];
    assert gs[..|fs|] == fs;
    StartsBefore(fs, f);
    if f.op == OP_CONTINUATION ==> After(fs).op != 0 {
      forall i | 0 <= i < |gs| && gs[i].op == OP_CONTINUATION ensures HasStart(gs, i) {
        if i < |fs| {
          assert HasStart(fs, i);
          StartsInPrefix(gs, i, |fs|);
        }
      }
    } else {
      assert gs[|fs|] == f;
    }
  }

  lemma ExtendCap(fs: seq<Frame>, f: Frame)
    requires Ordered(fs) && WithinCap(fs) && Ordered(fs + [f])
    ensures WithinCap(fs + [f]) <==> |After(fs + [f]).buf| <= MAX_PAYLOAD
  {
    hide Payloads, After, Ordered, LatestStart;
    var gs := fs + [f];
    assert gs[..|fs|] == fs;
    AfterMeaning(gs);
    if |After(gs).buf| <= MAX_PAYLOAD {
      forall k, n | LatestStart(gs, k, n) ensures |Payloads(gs[k..n])| <= MAX_PAYLOAD {
        if n == |gs| {
          assert gs[k..n] == gs[k..];
        } else {
          StartsInPrefix(gs, n, |fs|);
          assert LatestStart(fs, k, n);
          assert gs[k..n] == fs[k..n];
        }
      }
    }
    if WithinCap(gs) { BufferBound(gs); }
  }

  lemma PongsSendable(ws: seq<WireFrame>)
    requires AllLegal(ws)
    ensures Sendable(Pings(Views(ws)))
  {
    if ws != [] {
      assert Views(ws)[1..] == Views(ws[1..]);
      PongsSendable(ws[1..]);
    }
  }

  lemma NoPongs(rand: Entropy, l: Link)
    ensures Pings(Views([])) == [] && PongAll(rand, l, []) == (l, true)
  {
  }

  lemma PongHead(rand: Entropy, l: Link, ws: seq<WireFrame>)
    requires AllLegal(ws) && ws != []
    ensures Sendable(Pings(Views(ws))) && Sendable(Pings(Views(ws[1..])))
    ensures var w := ws[0];
      PongAll(rand, l, Pings(Views(ws))) ==
      if w.op == OP_PING then
        var (l', ok) := Send(rand, l, OP_PONG, w.payload);
        if ok then PongAll(rand, l', Pings(Views(ws[1..]))) else (l', false)
      else PongAll(rand, l, Pings(Views(ws[1..])))
  {
    PongsSendable(ws);
    PongsSendable(ws[1..]);
    assert Views(ws)[1..] == Views(ws[1..]);
    if ws[0].op == OP_PING {
      assert Pings(Views(ws))[1..] == Pings(Views(ws[1..]));
    } else {
      assert Pings(Views(ws)) == Pings(Views(ws[1..]));
    }
  }

  /** A frame that lets the reader go on leaves it waiting, with the message it now holds. */
  lemma KeepsPending(before: seq<Frame>, f: Frame)
    requires Pending(before) && Unfinished(f)
    requires f.op == OP_CONTINUATION ==> After(before).op != 0
    requires |Absorb(After(before), f).buf| <= MAX_PAYLOAD
    ensures Pending(before + [f]) && After(before + [f]) == Absorb(After(before), f)
  {
    StartsBefore(before, f);
    ExtendOrdered(before, f);
    ExtendCap(before, f);
  }

  /** A final data frame that passes the reader's checks completes a message. */
  lemma Completes(before: seq<Frame>, f: Frame)
    requires Pending(before) && Data(f) && f.fin
    requires f.op == OP_CONTINUATION ==> After(before).op != 0
    requires |Absorb(After(before), f).buf| <= MAX_PAYLOAD
    ensures Carries(before + [f], Absorb(After(before), f).op, Absorb(After(before), f).buf)
  {
    var fs := before + [f];
    StartsBefore(before, f);
    ExtendOrdered(before, f);
    ExtendCap(before, f);
    AfterMeaning(fs);
    if Start(f) { assert Start(fs[|before|]); }
    assert HasStart(fs, |fs|);
    var k :| LatestStart(fs, k, |fs|);
  }

  /** The reader's checks hold of every frame of a message. */
  lemma ChecksPass(fs: seq<Frame>, n: nat, op: nat, payload: bytes)
    requires Carries(fs, op, payload) && n < |fs|
    ensures var f := fs[n];
      && Pending(fs[..n])
      && (f.op == OP_CONTINUATION ==> After(fs[..n]).op != 0)
      && |After(fs[..n]).buf| <= MAX_PAYLOAD && |Absorb(After(fs[..n]), f).buf| <= MAX_PAYLOAD
      && (n + 1 < |fs| ==> Unfinished(f))
      && (n + 1 == |fs| ==> Data(f) && f.fin && Absorb(After(fs[..n]), f) == Partial(op, payload))
  {
    hide Ordered, WithinCap, After, Payloads;
    var f := fs[n];
    assert fs[..n] + [f] == fs[..n + 1];
    OrderedPrefix(fs, n);
    OrderedPrefix(fs, n + 1);
    CapPrefix(fs, n);
    CapPrefix(fs, n + 1);
    StartsBefore(fs[..n], f);
    ExtendOrdered(fs[..n], f);
    BufferBound(fs[..n]);
    BufferBound(fs[..n + 1]);
    if n + 1 == |fs| {
      assert fs[..n + 1] == fs;
      AfterMeaning(fs);
    }
  }

  /** Everything the reader delivers was on the wire as one message, and it answered exactly
      the pings it passed, in order. */
  lemma {:induction false} ReceiveSound(rand: Entropy, s: bytes, l: Link, before: seq<Frame>)
    returns (ws: seq<WireFrame>)
    requires Pending(before) && |After(before).buf| <= MAX_PAYLOAD
    requires Receive(rand, s, l, After(before)).Message?
    ensures AllLegal(ws) && Sendable(Pings(Views(ws)))
    ensures var r := Receive(rand, s, l, After(before));
      && s == EncodeAll(ws) + r.rest
      && Carries(before + Views(ws), r.op, r.payload)
      && PongAll(rand, l, Pings(Views(ws))) == (r.link, true)
    decreases |s|
  {
    hide Parse, FrameRead, Encode, Send, Payloads, Carries, Pending, Pings, PongAll, After, Ordered;
    var r := Receive(rand, s, l, After(before));
    var w := FrameRead(s);
    ParseSound(s);
    var f, rest := w.View(), Parse(s).rest;
    if Data(f) && f.fin {
      ws := [w];
      Completes(before, f);
      assert ws[1..] == [];
      NoPongs(rand, l);
      assert before + Views(ws) == before + [f];
    } else {
      KeepsPending(before, f);
      var l' := if f.op == OP_PING then Send(rand, l, OP_PONG, f.payload).0 else l;
      var tail := ReceiveSound(rand, rest, l', before + [f]);
      ws := [w] + tail;
      assert ws[1..] == tail;
      assert before + Views(ws) == before + [f] + Views(tail);
    }
    PongHead(rand, l, ws);
  }

  /** One frame at the front of the stream, in the cases in which the reader accepts it. */
  lemma ReceiveFrame(rand: Entropy, w: WireFrame, rest: bytes, l: Link, st: Partial)
    requires w.Legal() && |w.payload| <= MAX_PAYLOAD && |st.buf| <= MAX_PAYLOAD
    requires w.op == OP_CONTINUATION ==> st.op != 0
    requires |Absorb(st, w.View()).buf| <= MAX_PAYLOAD
    requires Control(w.View()) || Data(w.View())
    requires w.op == OP_PING ==> Send(rand, l, OP_PONG, w.payload).1
    ensures var st' := Absorb(st, w.View());
      Receive(rand, Encode(w) + rest, l, st) ==
      if Data(w.View()) && w.fin then Message(st'.op, st'.buf, rest, l)
      else Receive(rand, rest, if w.op == OP_PING then Send(rand, l, OP_PONG, w.payload).0 else l, st')
  {
    hide Parse, Encode, Send;
    ParseEncode(w, rest);
  }

  /** Every message on the wire is delivered, provided its pings can be answered, and the
      bytes after it are left for the next call. */
  lemma {:induction false} ReceiveComplete(rand: Entropy, ws: seq<WireFrame>, rest: bytes, l: Link, before: seq<Frame>,
                                           op: nat, payload: bytes)
    requires AllLegal(ws) && Sendable(Pings(Views(ws)))
    requires Pending(before) && |After(before).buf| <= MAX_PAYLOAD
    requires Carries(before + Views(ws), op, payload)
    requires PongAll(rand, l, Pings(Views(ws))).1
    requires ws != []
    ensures Receive(rand, EncodeAll(ws) + rest, l, After(before)) ==
            Message(op, payload, rest, PongAll(rand, l, Pings(Views(ws))).0)
    decreases |ws|
  {
    hide Encode, Send, Receive, Carries, Payloads, Pending, Pings, PongAll, After, Ordered, WithinCap;
    var fs := before + Views(ws);
    var w := ws[0];
    var f := w.View();
    assert fs[|before|] == f && fs[..|before|] == before;
    ChecksPass(fs, |before|, op, payload);
    PongHead(rand, l, ws);
    ReceiveFrame(rand, w, EncodeAll(ws[1..]) + rest, l, After(before));
    assert EncodeAll(ws) + rest == Encode(w) + (EncodeAll(ws[1..]) + rest);
    if |ws| == 1 {
      assert ws[1..] == [];
      NoPongs(rand, l);
      assert EncodeAll(ws[1..]) + rest == rest;
    } else {
      KeepsPending(before, f);
      assert before + [f] + Views(ws[1..]) == fs;
      var l' := if f.op == OP_PING then Send(rand, l, OP_PONG, f.payload).0 else l;
      ReceiveComplete(rand, ws[1..], rest, l', before + [f], op, payload);
    }
  }

  /** `s` starts with exactly one message, `rest` follows it, and every ping in it could be
      answered, which leaves the sending side at `done`. */
  ghost predicate OnWire(rand: Entropy, ws: seq<WireFrame>, s: bytes, l: Link, op: nat, payload: bytes,
                         rest: bytes, done: Link) {
    && AllLegal(ws) && Sendable(Pings(Views(ws)))
    && s == EncodeAll(ws) + rest && Carries(Views(ws), op, payload)
    && PongAll(rand, l, Pings(Views(ws))) == (done, true)
  }

  lemma NotEmpty(fs: seq<Frame>, op: nat, payload: bytes)
    requires Carries(fs, op, payload)
    ensures fs != []
  {
  }

  /** The reader delivers exactly the messages that are on the wire. */
  lemma ReceiveExact(rand: Entropy, s: bytes, l: Link, op: nat, payload: bytes, rest: bytes, done: Link)
    ensures Receive(rand, s, l, NOTHING) == Message(op, payload, rest, done) <==>
            exists ws :: OnWire(rand, ws, s, l, op, payload, rest, done)
  {
    hide Receive, Carries, PongAll, Pings;
    assert Pending([]) && After([]) == NOTHING;
    if Receive(rand, s, l, NOTHING) == Message(op, payload, rest, done) {
      var ws := ReceiveSound(rand, s, l, []);
      assert [] + Views(ws) == Views(ws);
      assert OnWire(rand, ws, s, l, op, payload, rest, done);
    }
    if ws :| OnWire(rand, ws, s, l, op, payload, rest, done) {
      assert [] + Views(ws) == Views(ws);
      NotEmpty(Views(ws), op, payload);
      ReceiveComplete(rand, ws, rest, l, [], op, payload);
    }
  }

  /** Why the reader stops at stream `s` after the frames `fs`: `l` and `done` are the sending
      side before and after. */
  ghost predicate StopsAt(rand: Entropy, fs: seq<Frame>, s: bytes, l: Link, why: Stop, done: Link) {
    match why
    case EndOfStream => Parse(s).Truncated? && done == l
    case FrameTooBig(n) => Parse(s) == TooBig(n) && done == l
    case WriteFailed =>
      Parse(s).Got? && Parse(s).frame.op == OP_PING && Send(rand, l, OP_PONG, Parse(s).frame.payload) == (done, false)
    case ServerClosed => Parse(s).Got? && Parse(s).frame.op == OP_CLOSE && done == l
    case BadOpcode(op) =>
      Parse(s).Got? && Parse(s).frame.op == op && op !in {0, 1, 2, 8, 9, 10} && done == l
    case NoStartFrame =>
      Parse(s).Got? && Parse(s).frame.op == OP_CONTINUATION && !HasStart(fs, |fs|) && done == l
    case MessageTooBig =>
      && Parse(s).Got? && Parse(s).frame.op == OP_CONTINUATION && done == l
      && exists k :: LatestStart(fs, k, |fs|) && |Payloads(fs[k..])| + |Parse(s).frame.payload| > MAX_PAYLOAD
  }

  lemma StopsHere(rand: Entropy, s: bytes, l: Link, before: seq<Frame>)
    requires Pending(before) && |After(before).buf| <= MAX_PAYLOAD
    requires Receive(rand, s, l, After(before)).Ended?
    requires Parse(s).Got? ==>
      var f := Parse(s).frame;
      && !(f.op == OP_PING && Send(rand, l, OP_PONG, f.payload).1) && f.op != OP_PONG
      && !(Data(f) && (f.op == OP_CONTINUATION ==> After(before).op != 0)
           && |Absorb(After(before), f).buf| <= MAX_PAYLOAD)
    ensures var r := Receive(rand, s, l, After(before)); StopsAt(rand, before, s, l, r.why, r.link)
  {
    hide Parse, Send, Payloads, After, Ordered, WithinCap, LatestStart, HasStart;
    AfterMeaning(before);
    if HasStart(before, |before|) { var k :| LatestStart(before, k, |before|); }
  }

  /** When no message comes, everything before the stopping point was taken in and answered,
      and the reason is there to see in what follows. */
  lemma {:induction false} ReceiveEnds(rand: Entropy, s: bytes, l: Link, before: seq<Frame>)
    returns (ws: seq<WireFrame>, tail: bytes)
    requires Pending(before) && |After(before).buf| <= MAX_PAYLOAD
    requires Receive(rand, s, l, After(before)).Ended?
    ensures AllLegal(ws) && Sendable(Pings(Views(ws)))
    ensures var r := Receive(rand, s, l, After(before)); var (mid, ok) := PongAll(rand, l, Pings(Views(ws)));
      && s == EncodeAll(ws) + tail && Pending(before + Views(ws)) && ok
      && StopsAt(rand, before + Views(ws), tail, mid, r.why, r.link)
    decreases |s|
  {
    hide Parse, FrameRead, Encode, Send, Payloads, Pending, Pings, PongAll, After, Ordered, StopsAt;
    if Parse(s).Got? &&
       var f := Parse(s).frame;
       || (f.op == OP_PING && Send(rand, l, OP_PONG, f.payload).1) || f.op == OP_PONG
       || (Data(f) && (f.op == OP_CONTINUATION ==> After(before).op != 0)
           && |Absorb(After(before), f).buf| <= MAX_PAYLOAD)
    {
      var w := FrameRead(s);
      ParseSound(s);
      var f, rest := w.View(), Parse(s).rest;
      KeepsPending(before, f);
      var l' := if f.op == OP_PING then Send(rand, l, OP_PONG, f.payload).0 else l;
      ws, tail := ReceiveEnds(rand, rest, l', before + [f]);
      assert before + Views([w] + ws) == before + [f] + Views(ws);
      ws := [w] + ws;
      PongHead(rand, l, ws);
    } else {
      ws, tail := [], s;
      NoPongs(rand, l);
      assert before + Views(ws) == before;
      assert EncodeAll(ws) + s == s;
      StopsHere(rand, s, l, before);
    }
  }

  lemma StopIsSeen(rand: Entropy, fs: seq<Frame>, s: bytes, l: Link, why: Stop, done: Link)
    requires Pending(fs) && |After(fs).buf| <= MAX_PAYLOAD && StopsAt(rand, fs, s, l, why, done)
    ensures Receive(rand, s, l, After(fs)) == Ended(why, done)
  {
    hide Parse, Send, Payloads, After, Ordered, WithinCap, LatestStart, HasStart;
    AfterMeaning(fs);
    if why.MessageTooBig? {
      var k :| LatestStart(fs, k, |fs|) && |Payloads(fs[k..])| + |Parse(s).frame.payload| > MAX_PAYLOAD;
    }
  }

  /** And the other way round: after frames that leave the reader waiting, whatever is a reason to
      stop does stop it, and for that reason. */
  lemma {:induction false} ReceiveStops(rand: Entropy, ws: seq<WireFrame>, tail: bytes, l: Link, before: seq<Frame>,
                                        why: Stop, done: Link)
    requires AllLegal(ws) && Sendable(Pings(Views(ws)))
    requires Pending(before) && Pending(before + Views(ws)) && |After(before).buf| <= MAX_PAYLOAD
    requires var (mid, ok) := PongAll(rand, l, Pings(Views(ws)));
      ok && StopsAt(rand, before + Views(ws), tail, mid, why, done)
    ensures Receive(rand, EncodeAll(ws) + tail, l, After(before)) == Ended(why, done)
    decreases |ws|
  {
    hide Encode, Send, Receive, Payloads, Pending, Pings, PongAll, After, StopsAt, Parse;
    if ws == [] {
      NoPongs(rand, l);
      assert before + Views(ws) == before && EncodeAll(ws) + tail == tail;
      StopIsSeen(rand, before, tail, l, why, done);
    } else {
      var w := ws[0];
      var f := w.View();
      var fs := before + Views(ws);
      assert fs[|before|] == f && fs[..|before|] == before;
      PendingChecks(fs, |before|);
      PongHead(rand, l, ws);
      ReceiveFrame(rand, w, EncodeAll(ws[1..]) + tail, l, After(before));
      assert EncodeAll(ws) + tail == Encode(w) + (EncodeAll(ws[1..]) + tail);
      KeepsPending(before, f);
      assert before + [f] + Views(ws[1..]) == fs;
      var l' := if f.op == OP_PING then Send(rand, l, OP_PONG, f.payload).0 else l;
      ReceiveStops(rand, ws[1..], tail, l', before + [f], why, done);
    }
  }

  /** The reader's checks hold of every frame of a message that is still incomplete. */
  lemma PendingChecks(fs: seq<Frame>, n: nat)
    requires Pending(fs) && n < |fs|
    ensures var f := fs[n];
      && Unfinished(f) && (f.op == OP_CONTINUATION ==> After(fs[..n]).op != 0)
      && |Absorb(After(fs[..n]), f).buf| <= MAX_PAYLOAD
  {
    hide Ordered, WithinCap, After, Payloads;
    var f := fs[n];
    assert fs[..n] + [f] == fs[..n + 1];
    OrderedPrefix(fs, n);
    OrderedPrefix(fs, n + 1);
    CapPrefix(fs, n);
    CapPrefix(fs, n + 1);
    StartsBefore(fs[..n], f);
    ExtendOrdered(fs[..n], f);
    BufferBound(fs[..n + 1]);
  }

  /** The frames that answer the pings, with the masks drawn for them. */
  ghost function PongFrames(rand: Entropy, draws: nat, ps: seq<bytes>): seq<WireFrame>
    requires Sendable(ps)
    decreases |ps|
  {
    if ps == [] then [] else
    [ClientWire(OP_PONG, ps[0], if rand(draws).Some? then rand(draws).value else [0, 0, 0, 0])]
    + PongFrames(rand, draws + 1, ps[1..])
  }

  /** A successful write puts one whole frame on the wire. */
  lemma SendWrites(rand: Entropy, l: Link, op: nat, p: bytes)
    requires op < 16 && |p| < 0x1_0000_0000_0000_0000 && Send(rand, l, op, p).1
    ensures rand(l.draws).Some?
    ensures var w := ClientWire(op, p, rand(l.draws).value); var l' := Send(rand, l, op, p).0;
      && w.Legal() && w.View() == Frame(op, true, p) && w.key.Some? && w.payload == p
      && l'.out == l.out + Encode(w) && l'.draws == l.draws + 1
  {
    ClientFrameIsLegal(op, p, rand(l.draws).value);
  }

  ghost predicate ArePongs(ws: seq<WireFrame>, ps: seq<bytes>) {
    && AllLegal(ws) && |ws| == |ps|
    && forall i | 0 <= i < |ps| :: ws[i].View() == Frame(OP_PONG, true, ps[i]) && ws[i].key.Some?
  }

  lemma OneMorePong(w: WireFrame, ws: seq<WireFrame>, ps: seq<bytes>)
    requires ps != [] && ArePongs(ws, ps[1..])
    requires w.Legal() && |w.payload| <= MAX_PAYLOAD && w.View() == Frame(OP_PONG, true, ps[0]) && w.key.Some?
    ensures ArePongs([w] + ws, ps) && EncodeAll([w] + ws) == Encode(w) + EncodeAll(ws)
  {
    hide Encode;
    assert ([w] + ws)[1..] == ws;
  }

  /** Answering pings puts one whole masked pong per ping on the wire, in order, each with the
      payload of its ping. */
  lemma {:induction false} PongsOnWire(rand: Entropy, l: Link, ps: seq<bytes>)
    requires Sendable(ps) && PongAll(rand, l, ps).1
    ensures var ws := PongFrames(rand, l.draws, ps); var done := PongAll(rand, l, ps).0;
      ArePongs(ws, ps) && done.out == l.out + EncodeAll(ws) && done.draws == l.draws + |ps|
    decreases |ps|
  {
    hide Send, ClientWire, Encode, ArePongs, AllLegal;
    if ps == [] {
      NoPongFrames();
    } else {
      var l' := Send(rand, l, OP_PONG, ps[0]).0;
      SendWrites(rand, l, OP_PONG, ps[0]);
      PongsOnWire(rand, l', ps[1..]);
      OneMorePong(ClientWire(OP_PONG, ps[0], rand(l.draws).value), PongFrames(rand, l'.draws, ps[1..]), ps);
    }
  }

  lemma NoPongFrames()
    ensures ArePongs([], []) && EncodeAll([]) == []
  {
  }

  /** A call of the writer succeeds exactly when a mask could be drawn and the transport takes the
      whole frame. Whatever happens, the wire only grows, by a prefix of that frame, and by all the
      transport still takes when the call fails on it; and each call draws once. */
  lemma SendExact(rand: Entropy, l: Link, op: nat, p: bytes)
    requires op < 16 && |p| < 0x1_0000_0000_0000_0000
    ensures var (l', ok) := Send(rand, l, op, p);
      && l.out <= l'.out && |l'.out| + l'.room == |l.out| + l.room && l'.draws == l.draws + 1
      && match rand(l.draws) {
           case None => !ok && l'.out == l.out
           case Some(m) =>
             && l'.out[|l.out|..] <= ClientFrame(op, p, m)
             && (ok <==> l'.out[|l.out|..] == ClientFrame(op, p, m)) && (!ok ==> l'.room == 0)
         }
  {
    hide ClientFrame;
    var (l', ok) := Send(rand, l, op, p);
    if rand(l.draws).Some? {
      var f := ClientFrame(op, p, rand(l.draws).value);
      if ok { assert l'.out[|l.out|..] == f; } else { assert l'.out[|l.out|..] == f[..l.room]; }
    }
  }
}
