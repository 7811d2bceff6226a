/** The session as its two goroutines run it: the read loop, which sends the hello and one pong
    per ping, and the ping ticker, both through the write mutex. Every frame read and every step
    of the writer is one step, in any order. */
module ReadLoop {
  import opened Bits
  import opened Wrappers
  import opened Frames
  import opened Messages
  import Writers

  const READER: nat := 0
  const TICKER: nat := 1

  /** Where the read loop is: between frames, about to write one, inside the writer with it, or
      returned. A write that failed leaves its frame owed. */
  datatype Pc = Idle | Want(f: Frame) | Busy(f: Frame) | Stopped(owed: Option<Frame>)

  /** A delivered message and the frames that were read for it. */
  datatype Delivered = Delivered(frames: seq<Frame>, op: nat, payload: bytes)

  /** `current` are the frames read since the latest delivery, `st` the message under construction. */
  datatype Session = Session(bus: Writers.Bus, input: bytes, past: seq<Delivered>, current: seq<Frame>, st: Partial,
                             pc: Pc, ticking: bool)

  function Hello(text: bytes): Frame { Frame(OP_TEXT, true, text) }
  function Pong(ping: Frame): Frame { Frame(OP_PONG, true, ping.payload) }

  function Begin(input: bytes, hello: bytes): Session {
    Session(Writers.IDLE, input, [], [], NOTHING, if hello == [] then Idle else Want(Hello(hello)), true)
  }

  datatype Action = ReadNext | Write(step: Writers.Action)

  /** Who may take the mutex for what. */
  ghost predicate MayAcquire(s: Session, who: nat, op: nat, payload: bytes) {
    || (who == READER && s.pc == Want(Frame(op, true, payload)))
    || (who == TICKER && s.ticking && op == OP_PING && payload == [])
  }

  ghost predicate Enabled(s: Session, a: Action) {
    match a
    case ReadNext => s.pc.Idle?
    case Write(x) => Writers.Enabled(s.bus, x) && (x.Acquire? ==> MayAcquire(s, x.who, x.op, x.payload))
  }

  /** The read loop's reaction to one accepted frame. */
  function Take(s: Session, f: Frame, rest: bytes): Session {
    var t := s.(input := rest, current := s.current + [f]);
    if f.op == OP_PING then t.(pc := Want(Pong(f)))
    else if f.op == OP_PONG then t
    else if f.op == OP_CLOSE || !Data(f) then t.(pc := Stopped(None))
    else if f.op == OP_CONTINUATION && (s.st.op == 0 || |s.st.buf| + |f.payload| > MAX_PAYLOAD) then
      t.(pc := Stopped(None))
    else
      var st := Absorb(s.st, f);
      if f.fin then t.(past := s.past + [Delivered(t.current, st.op, st.buf)], current := [], st := NOTHING)
      else t.(st := st)
  }

  /** Where the read loop is after a step of the writer. */
  ghost function Moved(s: Session, x: Writers.Action): Pc
    requires Writers.Enabled(s.bus, x)
  {
    match x
    case Acquire(who, op, payload) => if who == READER then Busy(Frame(op, true, payload)) else s.pc
    case Release(who) =>
      if who != READER then s.pc
      else if s.bus.holder.value.stage.ok then Idle
      else Stopped(Some(Frame(s.bus.holder.value.op, true, s.bus.holder.value.payload)))
    case _ => s.pc
  }

  ghost function Apply(s: Session, a: Action): Session
    requires Enabled(s, a)
  {
    match a
    case ReadNext =>
      (match Parse(s.input)
       case Got(f, rest) => Take(s, f, rest)
       case _ => s.(pc := Stopped(None)))
    case Write(x) =>
      s.(bus := Writers.Apply(s.bus, x), pc := Moved(s, x),
         ticking := s.ticking && !(x.Release? && x.who == TICKER && !s.bus.holder.value.stage.ok))
  }

  /** A run with its steps: any interleaving of the read loop, the ticker and the transport. */
  ghost predicate Run(ss: seq<Session>, acts: seq<Action>, input: bytes, hello: bytes) {
    && |ss| == |acts| + 1 && ss[0] == Begin(input, hello)
    && forall i | 0 <= i < |acts| :: Enabled(ss[i], acts[i]) && ss[i + 1] == Apply(ss[i], acts[i])
  }

  function Flat(past: seq<Delivered>): seq<Frame> {
    if past == [] then [] else Flat(past[..|past| - 1]) + past[|past| - 1].frames
  }

  /** Every frame read so far. */
  function FramesRead(s: Session): seq<Frame> { Flat(s.past) + s.current }

  /** One pong per ping, in order, each with the payload of its ping. */
  function Replies(fs: seq<Frame>): seq<Frame> {
    if fs == [] then [] else
    var f := fs[|fs| - 1];
    Replies(fs[..|fs| - 1]) + if f.op == OP_PING then [Pong(f)] else []
  }

  /** The frames that are no pings: those of the read loop. */
  function Own(fs: seq<Frame>): seq<Frame> {
    if fs == [] then [] else
    var f := fs[|fs| - 1];
    Own(fs[..|fs| - 1]) + if f.op == OP_PING then [] else [f]
  }

  /** What the read loop has to write for the frames it read: the hello, then the pongs. */
  function Script(hello: bytes, read: seq<Frame>): seq<Frame> {
    (if hello == [] then [] else [Hello(hello)]) + Replies(read)
  }

  /** The frame of the script that is not on the wire as a whole: at most one. */
  ghost function Owed(s: Session): (r: seq<Frame>)
    ensures |r| <= 1
  {
    match s.pc
    case Want(f) => [f]
    case Busy(f) => if s.bus.holder.Some? && s.bus.holder.value.stage == Writers.Leaving(true) then [] else [f]
    case Stopped(Some(f)) => [f]
    case _ => []
  }

  // ----- The writing side -----

  /** The mutex holder is the read loop with its own frame, or the ticker with an empty ping. */
  ghost predicate Roles(s: Session) {
    && (s.bus.holder.Some? ==>
          var h := s.bus.holder.value;
          if h.who == READER then s.pc == Busy(Frame(h.op, true, h.payload)) else h.op == OP_PING && h.payload == [])
    && (s.pc.Busy? ==> s.bus.holder.Some? && s.bus.holder.value.who == READER)
    && (s.pc.Want? || s.pc.Busy? ==> s.pc.f.op != OP_PING)
    && (forall y | y in s.bus.sent && y.op == OP_PING :: y.payload == [])
  }

  ghost predicate Answered(s: Session, hello: bytes) {
    Own(Writers.FramesOf(s.bus.sent)) + Owed(s) == Script(hello, FramesRead(s))
  }

  lemma RolesStep(s: Session, a: Action)
    requires Roles(s) && Enabled(s, a)
    ensures Roles(Apply(s, a))
  {
    hide Parse, Writers.Chunk, Writers.Unfinished, Absorb;
  }

  lemma ScriptGrows(hello: bytes, fs: seq<Frame>, f: Frame)
    ensures Script(hello, fs + [f]) == Script(hello, fs) + if f.op == OP_PING then [Pong(f)] else []
  {
    assert (fs + [f])[..|fs|] == fs;
  }

  lemma OwnGrows(fs: seq<Frame>, f: Frame)
    ensures Own(fs + [f]) == Own(fs) + if f.op == OP_PING then [] else [f]
  {
    assert (fs + [f])[..|fs|] == fs;
  }

  lemma FlatGrows(past: seq<Delivered>, d: Delivered)
    ensures Flat(past + [d]) == Flat(past) + d.frames
  {
    assert (past + [d])[..|past|] == past;
  }

  /** A frame taken in is one more frame read. */
  lemma TakeReads(s: Session, f: Frame, rest: bytes)
    ensures FramesRead(Take(s, f, rest)) == FramesRead(s) + [f]
  {
    hide Absorb, Flat;
    var t := Take(s, f, rest);
    assert FramesRead(s) + [f] == Flat(s.past) + (s.current + [f]);
    if t.past != s.past { FlatGrows(s.past, t.past[|s.past|]); }
  }

  lemma TakeOwes(s: Session, f: Frame, rest: bytes)
    requires s.pc.Idle?
    ensures Owed(Take(s, f, rest)) == if f.op == OP_PING then [Pong(f)] else []
    ensures Take(s, f, rest).bus == s.bus
  {
    hide Absorb;
  }

  lemma ReadAnswered(s: Session, hello: bytes)
    requires Answered(s, hello) && s.pc.Idle?
    ensures Answered(Apply(s, ReadNext), hello) && Apply(s, ReadNext).bus == s.bus
  {
    hide Parse, Take, Script, Own, FramesRead, Writers.FramesOf;
    var own := Own(Writers.FramesOf(s.bus.sent));
    assert Owed(s) == [] && own + [] == own;
    match Parse(s.input)
    case Got(f, rest) =>
      TakeReads(s, f, rest);
      TakeOwes(s, f, rest);
      ScriptGrows(hello, FramesRead(s), f);
    case _ =>
      SameRead(s, s.(pc := Stopped(None)));
  }

  lemma SameRead(s: Session, t: Session)
    requires t.past == s.past && t.current == s.current
    ensures FramesRead(t) == FramesRead(s)
  {
  }

  lemma FramesOfGrow(sent: seq<Writers.Sent>, y: Writers.Sent)
    ensures Writers.FramesOf(sent + [y]) == Writers.FramesOf(sent) + [Frame(y.op, true, y.payload)]
  {
  }

  /** What a step of the writer completes is a ping of the ticker or the frame owed. */
  lemma WriteOwes(s: Session, x: Writers.Action)
    requires Roles(s) && Enabled(s, Write(x))
    ensures var t := Apply(s, Write(x));
      || (t.bus.sent == s.bus.sent && Owed(t) == Owed(s))
      || (exists y: Writers.Sent :: t.bus.sent == s.bus.sent + [y]
            && if y.op == OP_PING then Owed(t) == Owed(s)
               else Owed(s) == [Frame(y.op, true, y.payload)] && Owed(t) == [])
  {
    hide Writers.Unfinished, Writers.Chunk;
    var t := Apply(s, Write(x));
    if t.bus.sent != s.bus.sent {
      var y := t.bus.sent[|s.bus.sent|];
      assert t.bus.sent == s.bus.sent + [y];
    }
  }

  lemma WriteAnswered(s: Session, x: Writers.Action, hello: bytes)
    requires Answered(s, hello) && Roles(s) && Enabled(s, Write(x))
    ensures Answered(Apply(s, Write(x)), hello)
  {
    hide Script, Own, FramesRead, Writers.FramesOf, Owed, Writers.Apply, Writers.Enabled, Moved, Roles;
    var t := Apply(s, Write(x));
    WriteOwes(s, x);
    SameRead(s, t);
    if t.bus.sent != s.bus.sent {
      var y :| t.bus.sent == s.bus.sent + [y]
               && if y.op == OP_PING then Owed(t) == Owed(s)
                  else Owed(s) == [Frame(y.op, true, y.payload)] && Owed(t) == [];
      FramesOfGrow(s.bus.sent, y);
      OwnGrows(Writers.FramesOf(s.bus.sent), Frame(y.op, true, y.payload));
      var own := Own(Writers.FramesOf(s.bus.sent));
      assert own + [] == own;
      assert own + Owed(s) + [] == own + Owed(s);
    }
  }

  /** No frame written or about to be written is above the cap. */
  ghost predicate Small(s: Session) {
    && (forall y | y in s.bus.sent :: |y.payload| <= MAX_PAYLOAD)
    && (s.pc.Want? || s.pc.Busy? ==> |s.pc.f.payload| <= MAX_PAYLOAD)
  }

  lemma SmallStep(s: Session, a: Action)
    requires Roles(s) && Small(s) && Enabled(s, a)
    ensures Small(Apply(s, a))
  {
    hide Writers.Chunk, Writers.Unfinished, Absorb;
    if a.ReadNext? && Parse(s.input).Got? { assert |Parse(s.input).frame.payload| <= MAX_PAYLOAD; }
  }

  ghost predicate WriteSide(s: Session, hello: bytes) {
    Answered(s, hello) && Roles(s) && Writers.Safe(s.bus) && (|hello| <= MAX_PAYLOAD ==> Small(s))
  }

  lemma BeginWriteSide(input: bytes, hello: bytes)
    ensures WriteSide(Begin(input, hello), hello)
  {
  }

  lemma StepWriteSide(s: Session, a: Action, hello: bytes)
    requires WriteSide(s, hello) && Enabled(s, a)
    ensures WriteSide(Apply(s, a), hello)
  {
    hide Answered, Roles, Small, Writers.Safe, Parse, Take, Writers.Apply, Writers.Enabled, Moved;
    RolesStep(s, a);
    if |hello| <= MAX_PAYLOAD { SmallStep(s, a); }
    match a
    case ReadNext => ReadAnswered(s, hello);
    case Write(x) => WriteAnswered(s, x, hello); Writers.StepSafe(s.bus, x);
  }

  lemma {:induction false} RunWriteSide(ss: seq<Session>, acts: seq<Action>, input: bytes, hello: bytes, i: nat)
    requires Run(ss, acts, input, hello) && i < |ss|
    ensures WriteSide(ss[i], hello)
  {
    hide WriteSide, Apply, Enabled, Begin;
    if i > 0 {
      RunWriteSide(ss, acts, input, hello, i - 1);
      assert ss[i - 1 + 1] == Apply(ss[i - 1], acts[i - 1]) && Enabled(ss[i - 1], acts[i - 1]);
      StepWriteSide(ss[i - 1], acts[i - 1], hello);
    } else {
      BeginWriteSide(input, hello);
    }
  }

  /** In every interleaving the frames written whole are, leaving out the ticker's empty pings,
      the hello and then one pong per ping read, in order and with its payload; at most the
      latest of them is still owed. */
  lemma PongsInOrder(ss: seq<Session>, acts: seq<Action>, input: bytes, hello: bytes, i: nat)
    requires Run(ss, acts, input, hello) && i < |ss|
    ensures Own(Writers.FramesOf(ss[i].bus.sent)) + Owed(ss[i]) == Script(hello, FramesRead(ss[i]))
    ensures |Owed(ss[i])| <= 1
    ensures forall y | y in ss[i].bus.sent && y.op == OP_PING :: y.payload == []
  {
    hide Own, Script, FramesRead, Writers.FramesOf, Owed, Writers.Safe;
    RunWriteSide(ss, acts, input, hello, i);
  }

  /** The steps before the i-th left no frame half-written. */
  ghost predicate NoneAbandoned(ss: seq<Session>, acts: seq<Action>, input: bytes, hello: bytes, i: nat)
    requires Run(ss, acts, input, hello) && i < |ss|
  {
    forall j | 0 <= j < i && acts[j].Write? ::
      Enabled(ss[j], acts[j]) && !Writers.Abandons(ss[j].bus, acts[j].step)
  }

  lemma StepLoses(s: Session, a: Action)
    requires Enabled(s, a)
    ensures Apply(s, a).bus.lost == 0 <==> s.bus.lost == 0 && (a.Write? ==> !Writers.Abandons(s.bus, a.step))
  {
    hide Parse, Absorb, Writers.Abandons, Writers.Apply, Writers.Enabled;
    if a.Write? { Writers.AbandonsExact(s.bus, a.step); }
  }

  lemma {:induction false} NothingLost(ss: seq<Session>, acts: seq<Action>, input: bytes, hello: bytes, i: nat)
    requires Run(ss, acts, input, hello) && i < |ss|
    ensures ss[i].bus.lost == 0 <==> NoneAbandoned(ss, acts, input, hello, i)
  {
    hide Apply, Enabled, Writers.Abandons;
    if i > 0 {
      NothingLost(ss, acts, input, hello, i - 1);
      assert ss[i - 1 + 1] == Apply(ss[i - 1], acts[i - 1]) && Enabled(ss[i - 1], acts[i - 1]);
      StepLoses(ss[i - 1], acts[i - 1]);
    }
  }

  /** What the peer sees of it: the wire is in step exactly as long as no write failed inside its
      frame; then, unless the hello is too big for its reader, the frames it reads are pings, the
      hello and the pongs, in that order and with that content. */
  lemma PeerSeesPongs(ss: seq<Session>, acts: seq<Action>, input: bytes, hello: bytes, i: nat)
    requires Run(ss, acts, input, hello) && i < |ss|
    ensures var b := ss[i].bus;
      && Writers.HolderFits(b) && Writers.AllFit(b.sent)
      && (Writers.Aligned(b) <==> NoneAbandoned(ss, acts, input, hello, i))
    ensures |hello| <= MAX_PAYLOAD && NoneAbandoned(ss, acts, input, hello, i) ==>
            Own(Writers.ParseAll(ss[i].bus.wire).0) + Owed(ss[i]) == Script(hello, FramesRead(ss[i]))
  {
    hide Own, Script, FramesRead, Writers.FramesOf, Owed, Writers.ParseAll, NoneAbandoned, Writers.Readable;
    hide Writers.Stream, Writers.Unfinished;
    RunWriteSide(ss, acts, input, hello, i);
    NothingLost(ss, acts, input, hello, i);
    var sent := ss[i].bus.sent;
    if |hello| <= MAX_PAYLOAD && ss[i].bus.lost == 0 {
      Writers.SafeDecodes(ss[i].bus);
      AllReadable(ss[i]);
      assert sent[..|sent|] == sent;
    }
  }

  lemma AllReadable(s: Session)
    requires Small(s)
    ensures Writers.Readable(s.bus.sent) == |s.bus.sent|
  {
    assert forall j | 0 <= j < |s.bus.sent| :: s.bus.sent[j] in s.bus.sent;
  }

  /** Does the ticker leave the writer with an error in this step? */
  ghost predicate TickFails(s: Session, a: Action)
    requires Enabled(s, a)
  {
    a == Write(Writers.Release(TICKER)) && s.bus.holder.value.stage == Writers.Leaving(false)
  }

  lemma StepTicks(s: Session, a: Action)
    requires Enabled(s, a)
    ensures Apply(s, a).ticking <==> s.ticking && !TickFails(s, a)
    ensures a.Write? && a.step.Acquire? && a.step.who == TICKER ==> s.ticking
  {
    hide Parse, Absorb, Writers.Apply;
  }

  /** The ticker goes on exactly until one of its own writes fails; after that it never takes the
      mutex again. */
  lemma {:induction false} TicksUntilFailure(ss: seq<Session>, acts: seq<Action>, input: bytes, hello: bytes, i: nat)
    requires Run(ss, acts, input, hello) && i < |ss|
    ensures ss[i].ticking <==> forall j | 0 <= j < i :: !TickFails(ss[j], acts[j])
    ensures i < |acts| && acts[i].Write? && acts[i].step.Acquire? && acts[i].step.who == TICKER ==> ss[i].ticking
  {
    hide Apply, Enabled, TickFails;
    if i > 0 {
      TicksUntilFailure(ss, acts, input, hello, i - 1);
      assert ss[i - 1 + 1] == Apply(ss[i - 1], acts[i - 1]) && Enabled(ss[i - 1], acts[i - 1]);
      StepTicks(ss[i - 1], acts[i - 1]);
    }
    if i < |acts| {
      assert Enabled(ss[i], acts[i]);
      StepTicks(ss[i], acts[i]);
    }
  }

  // ----- The reading side -----

  /** The input consumed is legal encodings of the frames read; each delivered message was
      carried by its own frames; and the frames since then are a message still incomplete. */
  ghost predicate ReadSide(s: Session, input: bytes, ws: seq<WireFrame>) {
    && AllLegal(ws) && Views(ws) == FramesRead(s) && input == EncodeAll(ws) + s.input
    && (forall d | d in s.past :: Carries(d.frames, d.op, d.payload))
    && (!s.pc.Stopped? ==> Pending(s.current) && s.st == After(s.current) && |s.st.buf| <= MAX_PAYLOAD)
  }

  lemma {:induction false} EncodeGrows(ws: seq<WireFrame>, w: WireFrame)
    requires AllLegal(ws) && w.Legal() && |w.payload| <= MAX_PAYLOAD
    ensures AllLegal(ws + [w]) && EncodeAll(ws + [w]) == EncodeAll(ws) + Encode(w)
    decreases |ws|
  {
    hide Encode;
    if ws == [] {
      assert [w][1..] == [] && [] + [w] == [w];
    } else {
      EncodeGrows(ws[1..], w);
      assert (ws + [w])[1..] == ws[1..] + [w];
    }
  }

  /** Taking in a frame keeps the message state. */
  lemma TakeMessages(s: Session, f: Frame, rest: bytes)
    requires s.pc.Idle? && Pending(s.current) && s.st == After(s.current) && |f.payload| <= MAX_PAYLOAD
    requires |s.st.buf| <= MAX_PAYLOAD && forall d | d in s.past :: Carries(d.frames, d.op, d.payload)
    ensures var t := Take(s, f, rest);
      && (forall d | d in t.past :: Carries(d.frames, d.op, d.payload))
      && (!t.pc.Stopped? ==> Pending(t.current) && t.st == After(t.current) && |t.st.buf| <= MAX_PAYLOAD)
  {
    hide Pending, Carries, After;
    var t := Take(s, f, rest);
    if !t.pc.Stopped? {
      if t.past != s.past {
        Completes(s.current, f);
        NothingPending();
      } else {
        KeepsPending(s.current, f);
      }
    }
  }

  lemma NothingPending()
    ensures Pending([]) && After([]) == NOTHING
  {
  }

  lemma ReadReadSide(s: Session, input: bytes, ws: seq<WireFrame>) returns (vs: seq<WireFrame>)
    requires ReadSide(s, input, ws) && s.pc.Idle?
    ensures ReadSide(Apply(s, ReadNext), input, vs)
  {
    hide Parse, Take, Pending, Carries, After, FramesRead, FrameRead, Encode, EncodeAll;
    match Parse(s.input)
    case Got(f, rest) =>
      var w := FrameRead(s.input);
      ParseSound(s.input);
      vs := ws + [w];
      EncodeGrows(ws, w);
      TakeReads(s, f, rest);
      TakeMessages(s, f, rest);
      TakeRest(s, f, rest);
      assert EncodeAll(ws) + (Encode(w) + rest) == EncodeAll(ws) + Encode(w) + rest;
      assert Views(vs) == Views(ws) + [f];
    case _ =>
      vs := ws;
      SameRead(s, s.(pc := Stopped(None)));
  }

  lemma TakeRest(s: Session, f: Frame, rest: bytes)
    ensures Take(s, f, rest).input == rest
  {
    hide Absorb;
  }

  lemma WriteReadSide(s: Session, x: Writers.Action, input: bytes, ws: seq<WireFrame>)
    requires ReadSide(s, input, ws) && Roles(s) && Enabled(s, Write(x))
    ensures ReadSide(Apply(s, Write(x)), input, ws)
  {
    hide Pending, Carries, After, FramesRead, EncodeAll, Writers.Apply, Writers.Chunk;
    SameRead(s, Apply(s, Write(x)));
  }

  /** In every interleaving the read loop delivers exactly the messages that its input carries:
      neither the ticker nor the transport can split, merge, drop or reorder them. */
  lemma {:induction false} DeliversInOrder(ss: seq<Session>, acts: seq<Action>, input: bytes, hello: bytes, i: nat)
    returns (ws: seq<WireFrame>)
    requires Run(ss, acts, input, hello) && i < |ss|
    ensures AllLegal(ws) && Views(ws) == FramesRead(ss[i]) && input == EncodeAll(ws) + ss[i].input
    ensures forall d | d in ss[i].past :: Carries(d.frames, d.op, d.payload)
    ensures !ss[i].pc.Stopped? ==> Pending(ss[i].current)
    ensures ReadSide(ss[i], input, ws)
  {
    hide Pending, Carries, After, FramesRead, EncodeAll, Apply, Enabled, Answered, Writers.Safe, Roles, Small;
    if i > 0 {
      ws := DeliversInOrder(ss, acts, input, hello, i - 1);
      RunWriteSide(ss, acts, input, hello, i - 1);
      var s, a := ss[i - 1], acts[i - 1];
      assert ss[i - 1 + 1] == Apply(s, a) && Enabled(s, a);
      if a.Write? {
        WriteReadSide(s, a.step, input, ws);
      } else {
        ReadIsIdle(s);
        ws := ReadReadSide(s, input, ws);
      }
    } else {
      ws := [];
      BeginReadSide(input, hello);
    }
  }

  lemma ReadIsIdle(s: Session)
    requires Enabled(s, ReadNext)
    ensures s.pc.Idle?
  {
  }

  lemma BeginReadSide(input: bytes, hello: bytes)
    ensures ReadSide(Begin(input, hello), input, [])
  {
    assert EncodeAll([]) + input == input;
    assert FramesRead(Begin(input, hello)) == [] && Views([]) == [];
  }

  // ----- The goroutines do interleave -----

  /** One more step of a run. */
  lemma More(ss: seq<Session>, acts: seq<Action>, input: bytes, hello: bytes, a: Action)
    returns (ts: seq<Session>, bs: seq<Action>)
    requires Run(ss, acts, input, hello) && Enabled(ss[|acts|], a)
    ensures Run(ts, bs, input, hello) && |bs| == |acts| + 1 && |ts| == |bs| + 1 && ts[|bs|] == Apply(ss[|acts|], a)
  {
    hide Apply, Enabled, Begin;
    bs, ts := acts + [a], ss + [Apply(ss[|acts|], a)];
    forall i | 0 <= i < |bs| ensures Enabled(ts[i], bs[i]) && ts[i + 1] == Apply(ts[i], bs[i]) {
      if i < |acts| { assert bs[i] == acts[i] && ts[i] == ss[i] && ts[i + 1] == ss[i + 1]; }
    }
  }

  /** A goroutine that may take the mutex gets as far as writing the header. */
  lemma Enters(ss: seq<Session>, acts: seq<Action>, input: bytes, hello: bytes, who: nat, op: nat, payload: bytes,
               key: mask)
    returns (ts: seq<Session>, bs: seq<Action>)
    requires Run(ss, acts, input, hello) && ss[|acts|].bus.holder.None?
    requires op < 16 && |payload| < 0x1_0000_0000_0000_0000 && MayAcquire(ss[|acts|], who, op, payload)
    ensures Run(ts, bs, input, hello) && |ts| == |bs| + 1
    ensures var s := ss[|acts|];
      ts[|bs|] == s.(bus := s.bus.(holder := Some(Writers.Holder(who, s.bus.turns, op, payload, Writers.HeadNext(key))),
                                   turns := s.bus.turns + 1),
                     pc := if who == READER then Busy(Frame(op, true, payload)) else s.pc)
  {
    var s := ss[|acts|];
    hide Run;
    ts, bs := More(ss, acts, input, hello, Write(Writers.Acquire(who, op, payload)));
    ts, bs := More(ts, bs, input, hello, Write(Writers.Draw(who, Some(key))));
  }

  /** The mutex holder can finish its frame and leave. */
  lemma Finishes(ss: seq<Session>, acts: seq<Action>, input: bytes, hello: bytes, h: Writers.Holder)
    returns (ts: seq<Session>, bs: seq<Action>)
    requires Run(ss, acts, input, hello) && ss[|acts|].bus.holder == Some(h) && h.stage.HeadNext?
    requires h.op < 16 && |h.payload| < 0x1_0000_0000_0000_0000
    ensures Run(ts, bs, input, hello) && |ts| == |bs| + 1
    ensures var s, t := ss[|acts|], ts[|bs|];
      && t.bus.sent == s.bus.sent + [Writers.Sent(h.turn, h.op, h.payload, h.stage.key)]
      && t.bus.holder.None? && t.input == s.input && t.ticking == s.ticking
      && t.pc == if h.who == READER then Idle else s.pc
  {
    hide Run, ClientHead, Masked;
    var n, m := |ClientHead(h.op, |h.payload|, h.stage.key)|, |Masked(h.payload, h.stage.key)|;
    ts, bs := More(ss, acts, input, hello, Write(Writers.Put(h.who, n)));
    if h.payload != [] { ts, bs := More(ts, bs, input, hello, Write(Writers.Put(h.who, m))); }
    ts, bs := More(ts, bs, input, hello, Write(Writers.Release(h.who)));
  }

  /** So it can write its whole frame. */
  lemma WholeCall(ss: seq<Session>, acts: seq<Action>, input: bytes, hello: bytes, who: nat, op: nat, payload: bytes)
    returns (ts: seq<Session>, bs: seq<Action>)
    requires Run(ss, acts, input, hello) && ss[|acts|].bus.holder.None?
    requires op < 16 && |payload| < 0x1_0000_0000_0000_0000 && MayAcquire(ss[|acts|], who, op, payload)
    ensures Run(ts, bs, input, hello) && |ts| == |bs| + 1
    ensures var s, t := ss[|acts|], ts[|bs|];
      && Writers.FramesOf(t.bus.sent) == Writers.FramesOf(s.bus.sent) + [Frame(op, true, payload)]
      && t.bus.holder.None? && t.input == s.input && t.ticking == s.ticking
      && t.pc == if who == READER then Idle else s.pc
  {
    var s := ss[|acts|];
    hide Run, Writers.FramesOf;
    var key: mask := [0, 0, 0, 0];
    ts, bs := Enters(ss, acts, input, hello, who, op, payload, key);
    ts, bs := Finishes(ts, bs, input, hello, ts[|bs|].bus.holder.value);
    FramesOfGrow(s.bus.sent, Writers.Sent(s.bus.turns, op, payload, key));
  }

  /** For every hello and every ping of the peer there is a run in which pings of the ticker stand
      before the hello and between the hello and the pong. */
  lemma TickerInBetween(hello: bytes, w: WireFrame) returns (ss: seq<Session>, acts: seq<Action>)
    requires hello != [] && |hello| < 0x1_0000_0000_0000_0000
    requires w.Legal() && w.op == OP_PING && |w.payload| <= MAX_PAYLOAD
    ensures Run(ss, acts, Encode(w), hello)
    ensures var tick := Frame(OP_PING, true, []);
      Writers.FramesOf(ss[|acts|].bus.sent) == [tick, Hello(hello), tick, Pong(w.View())]
  {
    hide Run, Encode, Parse, Absorb, Writers.Apply, Writers.Enabled, Writers.FramesOf;
    var input := Encode(w);
    Started(input, hello);
    ss, acts := WholeCall([Begin(input, hello)], [], input, hello, TICKER, OP_PING, []);
    ss, acts := WholeCall(ss, acts, input, hello, READER, OP_TEXT, hello);
    assert input + [] == input;
    ParseEncode(w, []);
    ss, acts := More(ss, acts, input, hello, ReadNext);
    ss, acts := WholeCall(ss, acts, input, hello, TICKER, OP_PING, []);
    ss, acts := WholeCall(ss, acts, input, hello, READER, OP_PONG, w.payload);
  }

  lemma Started(input: bytes, hello: bytes)
    ensures Run([Begin(input, hello)], [], input, hello) && Writers.FramesOf(Begin(input, hello).bus.sent) == []
  {
  }
}
