/** The frame writer under concurrency: any number of goroutines (the ping ticker, the pong
    replies, the hello) call it, and each call writes header and body as separate steps while
    it holds the write mutex. A write that fails half-way leaves its bytes on the wire, and the
    next goroutine writes after them. */
module Writers {
  import opened Bits
  import opened Wrappers
  import opened Frames

  /** A frame that was written whole; `turn` counts the acquisitions of the mutex before its own. */
  datatype Sent = Sent(turn: nat, op: nat, payload: bytes, key: mask) {
    ghost predicate Fits() { op < 16 && |payload| < 0x1_0000_0000_0000_0000 }
  }

  datatype Stage = Drawing | HeadNext(key: mask) | BodyNext(key: mask) | Leaving(ok: bool)

  /** The goroutine inside the critical section and how far it got. */
  datatype Holder = Holder(who: nat, turn: nat, op: nat, payload: bytes, stage: Stage)

  /** `turns` counts the acquisitions so far, `lost` the bytes of abandoned frames on the wire. */
  datatype Bus = Bus(wire: bytes, holder: Option<Holder>, turns: nat, lost: nat, sent: seq<Sent>)

  const IDLE := Bus([], None, 0, 0, [])

  datatype Action =
    | Acquire(who: nat, op: nat, payload: bytes)
    | Draw(who: nat, key: Option<mask>)
    | Put(who: nat, n: nat)       // the transport takes n bytes of what is being written
    | Release(who: nat)

  /** What the holder writes next. */
  function Chunk(h: Holder): bytes
    requires h.op < 16 && |h.payload| < 0x1_0000_0000_0000_0000
  {
    match h.stage
    case HeadNext(key) => ClientHead(h.op, |h.payload|, key)
    case BodyNext(key) => Masked(h.payload, key)
    case _ => []
  }

  ghost predicate HolderFits(b: Bus) {
    b.holder.Some? ==> b.holder.value.op < 16 && |b.holder.value.payload| < 0x1_0000_0000_0000_0000
  }

  ghost predicate Enabled(b: Bus, a: Action) {
    HolderFits(b) &&
    match a
    case Acquire(_, op, payload) => b.holder.None? && op < 16 && |payload| < 0x1_0000_0000_0000_0000
    case Draw(who, _) => b.holder.Some? && b.holder.value.who == who && b.holder.value.stage.Drawing?
    case Put(who, n) =>
      && b.holder.Some? && b.holder.value.who == who
      && (b.holder.value.stage.HeadNext? || b.holder.value.stage.BodyNext?)
      && n <= |Chunk(b.holder.value)|
    case Release(who) => b.holder.Some? && b.holder.value.who == who && b.holder.value.stage.Leaving?
  }

  /** The part of the holder's frame that is already on the wire. */
  ghost function Unfinished(b: Bus): bytes
    requires HolderFits(b)
  {
    if b.holder.Some? && b.holder.value.stage.BodyNext?
    then ClientHead(b.holder.value.op, |b.holder.value.payload|, b.holder.value.stage.key) else []
  }

  ghost function Apply(b: Bus, a: Action): Bus
    requires Enabled(b, a)
  {
    match a
    case Acquire(who, op, payload) =>
      b.(holder := Some(Holder(who, b.turns, op, payload, Drawing)), turns := b.turns + 1)
    case Draw(_, key) =>
      b.(holder := Some(b.holder.value.(stage := if key.Some? then HeadNext(key.value) else Leaving(false))))
    case Put(_, n) =>
      var h := b.holder.value;
      var c := Chunk(h);
      if n < |c| then
        b.(wire := b.wire + c[..n], lost := b.lost + |Unfinished(b)| + n,
           holder := Some(h.(stage := Leaving(false))))
      else if h.stage.HeadNext? && |h.payload| > 0 then
        b.(wire := b.wire + c, holder := Some(h.(stage := BodyNext(h.stage.key))))
      else
        b.(wire := b.wire + c, sent := b.sent + [Sent(h.turn, h.op, h.payload, h.stage.key)],
           holder := Some(h.(stage := Leaving(true))))
    case Release(_) => b.(holder := None)
  }

  /** A run with its steps: every interleaving of the goroutines is one. */
  ghost predicate Run(bs: seq<Bus>, acts: seq<Action>) {
    && |bs| == |acts| + 1 && bs[0] == IDLE
    && forall i | 0 <= i < |acts| :: Enabled(bs[i], acts[i]) && bs[i + 1] == Apply(bs[i], acts[i])
  }

  ghost predicate AllFit(sent: seq<Sent>) {
    forall f | f in sent :: f.Fits()
  }

  /** The frames written whole, one after the other. */
  ghost function Stream(sent: seq<Sent>): bytes
    requires AllFit(sent)
  {
    if sent == [] then [] else
    var f := sent[|sent| - 1];
    assert f.Fits();
    Stream(sent[..|sent| - 1]) + ClientFrame(f.op, f.payload, f.key)
  }

  /** The wire is whole frames and at most the header of the lock holder's frame. */
  ghost predicate Aligned(b: Bus)
    requires HolderFits(b) && AllFit(b.sent)
  {
    b.wire == Stream(b.sent) + Unfinished(b)
  }

  /** Every byte on the wire belongs to a whole frame, to the holder's frame or to an abandoned
      one, and without abandoned bytes the frames are in step. */
  ghost predicate Safe(b: Bus) {
    && HolderFits(b) && AllFit(b.sent)
    && (b.holder.Some? && b.holder.value.stage.BodyNext? ==> |b.holder.value.payload| > 0)
    && |b.wire| == |Stream(b.sent)| + |Unfinished(b)| + b.lost
    && (b.lost == 0 ==> Aligned(b))
  }

  lemma StreamGrows(sent: seq<Sent>, f: Sent)
    requires AllFit(sent) && f.Fits()
    ensures AllFit(sent + [f]) && Stream(sent + [f]) == Stream(sent) + ClientFrame(f.op, f.payload, f.key)
  {
    assert (sent + [f])[..|sent|] == sent;
  }

  lemma Completes(b: Bus, a: Action)
    requires Safe(b) && Enabled(b, a) && a.Put? && |Apply(b, a).sent| > |b.sent|
    ensures Safe(Apply(b, a))
  {
    hide ClientHead, Masked, Stream;
    var h := b.holder.value;
    var f := Sent(h.turn, h.op, h.payload, h.stage.key);
    StreamGrows(b.sent, f);
    assert h.stage.HeadNext? ==> Masked(h.payload, h.stage.key) == [];
    assert Unfinished(b) + Chunk(h) == ClientFrame(h.op, h.payload, h.stage.key) by {
      if h.stage.HeadNext? {
        assert [] + Chunk(h) == Chunk(h) + [];
      }
    }
    assert Stream(b.sent) + Unfinished(b) + Chunk(h) == Stream(b.sent) + (Unfinished(b) + Chunk(h));
    var b' := Apply(b, a);
    assert Stream(b'.sent) + [] == Stream(b'.sent);
  }

  lemma StepSafe(b: Bus, a: Action)
    requires Safe(b) && Enabled(b, a)
    ensures Safe(Apply(b, a))
  {
    hide ClientHead, Masked, Stream;
    if a.Put? && |Apply(b, a).sent| > |b.sent| {
      Completes(b, a);
    } else if a.Put? {
      assert b.wire + [] == b.wire;
      assert Stream(b.sent) + [] + Chunk(b.holder.value) == Stream(b.sent) + Chunk(b.holder.value);
    }
  }

  lemma {:induction false} RunSafe(bs: seq<Bus>, acts: seq<Action>, i: nat)
    requires Run(bs, acts) && i < |bs|
    ensures Safe(bs[i])
  {
    hide Apply, Enabled, Safe;
    if i > 0 {
      RunSafe(bs, acts, i - 1);
      assert bs[i - 1 + 1] == Apply(bs[i - 1], acts[i - 1]) && Enabled(bs[i - 1], acts[i - 1]);
      StepSafe(bs[i - 1], acts[i - 1]);
    } else {
      IdleSafe();
    }
  }

  lemma IdleSafe()
    ensures Safe(IDLE)
  {
  }

  /** A write that fails after some of its frame is on the wire: in the header with at least one
      byte taken, or anywhere in the body. */
  ghost predicate Abandons(b: Bus, a: Action)
    requires Enabled(b, a)
  {
    a.Put? && a.n < |Chunk(b.holder.value)| && (a.n > 0 || b.holder.value.stage.BodyNext?)
  }

  lemma AbandonsExact(b: Bus, a: Action)
    requires Enabled(b, a)
    ensures Apply(b, a).lost >= b.lost
    ensures Apply(b, a).lost > b.lost <==> Abandons(b, a)
  {
    hide Masked;
  }

  /** The steps before the i-th left no frame half-written. */
  ghost predicate NoneAbandoned(bs: seq<Bus>, acts: seq<Action>, i: nat)
    requires Run(bs, acts) && i < |bs|
  {
    forall j | 0 <= j < i :: !Abandons(bs[j], acts[j])
  }

  lemma {:induction false} LostExact(bs: seq<Bus>, acts: seq<Action>, i: nat)
    requires Run(bs, acts) && i < |bs|
    ensures bs[i].lost == 0 <==> NoneAbandoned(bs, acts, i)
  {
    hide Apply, Enabled, Abandons;
    if i > 0 {
      LostExact(bs, acts, i - 1);
      assert bs[i - 1 + 1] == Apply(bs[i - 1], acts[i - 1]) && Enabled(bs[i - 1], acts[i - 1]);
      AbandonsExact(bs[i - 1], acts[i - 1]);
    }
  }

  /** In every state of every interleaving the wire is a concatenation of whole frames, followed
      by at most the header of the lock holder's frame, if and only if no write failed inside its
      frame. A write that fails before its frame's first byte does no harm. */
  lemma AlignmentExact(bs: seq<Bus>, acts: seq<Action>, i: nat)
    requires Run(bs, acts) && i < |bs|
    ensures HolderFits(bs[i]) && AllFit(bs[i].sent)
    ensures Aligned(bs[i]) <==> NoneAbandoned(bs, acts, i)
  {
    hide Stream, Unfinished;
    RunSafe(bs, acts, i);
    LostExact(bs, acts, i);
  }

  // ----- Lock order -----

  /** What a goroutine took the mutex for. */
  datatype Issue = Issue(who: nat, op: nat, payload: bytes)

  /** The acquisitions of the mutex, in order. */
  function Issues(acts: seq<Action>): seq<Issue> {
    if acts == [] then [] else
    var a := acts[|acts| - 1];
    Issues(acts[..|acts| - 1]) + if a.Acquire? then [Issue(a.who, a.op, a.payload)] else []
  }

  ghost predicate Waits(b: Bus) { b.holder.Some? && !b.holder.value.stage.Leaving? }

  ghost predicate InOrder(b: Bus, issues: seq<Issue>) {
    && b.turns == |issues|
    && (b.holder.Some? ==>
          var h := b.holder.value; h.turn == b.turns - 1 && issues[h.turn] == Issue(h.who, h.op, h.payload))
    && (forall j | 0 <= j < |b.sent| ::
          var f := b.sent[j]; f.turn < |issues| && issues[f.turn].op == f.op && issues[f.turn].payload == f.payload)
    && (forall i, j | 0 <= i < j < |b.sent| :: b.sent[i].turn < b.sent[j].turn)
    && (Waits(b) ==> forall j | 0 <= j < |b.sent| :: b.sent[j].turn < b.holder.value.turn)
  }

  lemma IssuesLast(acts: seq<Action>, i: nat)
    requires 0 < i <= |acts|
    ensures var a := acts[i - 1];
      Issues(acts[..i]) == Issues(acts[..i - 1]) + if a.Acquire? then [Issue(a.who, a.op, a.payload)] else []
  {
    assert acts[..i][..i - 1] == acts[..i - 1];
  }

  lemma StepInOrder(b: Bus, a: Action, issues: seq<Issue>)
    requires Enabled(b, a) && InOrder(b, issues)
    ensures InOrder(Apply(b, a), issues + if a.Acquire? then [Issue(a.who, a.op, a.payload)] else [])
  {
    hide Chunk, Unfinished;
    assert issues + [] == issues;
  }

  /** The frames on the wire are in lock order: each whole frame is what one acquisition asked
      for, later frames belong to later acquisitions, and no acquisition sends two. */
  lemma {:induction false} LockOrder(bs: seq<Bus>, acts: seq<Action>, i: nat)
    requires Run(bs, acts) && i < |bs|
    ensures InOrder(bs[i], Issues(acts[..i]))
  {
    hide Apply, Enabled, InOrder, Issues;
    if i > 0 {
      LockOrder(bs, acts, i - 1);
      assert bs[i - 1 + 1] == Apply(bs[i - 1], acts[i - 1]) && Enabled(bs[i - 1], acts[i - 1]);
      StepInOrder(bs[i - 1], acts[i - 1], Issues(acts[..i - 1]));
      IssuesLast(acts, i);
    } else {
      IdleInOrder();
      assert acts[..0] == [];
    }
  }

  lemma IdleInOrder()
    ensures InOrder(IDLE, Issues([]))
  {
  }

  /** A call that returns an error: no mask, or a failing write. */
  ghost predicate GivesUp(b: Bus, a: Action)
    requires Enabled(b, a)
  {
    (a.Draw? && a.key.None?) || (a.Put? && a.n < |Chunk(b.holder.value)|)
  }

  ghost predicate Dense(b: Bus) {
    && (b.holder.Some? ==> b.holder.value.turn == b.turns - 1)
    && |b.sent| + (if Waits(b) then 1 else 0) == b.turns
    && forall j | 0 <= j < |b.sent| :: b.sent[j].turn == j
  }

  lemma StepDense(b: Bus, a: Action)
    requires Enabled(b, a) && !GivesUp(b, a) && Dense(b)
    ensures Dense(Apply(b, a))
  {
    hide ClientHead, Masked, Unfinished;
  }

  /** Acquisitions without a whole frame that are not at work any more. */
  ghost function Missing(b: Bus): int {
    b.turns - |b.sent| - if Waits(b) then 1 else 0
  }

  lemma StepMissing(b: Bus, a: Action)
    requires Enabled(b, a)
    ensures Missing(Apply(b, a)) == Missing(b) + if GivesUp(b, a) then 1 else 0
  {
    hide ClientHead, Masked, Unfinished;
  }

  lemma {:induction false} MissingExact(bs: seq<Bus>, acts: seq<Action>, i: nat)
    requires Run(bs, acts) && i < |bs|
    ensures Missing(bs[i]) >= 0
    ensures Missing(bs[i]) == 0 <==> forall j | 0 <= j < i :: !GivesUp(bs[j], acts[j])
  {
    hide Apply, Enabled, GivesUp, Missing;
    if i > 0 {
      MissingExact(bs, acts, i - 1);
      assert bs[i - 1 + 1] == Apply(bs[i - 1], acts[i - 1]) && Enabled(bs[i - 1], acts[i - 1]);
      StepMissing(bs[i - 1], acts[i - 1]);
    } else {
      NoneMissing();
    }
  }

  lemma NoneMissing()
    ensures Missing(IDLE) == 0
  {
  }

  lemma {:induction false} DenseAlways(bs: seq<Bus>, acts: seq<Action>, i: nat)
    requires Run(bs, acts) && i < |bs| && forall j | 0 <= j < i :: !GivesUp(bs[j], acts[j])
    ensures Dense(bs[i])
  {
    hide Apply, Enabled, Dense, GivesUp;
    if i > 0 {
      DenseAlways(bs, acts, i - 1);
      assert bs[i - 1 + 1] == Apply(bs[i - 1], acts[i - 1]) && Enabled(bs[i - 1], acts[i - 1]);
      StepDense(bs[i - 1], acts[i - 1]);
    } else {
      IdleDense();
    }
  }

  /** No acquisition is missing exactly as long as no call failed: then the whole frames are, one
      for one, those of all acquisitions but the one still at work. */
  lemma NothingMissing(bs: seq<Bus>, acts: seq<Action>, i: nat)
    requires Run(bs, acts) && i < |bs|
    ensures InOrder(bs[i], Issues(acts[..i]))
    ensures (forall j | 0 <= j < i :: !GivesUp(bs[j], acts[j])) <==>
            && |bs[i].sent| + (if Waits(bs[i]) then 1 else 0) == |Issues(acts[..i])|
            && forall j | 0 <= j < |bs[i].sent| :: bs[i].sent[j].turn == j
  {
    hide Issues, GivesUp, Waits;
    LockOrder(bs, acts, i);
    MissingExact(bs, acts, i);
    if Missing(bs[i]) == 0 { DenseAlways(bs, acts, i); }
  }

  lemma IdleDense()
    ensures Dense(IDLE)
  {
  }

  /** Reads frames off a stream until none is whole. */
  function ParseAll(s: bytes): (seq<Frame>, bytes)
    decreases |s|
  {
    match Parse(s)
    case Got(f, rest) => var (fs, left) := ParseAll(rest); ([f] + fs, left)
    case _ => ([], s)
  }

  function FramesOf(sent: seq<Sent>): seq<Frame> {
    seq(|sent|, i requires 0 <= i < |sent| => Frame(sent[i].op, true, sent[i].payload))
  }

  lemma NoStream()
    ensures Stream([]) == []
  {
  }

  lemma StreamLast(sent: seq<Sent>)
    requires AllFit(sent) && sent != []
    ensures var f := sent[|sent| - 1];
      f.Fits() && Stream(sent) == Stream(sent[..|sent| - 1]) + ClientFrame(f.op, f.payload, f.key)
  {
    hide ClientFrame;
    assert sent[|sent| - 1].Fits();
  }

  lemma {:induction false} StreamFromFront(sent: seq<Sent>)
    requires AllFit(sent) && sent != []
    ensures AllFit(sent[1..]) && sent[0].Fits()
    ensures Stream(sent) == ClientFrame(sent[0].op, sent[0].payload, sent[0].key) + Stream(sent[1..])
    decreases |sent|
  {
    hide ClientFrame, Stream;
    var n := |sent| - 1;
    StreamLast(sent);
    if n == 0 {
      NoStream();
      assert sent[..0] == [] && sent[1..] == [];
    } else {
      StreamFromFront(sent[..n]);
      StreamLast(sent[1..]);
      assert sent[..n][1..] == sent[1..][..n - 1] && sent[1..][n - 1] == sent[n];
    }
  }

  lemma ParseOne(s: bytes, f: Frame, rest: bytes)
    requires Parse(s) == Got(f, rest)
    ensures var (fs, left) := ParseAll(rest); ParseAll(s) == ([f] + fs, left)
  {
  }

  lemma ParseNone(s: bytes)
    requires !Parse(s).Got?
    ensures ParseAll(s) == ([], s)
  {
  }

  /** The number of frames before the first one above the parser's cap. */
  function Readable(sent: seq<Sent>): (n: nat)
    ensures n <= |sent| && (n < |sent| ==> |sent[n].payload| > MAX_PAYLOAD)
    ensures forall j | 0 <= j < n :: |sent[j].payload| <= MAX_PAYLOAD
  {
    if sent == [] || |sent[0].payload| > MAX_PAYLOAD then 0 else 1 + Readable(sent[1..])
  }

  lemma {:induction false} StreamParses(sent: seq<Sent>, tail: bytes)
    requires AllFit(sent) && !Parse(tail).Got?
    ensures var (fs, left) := ParseAll(Stream(sent) + tail); var n := Readable(sent);
      fs == FramesOf(sent[..n]) && (n == |sent| ==> left == tail)
    decreases |sent|
  {
    hide ClientFrame, Parse, ParseAll, Stream;
    if sent == [] {
      NoStream();
      ParseNone(tail);
      assert [] + tail == tail;
    } else {
      var f := sent[0];
      StreamFromFront(sent);
      var rest := Stream(sent[1..]) + tail;
      ClientRoundTrip(f.op, f.payload, f.key, rest);
      assert Stream(sent) + tail == ClientFrame(f.op, f.payload, f.key) + rest;
      if |f.payload| > MAX_PAYLOAD {
        ParseNone(Stream(sent) + tail);
      } else {
        StreamParses(sent[1..], tail);
        ParseOne(Stream(sent) + tail, Frame(f.op, true, f.payload), rest);
        var n := Readable(sent);
        assert FramesOf(sent[..n]) == [Frame(f.op, true, f.payload)] + FramesOf(sent[1..][..n - 1]);
      }
    }
  }

  /** What the reader makes of the holder's header alone. */
  lemma HeaderAlone(b: Bus)
    requires HolderFits(b) && (b.holder.Some? && b.holder.value.stage.BodyNext? ==> |b.holder.value.payload| > 0)
    ensures !Parse(Unfinished(b)).Got?
  {
    hide ClientHead, ClientFrame, Encode, Parse;
    var tail := Unfinished(b);
    if tail != [] {
      var h := b.holder.value;
      var w := ClientWire(h.op, h.payload, h.stage.key);
      ClientFrameIsLegal(h.op, h.payload, h.stage.key);
      HeadFirst(h.op, h.payload, h.stage.key);
      if |h.payload| <= MAX_PAYLOAD {
        ParseCut(w, |tail|);
      } else {
        Layout(w, []);
        var at := 2 + |Extension(w.form, |w.payload|)|;
        assert tail[..at] == Encode(w)[..at];
        ParseOversize(w, tail);
      }
    } else {
      NothingToParse();
    }
  }

  lemma HeadFirst(op: nat, p: bytes, m: mask)
    requires op < 16 && |p| < 0x1_0000_0000_0000_0000
    ensures var head := ClientHead(op, |p|, m); var f := ClientFrame(op, p, m);
      |head| + |p| == |f| && head == f[..|head|]
  {
    hide ClientHead, Masked;
  }

  lemma NothingToParse()
    ensures Parse([]) == Truncated
  {
  }

  /** A reader of an aligned wire sees exactly the frames written whole, up to the first above
      its cap; if there is none, what is left over is the lock holder's header. */
  lemma SafeDecodes(b: Bus)
    requires Safe(b) && b.lost == 0
    ensures var (fs, left) := ParseAll(b.wire); var n := Readable(b.sent);
      fs == FramesOf(b.sent[..n]) && (n == |b.sent| ==> left == Unfinished(b))
  {
    hide Stream, Unfinished, ParseAll, Parse, Readable;
    HeaderAlone(b);
    StreamParses(b.sent, Unfinished(b));
  }

  /** At any moment, if no write failed inside its frame, a reader of the wire sees exactly the
      frames written whole, in lock order, up to the first above its cap. */
  lemma WireDecodes(bs: seq<Bus>, acts: seq<Action>, i: nat)
    requires Run(bs, acts) && i < |bs| && NoneAbandoned(bs, acts, i)
    ensures HolderFits(bs[i])
    ensures var (fs, left) := ParseAll(bs[i].wire); var n := Readable(bs[i].sent);
      fs == FramesOf(bs[i].sent[..n]) && (n == |bs[i].sent| ==> left == Unfinished(bs[i]))
    ensures InOrder(bs[i], Issues(acts[..i]))
  {
    hide Stream, Unfinished, ParseAll, InOrder, Issues, Readable;
    RunSafe(bs, acts, i);
    LostExact(bs, acts, i);
    LockOrder(bs, acts, i);
    SafeDecodes(bs[i]);
  }

  lemma TornHeads()
    ensures ClientHead(OP_PING, 0, [0, 0, 0, 0]) == [137, 128, 0, 0, 0, 0]
    ensures ClientHead(OP_PONG, 0, [0, 0, 0, 0]) == [138, 128, 0, 0, 0, 0]
    ensures Parse([137, 138, 128, 0, 0, 0, 0]) == Truncated
  {
  }

  /** What misalignment costs: after one byte of a ping went out, a second writer's whole frame
      is on the wire and yet no frame can be read. */
  lemma TornFrameLosesSync() returns (bs: seq<Bus>, acts: seq<Action>)
    ensures Run(bs, acts)
    ensures var b := bs[|acts|];
      b.sent == [Sent(1, OP_PONG, [], [0, 0, 0, 0])] && b.lost == 1 && ParseAll(b.wire) == ([], b.wire)
  {
    hide ClientHead, Masked, Parse, ParseAll;
    TornHeads();
    var key: mask := [0, 0, 0, 0];
    acts := [Acquire(0, OP_PING, []), Draw(0, Some(key)), Put(0, 1), Release(0),
             Acquire(1, OP_PONG, []), Draw(1, Some(key)), Put(1, 6)];
    var b1 := Bus([], Some(Holder(0, 0, OP_PING, [], Drawing)), 1, 0, []);
    var b2 := Bus([], Some(Holder(0, 0, OP_PING, [], HeadNext(key))), 1, 0, []);
    var b3 := Bus([137], Some(Holder(0, 0, OP_PING, [], Leaving(false))), 1, 1, []);
    var b4 := Bus([137], None, 1, 1, []);
    var b5 := Bus([137], Some(Holder(1, 1, OP_PONG, [], Drawing)), 2, 1, []);
    var b6 := Bus([137], Some(Holder(1, 1, OP_PONG, [], HeadNext(key))), 2, 1, []);
    var b7 := Bus([137, 138, 128, 0, 0, 0, 0], Some(Holder(1, 1, OP_PONG, [], Leaving(true))), 2, 1,
                  [Sent(1, OP_PONG, [], key)]);
    assert [] + [137, 128, 0, 0, 0, 0][..1] == [137];
    assert [137] + [138, 128, 0, 0, 0, 0] == b7.wire;
    ParseNone(b7.wire);
    bs := [IDLE, b1, b2, b3, b4, b5, b6, b7];
    assert Enabled(IDLE, acts[0]) && b1 == Apply(IDLE, acts[0]);
    assert Enabled(b1, acts[1]) && b2 == Apply(b1, acts[1]);
    assert Enabled(b2, acts[2]) && b3 == Apply(b2, acts[2]);
    assert Enabled(b3, acts[3]) && b4 == Apply(b3, acts[3]);
    assert Enabled(b4, acts[4]) && b5 == Apply(b4, acts[4]);
    assert Enabled(b5, acts[5]) && b6 == Apply(b5, acts[5]);
    assert Enabled(b6, acts[6]) && b7 == Apply(b6, acts[6]);
  }
}
