/** The raw modem port: a reader goroutine and the goroutine that uses and closes the port.
    Every critical section and every system call is one step. */
module AtPort {
  import opened Bits

  datatype Reader = Top | Selecting | Reading | Appending(chunk: bytes) | Leaving | Gone

  datatype User = Using | AwaitingReader | Closing | Closed | GaveUp

  datatype Port = Port(open: bool, stopped: bool, done: bool, buf: bytes, reader: Reader, user: User)

  const OPENED := Port(true, false, false, [], Top, Using)

  datatype Selected = Ready | NotReady | SelectFailed
  datatype ReadResult = Bytes(chunk: bytes) | Nothing | ReadFailed

  datatype Action =
    | CheckStopped
    | Select(outcome: Selected)
    | Read(result: ReadResult)
    | Append
    | ReaderExit
    | Drain
    | Write(data: string)
    | Poll                        // a look at the buffer while waiting for an answer
    | Stop
    | SeeDone
    | TimeOut
    | CloseFd

  predicate Enabled(p: Port, a: Action) {
    match a
    case CheckStopped => p.reader.Top?
    case Select(_) => p.reader.Selecting?
    case Read(r) => p.reader.Reading? && (r.Bytes? ==> 0 < |r.chunk| <= 1024)
    case Append => p.reader.Appending?
    case ReaderExit => p.reader.Leaving?
    case Drain => p.user.Using?
    case Write(_) => p.user.Using?
    case Poll => p.user.Using?
    case Stop => p.user.Using?
    case SeeDone => p.user.AwaitingReader? && p.done
    case TimeOut => p.user.AwaitingReader?
    case CloseFd => p.user.Closing?
  }

  function Apply(p: Port, a: Action): Port
    requires Enabled(p, a)
  {
    match a
    case CheckStopped => p.(reader := if p.stopped then Leaving else Selecting)
    case Select(o) =>
      p.(reader := match o case Ready => Reading case NotReady => Top case SelectFailed => Leaving)
    case Read(r) =>
      p.(reader := match r case Bytes(chunk) => Appending(chunk) case Nothing => Top case ReadFailed => Leaving)
    case Append => p.(buf := p.buf + p.reader.chunk, reader := Top)
    case ReaderExit => p.(done := true, reader := Gone)
    case Drain => p.(buf := [])
    case Write(_) => p
    case Poll => p
    case Stop => p.(stopped := true, user := AwaitingReader)
    case SeeDone => p.(user := Closing)
    case TimeOut => p.(user := GaveUp)
    case CloseFd => p.(open := false, user := Closed)
  }

  /** A run with its steps: any interleaving of the two goroutines is one. */
  ghost predicate Run(ps: seq<Port>, acts: seq<Action>) {
    && |ps| == |acts| + 1 && ps[0] == OPENED
    && forall i | 0 <= i < |acts| :: Enabled(ps[i], acts[i]) && ps[i + 1] == Apply(ps[i], acts[i])
  }

  ghost predicate Inv(p: Port) {
    && (p.open <==> !p.user.Closed?)
    && (p.done <==> p.reader.Gone?)
    && (p.stopped <==> !p.user.Using?)
    && (p.user.Closing? || p.user.Closed? ==> p.done)
  }

  lemma {:induction false} RunInv(ps: seq<Port>, acts: seq<Action>, i: nat)
    requires Run(ps, acts) && i < |ps|
    ensures Inv(ps[i])
  {
    if i > 0 {
      RunInv(ps, acts, i - 1);
      assert ps[i - 1 + 1] == Apply(ps[i - 1], acts[i - 1]);
    }
  }

  /** Descriptor lifetime: in every interleaving the descriptor is closed only after the reader
      is gone, every system call meets an open descriptor, and giving up leaves it open. */
  lemma DescriptorLifetime(ps: seq<Port>, acts: seq<Action>, i: nat)
    requires Run(ps, acts) && i < |ps|
    ensures !ps[i].open ==> ps[i].reader.Gone?
    ensures i < |acts| && (acts[i].Select? || acts[i].Read? || acts[i].Write? || acts[i].CloseFd?) ==> ps[i].open
    ensures ps[i].user.GaveUp? ==> ps[i].open
  {
    RunInv(ps, acts, i);
    if i < |acts| { assert Enabled(ps[i], acts[i]); }
  }

  lemma {:induction false} StaysOff(ps: seq<Port>, acts: seq<Action>, j: nat, k: nat)
    requires Run(ps, acts) && j <= k < |ps|
    requires ps[j].stopped && !ps[j].reader.Selecting? && !ps[j].reader.Reading?
    ensures ps[k].stopped && !ps[k].reader.Selecting? && !ps[k].reader.Reading?
    decreases k
  {
    if j < k {
      StaysOff(ps, acts, j, k - 1);
      assert ps[k - 1 + 1] == Apply(ps[k - 1], acts[k - 1]);
    }
  }

  lemma {:induction false} StaysStopped(ps: seq<Port>, acts: seq<Action>, j: nat, k: nat)
    requires Run(ps, acts) && j <= k < |ps| && ps[j].stopped
    ensures ps[k].stopped
    decreases k
  {
    if j < k {
      StaysStopped(ps, acts, j, k - 1);
      assert ps[k - 1 + 1] == Apply(ps[k - 1], acts[k - 1]);
    }
  }

  /** After the stop request the reader reads at most once more. */
  lemma AtMostOneLateRead(ps: seq<Port>, acts: seq<Action>, s: nat, j: nat, k: nat)
    requires Run(ps, acts) && s < j < |acts| && s < k < |acts|
    requires acts[s].Stop? && acts[j].Read? && acts[k].Read?
    ensures j == k
  {
    assert ps[s + 1] == Apply(ps[s], acts[s]);
    StaysStopped(ps, acts, s + 1, j);
    StaysStopped(ps, acts, s + 1, k);
    assert ps[j + 1] == Apply(ps[j], acts[j]) && Enabled(ps[k], acts[k]);
    assert ps[k + 1] == Apply(ps[k], acts[k]) && Enabled(ps[j], acts[j]);
    if j < k { StaysOff(ps, acts, j + 1, k); }
    if k < j { StaysOff(ps, acts, k + 1, j); }
  }

  /** All bytes read by the steps, in order. */
  function Chunks(acts: seq<Action>): bytes {
    if acts == [] then [] else
    var a := acts[|acts| - 1];
    Chunks(acts[..|acts| - 1]) + if a.Read? && a.result.Bytes? then a.result.chunk else []
  }

  /** A chunk that was read and not yet appended. */
  function InFlight(p: Port): bytes {
    if p.reader.Appending? then p.reader.chunk else []
  }

  lemma ChunksLast(acts: seq<Action>, d: nat, i: nat)
    requires d < i <= |acts|
    ensures var a := acts[i - 1];
      Chunks(acts[d..i]) == Chunks(acts[d..i - 1]) + if a.Read? && a.result.Bytes? then a.result.chunk else []
  {
    assert acts[d..i][..i - d - 1] == acts[d..i - 1];
  }

  /** Before the first drain, buffer and chunk in flight are everything read so far. */
  lemma {:induction false} ReadsBeforeDrain(ps: seq<Port>, acts: seq<Action>, i: nat)
    requires Run(ps, acts) && i < |ps|
    requires forall k | 0 <= k < i :: !acts[k].Drain?
    ensures ps[i].buf + InFlight(ps[i]) == Chunks(acts[..i])
    decreases i
  {
    hide Chunks, Apply, Enabled, InFlight;
    if i == 0 {
      OpenedEmpty();
      assert acts[..0] == [];
    } else {
      ReadsBeforeDrain(ps, acts, i - 1);
      var p, a := ps[i - 1], acts[i - 1];
      assert Enabled(p, a) && ps[i - 1 + 1] == Apply(p, a);
      ChunksLast(acts, 0, i);
      assert acts[0..i] == acts[..i] && acts[0..i - 1] == acts[..i - 1];
      var recent := Chunks(acts[..i - 1]);
      assert [] + recent == recent;
      OneStep(p, a, [], recent);
      assert [] + Chunks(acts[..i]) == Chunks(acts[..i]);
    }
  }

  lemma OpenedEmpty()
    ensures OPENED.buf + InFlight(OPENED) == Chunks([])
  {
  }

  lemma DrainStep(p: Port)
    requires Enabled(p, Drain)
    ensures var q := Apply(p, Drain); q.buf + InFlight(q) == InFlight(p) + Chunks([])
  {
  }

  lemma {:induction false} ReadsSinceDrain(ps: seq<Port>, acts: seq<Action>, d: nat, i: nat)
    requires Run(ps, acts) && d < i < |ps| && acts[d].Drain?
    requires forall k | d < k < i :: !acts[k].Drain?
    ensures ps[i].buf + InFlight(ps[i]) == InFlight(ps[d]) + Chunks(acts[d + 1..i])
    decreases i
  {
    hide Chunks, Apply, Enabled, InFlight;
    if i == d + 1 {
      assert ps[d + 1] == Apply(ps[d], acts[d]);
      DrainStep(ps[d]);
      assert acts[d + 1..i] == [];
    } else {
      ReadsSinceDrain(ps, acts, d, i - 1);
      var p, a := ps[i - 1], acts[i - 1];
      assert Enabled(p, a) && ps[i - 1 + 1] == Apply(p, a);
      ChunksLast(acts, d + 1, i);
      OneStep(p, a, InFlight(ps[d]), Chunks(acts[d + 1..i - 1]));
    }
  }

  lemma OneStep(p: Port, a: Action, stale: bytes, recent: bytes)
    requires Enabled(p, a) && !a.Drain? && p.buf + InFlight(p) == stale + recent
    ensures var q := Apply(p, a);
      q.buf + InFlight(q) == stale + (recent + if a.Read? && a.result.Bytes? then a.result.chunk else [])
  {
    assert forall b: bytes :: b + [] == b;
    if a.Read? && a.result.Bytes? {
      assert p.buf + a.result.chunk == stale + (recent + a.result.chunk);
    }
  }

  /** With nothing in flight, the buffer is what was read since the latest drain, preceded by
      the chunk that was in flight at the drain. So it equals the reads since the drain exactly
      when the drain did not fall between a read and its append. */
  lemma BufferMeaning(ps: seq<Port>, acts: seq<Action>, d: nat, i: nat)
    requires Run(ps, acts) && d < i < |ps| && acts[d].Drain?
    requires forall k | d < k < i :: !acts[k].Drain?
    requires !ps[i].reader.Appending?
    ensures ps[i].buf == InFlight(ps[d]) + Chunks(acts[d + 1..i])
    ensures ps[i].buf == Chunks(acts[d + 1..i]) <==> !ps[d].reader.Appending?
  {
    ReadsSinceDrain(ps, acts, d, i);
    var stale, recent := InFlight(ps[d]), Chunks(acts[d + 1..i]);
    assert ps[i].buf + [] == ps[i].buf;
    assert |ps[i].buf| == |stale| + |recent|;
    ChunksNotEmpty(ps, acts, d);
    if !ps[d].reader.Appending? { assert [] + recent == recent; }
  }

  lemma {:induction false} ChunksNotEmpty(ps: seq<Port>, acts: seq<Action>, i: nat)
    requires Run(ps, acts) && i < |ps|
    ensures ps[i].reader.Appending? ==> ps[i].reader.chunk != []
  {
    if i > 0 {
      ChunksNotEmpty(ps, acts, i - 1);
      assert Enabled(ps[i - 1], acts[i - 1]) && ps[i - 1 + 1] == Apply(ps[i - 1], acts[i - 1]);
    }
  }

  /** The other case happens: any chunk read just before a drain can end up in the drained
      buffer although nothing was read since. */
  lemma DrainCanMiss(chunk: bytes) returns (ps: seq<Port>, acts: seq<Action>)
    requires 0 < |chunk| <= 1024
    ensures Run(ps, acts) && acts == [CheckStopped, Select(Ready), Read(Bytes(chunk)), Drain, Append]
    ensures ps[5].buf == chunk && Chunks(acts[4..]) == []
  {
    acts := [CheckStopped, Select(Ready), Read(Bytes(chunk)), Drain, Append];
    var p1 := Apply(OPENED, acts[0]);
    var p2 := Apply(p1, acts[1]);
    var p3 := Apply(p2, acts[2]);
    var p4 := Apply(p3, acts[3]);
    var p5 := Apply(p4, acts[4]);
    ps := [OPENED, p1, p2, p3, p4, p5];
    assert p5.buf == [] + chunk;
    assert acts[4..] == [Append] && [Append][..0] == [];
  }

  // ----- The reader's loop -----

  predicate ReaderStep(a: Action) {
    a.CheckStopped? || a.Select? || a.Read? || a.Append? || a.ReaderExit?
  }

  /** The steps at which the reader decides to return: it saw the stop request, or a call failed. */
  predicate Exits(p: Port, a: Action) {
    (a.CheckStopped? && p.stopped) || a == Select(SelectFailed) || a == Read(ReadFailed)
  }

  /** The reader leaves its loop for these reasons only, and always for them. */
  lemma {:induction false} LeavesExactly(ps: seq<Port>, acts: seq<Action>, i: nat)
    requires Run(ps, acts) && i < |ps|
    ensures ps[i].reader.Leaving? || ps[i].reader.Gone? <==> exists j :: 0 <= j < i && Exits(ps[j], acts[j])
  {
    if i > 0 {
      LeavesExactly(ps, acts, i - 1);
      assert ps[i - 1 + 1] == Apply(ps[i - 1], acts[i - 1]) && Enabled(ps[i - 1], acts[i - 1]);
      if Exits(ps[i - 1], acts[i - 1]) {
        assert ps[i].reader.Leaving?;
      } else if j :| 0 <= j < i && Exits(ps[j], acts[j]) {
        assert j < i - 1;
      }
    }
  }

  /** Step j is the reader's latest before step i. */
  ghost predicate LatestReaderStep(acts: seq<Action>, j: int, i: int) {
    0 <= j < i <= |acts| && ReaderStep(acts[j]) && forall k | j < k < i :: !ReaderStep(acts[k])
  }

  /** Where the reader stands is decided by its own latest step. */
  ghost predicate Stands(p: Port, a: Action) {
    && (p.reader.Reading? <==> a == Select(Ready))
    && (p.reader.Selecting? ==> a.CheckStopped?)
    && (p.reader.Top? <==> a == Select(NotReady) || a == Read(Nothing) || a.Append?)
    && (p.reader.Appending? <==> a.Read? && a.result.Bytes?)
    && (p.reader.Appending? ==> a.result.chunk == p.reader.chunk)
  }

  lemma {:induction false} StandsAfter(ps: seq<Port>, acts: seq<Action>, j: nat, i: nat)
    requires Run(ps, acts) && LatestReaderStep(acts, j, i)
    ensures Stands(ps[i], acts[j])
    decreases i
  {
    assert ps[i - 1 + 1] == Apply(ps[i - 1], acts[i - 1]) && Enabled(ps[i - 1], acts[i - 1]);
    if j < i - 1 {
      StandsAfter(ps, acts, j, i - 1);
      assert ps[i].reader == ps[i - 1].reader;
    }
  }

  lemma {:induction false} LatestExists(acts: seq<Action>, i: nat) returns (j: int)
    requires i <= |acts|
    ensures j == -1 || LatestReaderStep(acts, j, i)
    ensures j == -1 ==> forall k | 0 <= k < i :: !ReaderStep(acts[k])
  {
    if i == 0 {
      j := -1;
    } else if ReaderStep(acts[i - 1]) {
      j := i - 1;
    } else {
      j := LatestExists(acts, i - 1);
    }
  }

  lemma {:induction false} NoReaderStep(ps: seq<Port>, acts: seq<Action>, i: nat)
    requires Run(ps, acts) && i < |ps| && forall k | 0 <= k < i :: !ReaderStep(acts[k])
    ensures ps[i].reader.Top?
  {
    if i > 0 {
      NoReaderStep(ps, acts, i - 1);
      assert ps[i - 1 + 1] == Apply(ps[i - 1], acts[i - 1]) && Enabled(ps[i - 1], acts[i - 1]);
    }
  }

  /** The device is never read on speculation: the reader's step before every read is a select that
      reported it ready; and every select is preceded by a look at the stop request, every append
      by the read of its chunk. */
  lemma ReadsWhenReady(ps: seq<Port>, acts: seq<Action>, i: nat) returns (j: int)
    requires Run(ps, acts) && i < |acts| && (acts[i].Read? || acts[i].Select? || acts[i].Append?)
    ensures LatestReaderStep(acts, j, i)
    ensures acts[i].Read? ==> acts[j] == Select(Ready)
    ensures acts[i].Select? ==> acts[j].CheckStopped? && !ps[j].stopped
    ensures acts[i].Append? ==>
            acts[j].Read? && acts[j].result.Bytes? && ps[i + 1].buf == ps[i].buf + acts[j].result.chunk
  {
    assert Enabled(ps[i], acts[i]) && ps[i + 1] == Apply(ps[i], acts[i]);
    j := LatestExists(acts, i);
    if j == -1 {
      NoReaderStep(ps, acts, i);
    } else {
      StandsAfter(ps, acts, j, i);
      if acts[i].Select? {
        assert ps[j + 1] == Apply(ps[j], acts[j]) && Enabled(ps[j], acts[j]);
        LeavesExactly(ps, acts, i);
        assert !Exits(ps[j], acts[j]);
      }
    }
  }

  /** Both ends of closing happen: the reader goes away and the descriptor is closed, or the wait
      for it times out and the descriptor stays open. */
  lemma ClosesOrGivesUp() returns (ps: seq<Port>, qs: seq<Port>, acts: seq<Action>, bs: seq<Action>)
    ensures Run(ps, acts) && !ps[|acts|].open && acts == [Stop, CheckStopped, ReaderExit, SeeDone, CloseFd]
    ensures Run(qs, bs) && qs[|bs|].open && qs[|bs|].user.GaveUp? && bs == [CheckStopped, Stop, TimeOut]
  {
    acts := [Stop, CheckStopped, ReaderExit, SeeDone, CloseFd];
    var p1 := Apply(OPENED, acts[0]);
    var p2 := Apply(p1, acts[1]);
    var p3 := Apply(p2, acts[2]);
    var p4 := Apply(p3, acts[3]);
    var p5 := Apply(p4, acts[4]);
    ps := [OPENED, p1, p2, p3, p4, p5];
    bs := [CheckStopped, Stop, TimeOut];
    var q1 := Apply(OPENED, bs[0]);
    var q2 := Apply(q1, bs[1]);
    var q3 := Apply(q2, bs[2]);
    qs := [OPENED, q1, q2, q3];
  }
}
