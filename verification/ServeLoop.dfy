/** What the panel sent, through all interleavings of the session: the read loop hands over the
    commands whatever the ticker and the transport do in between. */
module ServeLoop {
  import opened Bits
  import opened Wrappers
  import opened Frames
  import opened Messages
  import opened ReadLoop
  import Cbc
  import Serving

  /** The commands that the delivered messages hand over. */
  function Handed(past: seq<Delivered>, c: Cbc.Cipher): seq<bytes> {
    if past == [] then [] else
    var d := past[|past| - 1];
    Handed(past[..|past| - 1], c) + Serving.Plaintext(d.op, d.payload, Some(c))
  }

  /** The first messages delivered are those of the items. */
  ghost predicate Matches(past: seq<Delivered>, items: seq<Serving.Item>, c: Cbc.Cipher) {
    forall k | 0 <= k < |past| && k < |items| :: (past[k].op, past[k].payload) == Serving.Carried(items[k], c)
  }

  /** The loop is inside the last item of `seen + [it] + more`: it delivered `seen`, and read the
      first `pos` frames of `it`. */
  ghost predicate Inside(s: Session, it: Serving.Item, more: seq<Serving.Item>, rest: bytes, c: Cbc.Cipher, pos: nat) {
    && Serving.Sent(it, c) && Serving.AllSent(more, c) && pos < |it.ws|
    && s.current == Views(it.ws)[..pos] && s.st == After(s.current)
    && AllLegal(it.ws[pos..]) && s.input == EncodeAll(it.ws[pos..]) + (Serving.Wire(more, c) + rest)
  }

  ghost predicate InNext(s: Session, items: seq<Serving.Item>, rest: bytes, c: Cbc.Cipher, pos: nat)
    requires |s.past| < |items|
  {
    Inside(s, items[|s.past|], items[|s.past| + 1..], rest, c, pos)
  }

  /** Either the loop is inside some item, having delivered those before it, or all items are
      delivered, or a write failed. */
  ghost predicate OnTrack(s: Session, items: seq<Serving.Item>, rest: bytes, c: Cbc.Cipher) {
    && Matches(s.past, items, c)
    && (|s.past| >= |items|
        || (s.pc.Stopped? && s.pc.owed.Some?)
        || (!s.pc.Stopped? && exists pos :: InNext(s, items, rest, c, pos)))
  }

  lemma OneFrame(ws: seq<WireFrame>, pos: nat, tail: bytes)
    requires pos < |ws| && AllLegal(ws[pos..])
    ensures AllLegal(ws[pos + 1..]) && ws[pos].Legal() && |ws[pos].payload| <= MAX_PAYLOAD
    ensures Parse(EncodeAll(ws[pos..]) + tail) == Got(ws[pos].View(), EncodeAll(ws[pos + 1..]) + tail)
  {
    hide Parse, Encode;
    var vs := ws[pos..];
    assert vs[0] == ws[pos] && vs[1..] == ws[pos + 1..];
    assert vs[0] in vs;
    assert forall w | w in ws[pos + 1..] :: w in vs;
    assert EncodeAll(vs) + tail == Encode(ws[pos]) + (EncodeAll(ws[pos + 1..]) + tail);
    ParseEncode(ws[pos], EncodeAll(ws[pos + 1..]) + tail);
  }

  lemma ItemCarries(it: Serving.Item, c: Cbc.Cipher)
    requires Serving.Sent(it, c)
    ensures AllLegal(it.ws) && it.ws != []
    ensures Carries(Views(it.ws), Serving.Carried(it, c).0, Serving.Carried(it, c).1)
  {
    hide Pings, Cbc.Decrypt, Cbc.Encrypt;
    NotEmpty(Views(it.ws), Serving.Carried(it, c).0, Serving.Carried(it, c).1);
  }

  /** Inside an item every frame is taken in; the last one delivers the message. */
  lemma TakeInside(s: Session, fs: seq<Frame>, pos: nat, op: nat, payload: bytes, rest: bytes)
    requires s.pc.Idle? && Carries(fs, op, payload) && pos < |fs|
    requires s.current == fs[..pos] && s.st == After(s.current)
    ensures var t := Take(s, fs[pos], rest);
      && t.input == rest && !t.pc.Stopped?
      && (pos + 1 < |fs| ==> t.past == s.past && t.current == fs[..pos + 1] && t.st == After(t.current))
      && (pos + 1 == |fs| ==> t.past == s.past + [Delivered(fs, op, payload)] && t.current == [] && t.st == NOTHING)
  {
    hide Carries, Pending, After;
    ChecksPass(fs, pos, op, payload);
    assert fs[..pos] + [fs[pos]] == fs[..pos + 1];
    assert fs[..pos + 1][..pos] == fs[..pos];
    AfterLast(fs[..pos + 1]);
    assert pos + 1 == |fs| ==> fs[..pos + 1] == fs;
  }

  lemma MoreMatches(past: seq<Delivered>, d: Delivered, items: seq<Serving.Item>, c: Cbc.Cipher)
    requires Matches(past, items, c)
    requires |past| < |items| ==> (d.op, d.payload) == Serving.Carried(items[|past|], c)
    ensures Matches(past + [d], items, c)
  {
    hide Serving.Carried;
  }

  lemma WireFirst(items: seq<Serving.Item>, c: Cbc.Cipher)
    requires Serving.AllSent(items, c) && items != []
    ensures var it := items[0];
      && Serving.Sent(it, c) && Serving.AllSent(items[1..], c) && AllLegal(it.ws)
      && Serving.Wire(items, c) == EncodeAll(it.ws) + Serving.Wire(items[1..], c)
  {
    hide EncodeAll;
    assert items[0] in items;
  }

  /** The loop enters the next item. */
  lemma Enter(s: Session, items: seq<Serving.Item>, rest: bytes, c: Cbc.Cipher)
    requires Serving.AllSent(items, c) && items != [] && s.input == Serving.Wire(items, c) + rest
    requires s.current == [] && s.st == NOTHING
    ensures Inside(s, items[0], items[1..], rest, c, 0)
  {
    hide EncodeAll, Serving.Wire, Serving.Sent, Serving.AllSent, AllLegal, After;
    var it := items[0];
    WireFirst(items, c);
    ItemCarries(it, c);
    assert it.ws[0..] == it.ws && Views(it.ws)[..0] == [];
    NothingPending();
    assert Serving.Wire(items, c) + rest == EncodeAll(it.ws) + (Serving.Wire(items[1..], c) + rest);
  }

  lemma NothingLeft(ws: seq<WireFrame>, tail: bytes)
    requires |ws| == 0
    ensures EncodeAll(ws) + tail == tail
  {
  }

  lemma ReadOnTrack(s: Session, items: seq<Serving.Item>, rest: bytes, c: Cbc.Cipher)
    requires OnTrack(s, items, rest, c) && s.pc.Idle? && |s.past| < |items|
    ensures OnTrack(Apply(s, ReadNext), items, rest, c)
  {
    hide Parse, Take, Carries, After, EncodeAll, Serving.Wire, Serving.Sent, Serving.Carried, Matches;
    var n := |s.past|;
    var it, more := items[n], items[n + 1..];
    var pos: nat :| InNext(s, items, rest, c, pos);
    var fs, tail := Views(it.ws), Serving.Wire(more, c) + rest;
    var (op, payload) := Serving.Carried(it, c);
    ItemCarries(it, c);
    OneFrame(it.ws, pos, tail);
    var after := EncodeAll(it.ws[pos + 1..]) + tail;
    TakeInside(s, fs, pos, op, payload, after);
    var t := Take(s, fs[pos], after);
    if pos + 1 < |fs| {
      assert InNext(t, items, rest, c, pos + 1);
    } else {
      NothingLeft(it.ws[pos + 1..], tail);
      MoreMatches(s.past, Delivered(fs, op, payload), items, c);
      if more != [] {
        Enter(t, more, rest, c);
        assert items[n + 2..] == more[1..] && more[0] == items[n + 1];
        assert InNext(t, items, rest, c, 0);
      }
    }
  }

  lemma PastGrows(s: Session)
    requires s.pc.Idle?
    ensures s.past <= Apply(s, ReadNext).past
  {
    hide Parse, Absorb;
  }

  /** Reading on after the items leaves them delivered. */
  lemma ReadBeyond(s: Session, items: seq<Serving.Item>, rest: bytes, c: Cbc.Cipher)
    requires OnTrack(s, items, rest, c) && s.pc.Idle? && |s.past| >= |items|
    ensures OnTrack(Apply(s, ReadNext), items, rest, c)
  {
    hide Apply, Enabled, Serving.Carried, InNext;
    PastGrows(s);
  }

  lemma WriteOnTrack(s: Session, x: Writers.Action, items: seq<Serving.Item>, rest: bytes, c: Cbc.Cipher)
    requires OnTrack(s, items, rest, c) && Roles(s) && Enabled(s, Write(x))
    ensures OnTrack(Apply(s, Write(x)), items, rest, c)
  {
    hide Writers.Apply, Writers.Chunk, After, EncodeAll, Serving.Wire, Serving.Sent, Matches;
    var t := Apply(s, Write(x));
    if |s.past| < |items| && !s.pc.Stopped? && !t.pc.Stopped? {
      var pos: nat :| InNext(s, items, rest, c, pos);
      assert InNext(t, items, rest, c, pos);
    }
  }

  lemma BeginOnTrack(items: seq<Serving.Item>, rest: bytes, c: Cbc.Cipher, hello: bytes)
    requires Serving.AllSent(items, c)
    ensures OnTrack(Begin(Serving.Wire(items, c) + rest, hello), items, rest, c)
  {
    hide Inside, Serving.Sent, Serving.Wire, Serving.Carried;
    var s := Begin(Serving.Wire(items, c) + rest, hello);
    if items != [] {
      Enter(s, items, rest, c);
      assert InNext(s, items, rest, c, 0);
    }
  }

  lemma {:induction false} RunOnTrack(ss: seq<Session>, acts: seq<Action>, items: seq<Serving.Item>, rest: bytes,
                                      c: Cbc.Cipher, hello: bytes, i: nat)
    requires Serving.AllSent(items, c) && Run(ss, acts, Serving.Wire(items, c) + rest, hello) && i < |ss|
    ensures OnTrack(ss[i], items, rest, c)
  {
    hide OnTrack, Serving.Wire, Serving.Sent, Apply, Enabled, Begin, WriteSide;
    if i > 0 {
      RunOnTrack(ss, acts, items, rest, c, hello, i - 1);
      var s, a := ss[i - 1], acts[i - 1];
      assert ss[i - 1 + 1] == Apply(s, a) && Enabled(s, a);
      if a.Write? {
        RunWriteSide(ss, acts, Serving.Wire(items, c) + rest, hello, i - 1);
        HasRoles(s, hello);
        WriteOnTrack(s, a.step, items, rest, c);
      } else {
        ReadIsIdle(s);
        if |s.past| < |items| { ReadOnTrack(s, items, rest, c); } else { ReadBeyond(s, items, rest, c); }
      }
    } else {
      BeginOnTrack(items, rest, c, hello);
    }
  }

  lemma HasRoles(s: Session, hello: bytes)
    requires WriteSide(s, hello)
    ensures Roles(s)
  {
  }

  lemma {:induction false} CommandsGrow(items: seq<Serving.Item>, it: Serving.Item)
    ensures Serving.Commands(items + [it]) == Serving.Commands(items) + if it.Command? then [it.plain] else []
    decreases |items|
  {
    if items == [] {
      assert [it][1..] == [] && Serving.Commands([]) == [] && [] + [it] == [it];
    } else {
      CommandsGrow(items[1..], it);
      assert (items + [it])[1..] == items[1..] + [it];
    }
  }

  lemma {:induction false} HandedCommands(past: seq<Delivered>, items: seq<Serving.Item>, c: Cbc.Cipher)
    requires c.Valid() && Serving.AllSent(items, c) && |past| == |items| && Matches(past, items, c)
    ensures Handed(past, c) == Serving.Commands(items)
    decreases |past|
  {
    hide Serving.Plaintext, Serving.Commands, Serving.Carried, Serving.Sent;
    if past == [] {
      assert Serving.Commands(items) == [] by { NoCommands(items); }
    } else {
      var n := |past| - 1;
      var it := items[n];
      assert items == items[..n] + [it] && it in items;
      assert forall x | x in items[..n] :: x in items;
      HandedCommands(past[..n], items[..n], c);
      CommandsGrow(items[..n], it);
      Serving.HandedOver(it, c);
    }
  }

  lemma NoCommands(items: seq<Serving.Item>)
    requires items == []
    ensures Serving.Commands(items) == []
  {
  }

  /** In every state of every interleaving, what was handed over for the items sent is exactly the
      commands of those delivered so far, in order; and the loop returns before all of them are
      delivered only because it could not write a frame. */
  lemma HandsOverInOrder(ss: seq<Session>, acts: seq<Action>, items: seq<Serving.Item>, rest: bytes, c: Cbc.Cipher,
                         hello: bytes, i: nat)
    requires c.Valid() && Serving.AllSent(items, c) && i < |ss|
    requires Run(ss, acts, Serving.Wire(items, c) + rest, hello)
    ensures var s := ss[i]; var n := if |s.past| < |items| then |s.past| else |items|;
      && Handed(s.past[..n], c) == Serving.Commands(items[..n])
      && (s.pc.Stopped? && |s.past| < |items| ==> s.pc.owed.Some?)
  {
    hide Serving.Wire, Serving.Sent, Serving.Carried, Handed, Serving.Commands, Run;
    RunOnTrack(ss, acts, items, rest, c, hello, i);
    var s := ss[i];
    var n := if |s.past| < |items| then |s.past| else |items|;
    assert forall x | x in items[..n] :: x in items;
    HandedCommands(s.past[..n], items[..n], c);
  }
}
