/** The serve loop: which plaintexts a byte stream hands to the request handler. */
module Serving {
  import opened Bits
  import opened Wrappers
  import opened Frames
  import opened Messages
  import opened Cbc

  datatype Session = Session(handled: seq<bytes>, why: Stop, rest: bytes, link: Link)

  /** The plaintext a message hands over, if any: text is only logged, and binary data that
      does not decrypt is dropped. */
  function Plaintext(op: nat, payload: bytes, key: Option<Cipher>): seq<bytes> {
    if op == OP_TEXT then [] else
    match Decrypt(payload, key)
    case Success(m) => [m]
    case Failure(_) => []
  }

  /** The loop from the point where it is about to read the next message. */
  function Serve(rand: Entropy, s: bytes, l: Link, key: Option<Cipher>): Session
    decreases |s|
  {
    match Receive(rand, s, l, NOTHING)
    case Ended(why, l') => Session([], why, s, l')
    case Message(op, payload, rest, l') =>
      var next := Serve(rand, rest, l', key);
      next.(handled := Plaintext(op, payload, key) + next.handled)
  }

  /** The whole session: the optional hello goes out first. */
  function ServeFrom(rand: Entropy, s: bytes, l: Link, key: Option<Cipher>, hello: bytes): Session
    requires |hello| < 0x1_0000_0000_0000_0000
  {
    if hello == [] then Serve(rand, s, l, key) else
    var (l', ok) := Send(rand, l, OP_TEXT, hello);
    if ok then Serve(rand, s, l', key) else Session([], WriteFailed, s, l')
  }

  /** A hello goes out as one whole text frame before anything is read; when it cannot, nothing
      is read or handed over. */
  lemma HelloFirst(rand: Entropy, s: bytes, l: Link, key: Option<Cipher>, hello: bytes)
    requires 0 < |hello| < 0x1_0000_0000_0000_0000
    ensures var (l', ok) := Send(rand, l, OP_TEXT, hello); var ses := ServeFrom(rand, s, l, key, hello);
      if ok then
        && ses == Serve(rand, s, l', key)
        && exists w: WireFrame :: w.Legal() && w.View() == Frame(1, true, hello) && w.key.Some?
             && l'.out == l.out + Encode(w)
      else ses.handled == [] && ses.rest == s && ses.link == l'
  {
    hide Encode, Serve, ClientFrame, ClientWire;
    if Send(rand, l, OP_TEXT, hello).1 { SendWrites(rand, l, OP_TEXT, hello); }
  }

  // ----- What the panel put on the wire -----

  /** One message as the panel sent it: a note, an encrypted command, or binary data that is
      no encryption under the key, on the wire as the frames `ws`. */
  datatype Item =
    | Note(ws: seq<WireFrame>, text: bytes)
    | Command(ws: seq<WireFrame>, iv: block, plain: bytes)
    | Garbage(ws: seq<WireFrame>, data: bytes)

  /** The frames of the item carry it: any fragmentation, any masking, any length form, any
      pings and pongs in between. */
  ghost predicate Sent(it: Item, c: Cipher) {
    && AllLegal(it.ws) && Sendable(Pings(Views(it.ws)))
    && match it {
         case Note(ws, text) => Carries(Views(ws), OP_TEXT, text)
         case Command(ws, iv, plain) => Carries(Views(ws), OP_BINARY, Encrypt(c, iv, plain))
         case Garbage(ws, data) => Carries(Views(ws), OP_BINARY, data) && Decrypt(data, Some(c)).Failure?
       }
  }

  ghost predicate AllSent(items: seq<Item>, c: Cipher) {
    forall it | it in items :: Sent(it, c)
  }

  ghost function Wire(items: seq<Item>, c: Cipher): bytes
    requires AllSent(items, c)
  {
    if items == [] then [] else
    assert Sent(items[0], c);
    EncodeAll(items[0].ws) + Wire(items[1..], c)
  }

  ghost function AllPings(items: seq<Item>): seq<bytes> {
    if items == [] then [] else Pings(Views(items[0].ws)) + AllPings(items[1..])
  }

  ghost function Commands(items: seq<Item>): seq<bytes> {
    if items == [] then []
    else (if items[0].Command? then [items[0].plain] else []) + Commands(items[1..])
  }

  lemma {:induction false} PongSplit(rand: Entropy, l: Link, ps: seq<bytes>, qs: seq<bytes>)
    requires Sendable(ps) && Sendable(qs) && Sendable(ps + qs)
    ensures var (l', ok) := PongAll(rand, l, ps);
      PongAll(rand, l, ps + qs) == if ok then PongAll(rand, l', qs) else (l', false)
    decreases |ps|
  {
    hide Send;
    if ps == [] {
      assert ps + qs == qs;
    } else {
      var (l', ok) := Send(rand, l, OP_PONG, ps[0]);
      assert (ps + qs)[1..] == ps[1..] + qs;
      if ok { PongSplit(rand, l', ps[1..], qs); }
    }
  }

  lemma PingsSendable(items: seq<Item>, c: Cipher)
    requires AllSent(items, c)
    ensures Sendable(AllPings(items))
  {
    if items != [] {
      assert Sent(items[0], c);
      PingsSendable(items[1..], c);
    }
  }

  /** The opcode and payload that the item's frames carry. */
  function Carried(it: Item, c: Cipher): (nat, bytes) {
    match it
    case Note(_, text) => (OP_TEXT, text)
    case Command(_, iv, plain) => (OP_BINARY, Encrypt(c, iv, plain))
    case Garbage(_, data) => (OP_BINARY, data)
  }

  lemma HandedOver(it: Item, c: Cipher)
    requires c.Valid() && Sent(it, c)
    ensures Plaintext(Carried(it, c).0, Carried(it, c).1, Some(c)) == if it.Command? then [it.plain] else []
  {
    if it.Command? { RoundTrip(c, it.iv, it.plain); }
  }

  lemma ItemReceived(rand: Entropy, it: Item, rest: bytes, l: Link, c: Cipher)
    requires Sent(it, c) && PongAll(rand, l, Pings(Views(it.ws))).1
    ensures Receive(rand, EncodeAll(it.ws) + rest, l, NOTHING) ==
            Message(Carried(it, c).0, Carried(it, c).1, rest, PongAll(rand, l, Pings(Views(it.ws))).0)
  {
    hide Receive, Carries, PongAll, EncodeAll, Pings, Decrypt, Encrypt;
    var (op, payload) := Carried(it, c);
    var done := PongAll(rand, l, Pings(Views(it.ws))).0;
    assert OnWire(rand, it.ws, EncodeAll(it.ws) + rest, l, op, payload, rest, done);
    ReceiveExact(rand, EncodeAll(it.ws) + rest, l, op, payload, rest, done);
  }

  lemma ServeItem(rand: Entropy, it: Item, rest: bytes, l: Link, c: Cipher)
    requires c.Valid() && Sent(it, c) && PongAll(rand, l, Pings(Views(it.ws))).1
    ensures var next := Serve(rand, rest, PongAll(rand, l, Pings(Views(it.ws))).0, Some(c));
      Serve(rand, EncodeAll(it.ws) + rest, l, Some(c)) ==
      next.(handled := (if it.Command? then [it.plain] else []) + next.handled)
  {
    hide Receive, PongAll, EncodeAll, Pings, Plaintext, Carried;
    ItemReceived(rand, it, rest, l, c);
    HandedOver(it, c);
  }

  /** Stream meaning: the loop hands over exactly the commands of what was sent, in order, and
      notes, undecryptable data and control frames never put later messages out of step: after
      them it stands exactly at the bytes that follow. */
  lemma {:induction false} ServeDelivers(rand: Entropy, items: seq<Item>, rest: bytes, l: Link, c: Cipher)
    requires c.Valid() && AllSent(items, c)
    requires Sendable(AllPings(items)) && PongAll(rand, l, AllPings(items)).1
    ensures var next := Serve(rand, rest, PongAll(rand, l, AllPings(items)).0, Some(c));
      Serve(rand, Wire(items, c) + rest, l, Some(c)) == next.(handled := Commands(items) + next.handled)
    decreases |items|
  {
    hide Serve, PongAll, EncodeAll, Pings, Sent;
    if items == [] {
      assert Wire(items, c) + rest == rest;
      NoPongs(rand, l);
    } else {
      var it, tail := items[0], items[1..];
      assert Sent(it, c);
      PingsSendable(tail, c);
      SentPings(it, c);
      PongSplit(rand, l, Pings(Views(it.ws)), AllPings(tail));
      var l' := PongAll(rand, l, Pings(Views(it.ws))).0;
      assert Wire(items, c) + rest == EncodeAll(it.ws) + (Wire(tail, c) + rest);
      ServeItem(rand, it, Wire(tail, c) + rest, l, c);
      ServeDelivers(rand, tail, rest, l', c);
      var next := Serve(rand, rest, PongAll(rand, l, AllPings(items)).0, Some(c));
      assert Commands(items) + next.handled ==
             (if it.Command? then [it.plain] else []) + (Commands(tail) + next.handled);
    }
  }

  lemma SentPings(it: Item, c: Cipher)
    requires Sent(it, c)
    ensures AllLegal(it.ws) && Sendable(Pings(Views(it.ws)))
  {
  }

  /** When the panel's messages are all there is, the session ends with the stream. */
  lemma ServeAll(rand: Entropy, items: seq<Item>, l: Link, c: Cipher)
    requires c.Valid() && AllSent(items, c)
    requires Sendable(AllPings(items)) && PongAll(rand, l, AllPings(items)).1
    ensures var ses := Serve(rand, Wire(items, c), l, Some(c));
      && ses.handled == Commands(items) && ses.why == EndOfStream && ses.rest == []
      && ses.link == PongAll(rand, l, AllPings(items)).0
  {
    assert Wire(items, c) + [] == Wire(items, c);
    ServeDelivers(rand, items, [], l, c);
  }

  function FirstBlock(p: bytes): block {
    if |p| < BLOCK then seq(BLOCK, _ => 0) else p[..BLOCK]
  }

  /** The item that a received message stands for. */
  ghost function ItemOf(ws: seq<WireFrame>, op: nat, payload: bytes, c: Cipher): Item {
    if op == OP_TEXT then Note(ws, payload)
    else if Decrypt(payload, Some(c)).Success? then Command(ws, FirstBlock(payload), Decrypt(payload, Some(c)).value)
    else Garbage(ws, payload)
  }

  lemma CarriedOp(fs: seq<Frame>, op: nat, payload: bytes)
    requires Carries(fs, op, payload)
    ensures op == OP_TEXT || op == OP_BINARY
  {
  }

  lemma ItemSent(ws: seq<WireFrame>, op: nat, payload: bytes, c: Cipher)
    requires c.Valid() && AllLegal(ws) && Sendable(Pings(Views(ws))) && Carries(Views(ws), op, payload)
    ensures var it := ItemOf(ws, op, payload, c);
      Sent(it, c) && it.ws == ws && Plaintext(op, payload, Some(c)) == if it.Command? then [it.plain] else []
  {
    CarriedOp(Views(ws), op, payload);
    if op != OP_TEXT && Decrypt(payload, Some(c)).Success? {
      DecryptExact(c, payload, Decrypt(payload, Some(c)).value);
    }
  }

  /** Nothing is handed over that was not on the wire: every stream starts with messages whose
      commands are exactly what the loop handed over, and it stops where no message follows. */
  lemma {:induction false} ServeSound(rand: Entropy, s: bytes, l: Link, c: Cipher) returns (items: seq<Item>)
    requires c.Valid()
    ensures AllSent(items, c) && Sendable(AllPings(items))
    ensures var ses := Serve(rand, s, l, Some(c)); var (l', ok) := PongAll(rand, l, AllPings(items));
      && s == Wire(items, c) + ses.rest && ses.handled == Commands(items)
      && ok && Receive(rand, ses.rest, l', NOTHING) == Ended(ses.why, ses.link)
    decreases |s|
  {
    hide Carries, Send, EncodeAll, Pings, Plaintext, Decrypt, ItemOf, Sent;
    match Receive(rand, s, l, NOTHING)
    case Ended(why, l') =>
      items := [];
    case Message(op, payload, rest, l') =>
      assert Pending([]) && After([]) == NOTHING;
      var ws := ReceiveSound(rand, s, l, []);
      assert [] + Views(ws) == Views(ws);
      ItemSent(ws, op, payload, c);
      var it := ItemOf(ws, op, payload, c);
      var tail := ServeSound(rand, rest, l', c);
      items := [it] + tail;
      assert items[1..] == tail;
      PingsSendable(items, c);
      PongSplit(rand, l, Pings(Views(ws)), AllPings(tail));
      assert Wire(items, c) == EncodeAll(ws) + Wire(tail, c);
  }

  /** The whole session on a stream that starts with the panel's messages, with or without a
      hello: exactly the commands are handed over, after the hello went out, and the loop ends
      where the stream does. */
  lemma SessionDelivers(rand: Entropy, items: seq<Item>, l: Link, c: Cipher, hello: bytes)
    requires c.Valid() && AllSent(items, c) && |hello| < 0x1_0000_0000_0000_0000
    requires hello != [] ==> Send(rand, l, OP_TEXT, hello).1
    requires Sendable(AllPings(items))
    requires PongAll(rand, if hello == [] then l else Send(rand, l, OP_TEXT, hello).0, AllPings(items)).1
    ensures var ses := ServeFrom(rand, Wire(items, c), l, Some(c), hello);
      && ses.handled == Commands(items) && ses.why == EndOfStream && ses.rest == []
      && ses.link == PongAll(rand, if hello == [] then l else Send(rand, l, OP_TEXT, hello).0, AllPings(items)).0
  {
    hide Serve, Wire, PongAll, Send, Sent;
    ServeAll(rand, items, if hello == [] then l else Send(rand, l, OP_TEXT, hello).0, c);
  }

  /** The whole session on any stream: what was handed over is exactly the commands of the messages
      the stream starts with, and nothing is read when a hello cannot be sent. */
  lemma SessionSound(rand: Entropy, s: bytes, l: Link, c: Cipher, hello: bytes) returns (items: seq<Item>)
    requires c.Valid() && |hello| < 0x1_0000_0000_0000_0000
    ensures AllSent(items, c) && Sendable(AllPings(items))
    ensures var ses := ServeFrom(rand, s, l, Some(c), hello);
      && s == Wire(items, c) + ses.rest && ses.handled == Commands(items)
      && if hello != [] && !Send(rand, l, OP_TEXT, hello).1
         then items == [] && ses.why == WriteFailed && ses.link == Send(rand, l, OP_TEXT, hello).0
         else
           var from := if hello == [] then l else Send(rand, l, OP_TEXT, hello).0;
           var (l', ok) := PongAll(rand, from, AllPings(items));
           ok && Receive(rand, ses.rest, l', NOTHING) == Ended(ses.why, ses.link)
  {
    hide Serve, PongAll, Send, Sent, Receive;
    if hello != [] && !Send(rand, l, OP_TEXT, hello).1 {
      items := [];
      assert Wire(items, c) + s == s;
    } else {
      items := ServeSound(rand, s, if hello == [] then l else Send(rand, l, OP_TEXT, hello).0, c);
    }
  }

  lemma FrameReceived(rand: Entropy, w: WireFrame, rest: bytes, l: Link)
    requires w.Legal() && |w.payload| <= 65536
    ensures Receive(rand, Encode(w) + rest, l, NOTHING) ==
      match w.op {
        case 1 | 2 =>
          if w.fin then Message(w.op, w.payload, rest, l) else Receive(rand, rest, l, Partial(w.op, w.payload))
        case 8 => Ended(ServerClosed, l)
        case 9 =>
          var (l', ok) := Send(rand, l, 10, w.payload);
          if ok then Receive(rand, rest, l', NOTHING) else Ended(WriteFailed, l')
        case 10 => Receive(rand, rest, l, NOTHING)
        case 0 => Ended(NoStartFrame, l)
        case _ => Ended(BadOpcode(w.op), l)
      }
  {
    hide Parse, Encode, Send;
    ParseEncode(w, rest);
  }

  /** What the loop does with the next frame when it waits for a message, by the opcode on the wire:
      a whole text is skipped, whole binary data is decrypted and handed over if that succeeds, a
      ping is answered and a pong skipped, a close and everything else ends the session. */
  lemma ServeByOpcode(rand: Entropy, w: WireFrame, rest: bytes, l: Link, key: Option<Cipher>)
    requires w.Legal() && |w.payload| <= 65536
    ensures var ses := Serve(rand, Encode(w) + rest, l, key); var next := Serve(rand, rest, l, key);
      && (w.op == 1 && w.fin ==> ses == next)
      && (w.op == 2 && w.fin ==>
            ses == next.(handled := (match Decrypt(w.payload, key)
                                     case Success(m) => [m]
                                     case Failure(_) => []) + next.handled))
      && (w.op == 8 ==> ses.handled == [] && ses.why == ServerClosed && ses.link == l)
      && (w.op == 9 && Send(rand, l, 10, w.payload).1 ==>
            var after := Serve(rand, rest, Send(rand, l, 10, w.payload).0, key);
            ses.handled == after.handled && ses.why == after.why && ses.link == after.link)
      && (w.op == 10 ==> ses.handled == next.handled && ses.why == next.why && ses.link == next.link)
      && (w.op == 0 ==> ses.handled == [] && ses.why == NoStartFrame)
      && (w.op !in {0, 1, 2, 8, 9, 10} ==> ses.handled == [] && ses.why == BadOpcode(w.op))
  {
    hide Receive, Encode, Send, Decrypt;
    FrameReceived(rand, w, rest, l);
  }
}
