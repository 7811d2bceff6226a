/** The WebSocket connection object: its writer, reader, message loop and serve loop, each
    proved against the function that specifies it. */
module Connection {
  import opened Bits
  import opened Wrappers
  import opened Frames
  import opened Messages
  import opened Cbc
  import opened Serving

  class WsConn {
    var input: bytes        // bytes the peer sent that were not read yet
    var out: bytes          // bytes written so far
    var room: nat           // bytes the transport still takes before a write fails
    var draws: nat          // masks drawn so far
    const rand: Entropy
    var handled: seq<bytes> // plaintexts handed to the request handler
    ghost var peak: nat     // largest frame or reassembly buffer so far

    ghost function State(): Link
      reads this
    {
      Link(out, room, draws)
    }

    constructor (input: bytes, room: nat, rand: Entropy)
      ensures this.input == input && this.rand == rand && State() == Link([], room, 0)
      ensures handled == [] && peak == 0
    {
      this.input, this.out, this.room, this.draws, this.rand := input, [], room, 0, rand;
      this.handled, this.peak := [], 0;
    }

    /** One write on the transport: all of it, or as much as fits and an error. */
    method Write(p: bytes) returns (ok: bool)
      modifies this`out, this`room
      ensures ok <==> |p| <= old(room)
      ensures out == old(out) + if ok then p else p[..old(room)]
      ensures room == if ok then old(room) - |p| else 0
    {
      ok := |p| <= room;
      if ok {
        out, room := out + p, room - |p|;
      } else {
        out, room := out + p[..room], 0;
      }
    }

    /** Fills in everything of the header but the mask. */
    method PutHeader(hdr: array<byte>, op: nat, size: nat) returns (n: nat)
      requires hdr.Length == 14 && op < 16 && size < 0x1_0000_0000_0000_0000
      modifies hdr
      ensures n <= 10 && forall m: mask :: hdr[..n] + m == ClientHead(op, size, m)
    {
      hide BigEndian, Or;
      hdr[0] := OrByte(0x80, op);
      n := 2;
      ghost var ext: bytes := [];
      if size < 126 {
        hdr[1] := size;
      } else if size <= 0xFFFF {
        hdr[1] := 126;
        PutBytes(hdr, BigEndian(size, 2));
        ext := BigEndian(size, 2);
        n := 4;
      } else {
        hdr[1] := 127;
        PutBytes(hdr, BigEndian(size, 8));
        ext := BigEndian(size, 8);
        n := 10;
      }
      MarkHigh(op);
      MarkHigh(hdr[1]);
      hdr[1] := OrByte(hdr[1], 0x80);
      assert hdr[..n] == [hdr[0], hdr[1]] + ext;
    }

    method PutBytes(hdr: array<byte>, e: bytes)
      requires 2 + |e| <= hdr.Length
      modifies hdr
      ensures hdr[2..2 + |e|] == e && hdr[0] == old(hdr[0]) && hdr[1] == old(hdr[1])
    {
      forall i | 0 <= i < |e| { hdr[2 + i] := e[i]; }
    }

    /** Emits one masked frame: header and body are written separately. */
    method WriteFrame(op: nat, payload: bytes) returns (ok: bool)
      requires op < 16 && |payload| < 0x1_0000_0000_0000_0000
      modifies this`out, this`room, this`draws
      ensures (State(), ok) == Send(rand, old(State()), op, payload)
    {
      hide ClientHead, Masked;
      var hdr := new byte[14](_ => 0);
      var n := PutHeader(hdr, op, |payload|);
      var drawn := rand(draws);
      draws := draws + 1;
      if drawn.None? { return false; }
      var key := drawn.value;
      assert hdr[..n] + key == ClientHead(op, |payload|, key);
      ghost var start := hdr[..n];
      forall i | 0 <= i < 4 { hdr[n + i] := key[i]; }
      n := n + 4;
      var body := MaskBody(payload, key);
      var head := hdr[..n];
      assert head == start + key;
      assert ClientFrame(op, payload, key) == head + body;
      TwoWrites(old(out), head, body, old(room));
      ok := Write(head);
      if !ok || |body| == 0 { return; }
      ok := Write(body);
    }

    /** Two writes deliver what one write of both parts would. */
    static lemma TwoWrites(o: bytes, h: bytes, b: bytes, room: nat)
      ensures room < |h| ==> o + (h + b)[..room] == o + h[..room]
      ensures |h| <= room < |h| + |b| ==> o + (h + b)[..room] == o + h + b[..room - |h|]
      ensures o + (h + b) == o + h + b && (b == [] ==> o + (h + b) == o + h)
    {
    }

    method MaskBody(payload: bytes, key: mask) returns (r: bytes)
      ensures r == Masked(payload, key)
    {
      var body := new byte[|payload|];
      var i := 0;
      while i < |payload|
        invariant 0 <= i <= |payload|
        invariant forall j | 0 <= j < i :: body[j] == XorByte(payload[j], key[j % 4])
      {
        body[i] := XorByte(payload[i], key[i % 4]);
        i := i + 1;
      }
      r := body[..];
    }

    /** Fills `a` from the stream, or fails at its end. */
    method ReadFull(a: array<byte>) returns (ok: bool)
      modifies this`input, a
      ensures ok <==> a.Length <= |old(input)|
      ensures ok ==> a[..] == old(input)[..a.Length] && input == old(input)[a.Length..]
      ensures !ok ==> input == []
    {
      if a.Length <= |input| {
        forall i | 0 <= i < a.Length { a[i] := input[i]; }
        input := input[a.Length..];
        return true;
      }
      input := [];
      return false;
    }

    /** Reads the extended length that the 7-bit code asks for. */
    method ReadLength(code: nat) returns (r: Result<nat, Stop>)
      requires code < 128
      modifies this`input
      ensures var n := ExtensionSize(code);
        if |old(input)| < n then r == Failure(EndOfStream)
        else
          var v := if n == 0 then code else BigValue(old(input)[..n]);
          r == (if v > MAX_PAYLOAD then Failure(FrameTooBig(v)) else Success(v)) && input == old(input)[n..]
    {
      hide BigValue;
      var size := code;
      if code == 126 || code == 127 {
        var e := new byte[if code == 126 then 2 else 8];
        var ok := ReadFull(e);
        if !ok { return Failure(EndOfStream); }
        var v := BigValue(e[..]);
        if v > MAX_PAYLOAD { return Failure(FrameTooBig(v)); }
        size := GoInt(v);  // the 64-bit value is narrowed only now
      }
      if size > MAX_PAYLOAD { return Failure(FrameTooBig(size)); }
      return Success(size);
    }

    /** Reads one frame. */
    method ReadFrame() returns (r: Result<Frame, Stop>)
      modifies this`input, this`peak
      ensures match Parse(old(input))
              case Got(f, rest) => r == Success(f) && input == rest
              case Truncated => r == Failure(EndOfStream)
              case TooBig(n) => r == Failure(FrameTooBig(n))
      ensures peak <= if old(peak) > MAX_PAYLOAD then old(peak) else MAX_PAYLOAD
    {
      hide BigValue, And, Contents;
      var h := new byte[2];
      var ok := ReadFull(h);
      if !ok { return Failure(EndOfStream); }
      ghost var s := old(input);
      assert h[0] == s[0] && h[1] == s[1] by { assert h[..][0] == s[0] && h[..][1] == s[1]; }
      ByteTests(h[0]);
      ByteTests(h[1]);
      var op, fin := And(h[0], 0x0F), And(h[0], 0x80) != 0;
      var masked := And(h[1], 0x80) != 0;
      ghost var at := 2 + ExtensionSize(s[1] % 128);
      var length := ReadLength(And(h[1], 0x7F));
      assert |s| >= at ==> s[2..][..at - 2] == s[2..at] && s[2..][at - 2..] == s[at..];
      if length.Failure? { return Failure(length.error); }
      r := ReadContents(op, fin, masked, length.value, s, at);
    }

    /** Reads the mask and the payload of a frame whose header `s[..at]` was read. */
    method ReadContents(op: nat, fin: bool, masked: bool, size: nat, ghost s: bytes, ghost at: nat)
      returns (r: Result<Frame, Stop>)
      requires 2 <= at <= |s| && input == s[at..] && size <= MAX_PAYLOAD
      requires op == s[0] % 16 && fin == (s[0] >= 128)
      modifies this`input, this`peak
      ensures match Contents(s, at, masked, size)
              case Got(f, rest) => r == Success(f) && input == rest
              case Truncated => r == Failure(EndOfStream)
              case TooBig(_) => false
      ensures peak <= if old(peak) > MAX_PAYLOAD then old(peak) else MAX_PAYLOAD
    {
      hide Masked;
      var key := new byte[4](_ => 0);
      if masked {
        var ok := ReadFull(key);
        if !ok { return Failure(EndOfStream); }
        assert s[at..][..4] == s[at..at + 4] && s[at..][4..] == s[at + 4..];
      }
      ghost var body := if masked then at + 4 else at;
      assert body <= |s| && input == s[body..];
      if size > peak { peak := size; }
      var payload := new byte[size];
      var ok := ReadFull(payload);
      if !ok { return Failure(EndOfStream); }
      assert s[body..][..size] == s[body..body + size] && s[body..][size..] == s[body + size..];
      if masked { Unmask(payload, key); }
      return Success(Frame(op, fin, payload[..]));
    }

    /** Unmasks a buffer in place. */
    method Unmask(payload: array<byte>, key: array<byte>)
      requires key.Length == 4 && key != payload
      modifies payload
      ensures payload[..] == Masked(old(payload[..]), key[..])
    {
      var i := 0;
      while i < payload.Length
        invariant 0 <= i <= payload.Length
        invariant forall j | 0 <= j < i :: payload[j] == XorByte(old(payload[j]), key[j % 4])
        invariant forall j | i <= j < payload.Length :: payload[j] == old(payload[j])
      {
        payload[i] := XorByte(payload[i], key[i % 4]);
        i := i + 1;
      }
    }

    /** Reassembles one message, answering pings on the way. */
    method ReadMessage() returns (r: Result<(nat, bytes), Stop>)
      modifies this`input, this`peak, this`out, this`room, this`draws
      ensures match Receive(rand, old(input), old(State()), NOTHING)
              case Message(op, payload, rest, l) => r == Success((op, payload)) && input == rest && State() == l
              case Ended(why, l) => r == Failure(why) && State() == l
      ensures old(peak) <= MAX_PAYLOAD ==> peak <= MAX_PAYLOAD
    {
      hide Parse, Send;
      var msgOp: nat, buf: bytes := 0, [];
      while true
        invariant |buf| <= MAX_PAYLOAD
        invariant Receive(rand, input, State(), Partial(msgOp, buf)) ==
                  Receive(rand, old(input), old(State()), NOTHING)
        invariant old(peak) <= MAX_PAYLOAD ==> peak <= MAX_PAYLOAD
        decreases |input|
      {
        var got := ReadFrame();
        if got.Failure? { return Failure(got.error); }
        var f := got.value;
        if f.op == OP_PING {
          var ok := WriteFrame(OP_PONG, f.payload);
          if !ok { return Failure(WriteFailed); }
          continue;
        } else if f.op == OP_PONG {
          continue;
        } else if f.op == OP_CLOSE {
          return Failure(ServerClosed);
        } else if f.op == OP_TEXT || f.op == OP_BINARY {
          msgOp, buf := f.op, f.payload;
        } else if f.op == OP_CONTINUATION {
          if msgOp == 0 { return Failure(NoStartFrame); }
          if |buf| + |f.payload| > MAX_PAYLOAD { return Failure(MessageTooBig); }
          buf := buf + f.payload;
          if |buf| > peak { peak := |buf|; }
        } else {
          return Failure(BadOpcode(f.op));
        }
        if f.fin { return Success((msgOp, buf)); }
      }
    }

    /** Serves the connection until it fails; every decrypted message goes to the handler. */
    method WsServe(key: Option<Cipher>, hello: bytes) returns (why: Stop)
      requires |hello| < 0x1_0000_0000_0000_0000
      modifies this
      ensures var ses := ServeFrom(rand, old(input), old(State()), key, hello);
        handled == old(handled) + ses.handled && why == ses.why && State() == ses.link
      ensures old(peak) <= MAX_PAYLOAD ==> peak <= MAX_PAYLOAD
    {
      hide Receive, Send, Decrypt;
      if hello != [] {
        var ok := WriteFrame(OP_TEXT, hello);
        if !ok { return WriteFailed; }
      }
      ghost var whole := Serve(rand, input, State(), key);
      while true
        invariant var ses := Serve(rand, input, State(), key);
          old(handled) + whole.handled == handled + ses.handled && ses.why == whole.why && ses.link == whole.link
        invariant old(peak) <= MAX_PAYLOAD ==> peak <= MAX_PAYLOAD
        decreases |input|
      {
        ghost var l, s := State(), input;
        var got := ReadMessage();
        if got.Failure? { return got.error; }
        var (op, payload) := got.value;
        if op == OP_TEXT { continue; }
        var plain := WsDecrypt(payload, key);
        if plain.Failure? { continue; }
        handled := handled + [plain.value];
      }
    }
  }
}
