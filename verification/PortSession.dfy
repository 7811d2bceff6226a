/** A raw session on the port's step system: every answer is what the shared buffer shows, and the
    buffer is filled by the reader goroutine. Says which bytes a "sent" can rest on. */
module PortSession {
  import opened Bits
  import opened Wrappers
  import opened Text
  import opened AtPort
  import opened Sessions

  /** One exchange in a run: the steps that drain the buffer, write, and look for the answer. */
  datatype Stage = Stage(data: string, drain: nat, write: nat, polls: seq<nat>, last: nat)

  ghost predicate IsStage(acts: seq<Action>, st: Stage) {
    && st.drain < st.write < st.last < |acts|
    && acts[st.drain].Drain? && acts[st.write] == Write(st.data) && acts[st.last].Poll?
    && (forall j | 0 <= j < |st.polls| :: st.write < st.polls[j] <= st.last && acts[st.polls[j]].Poll?)
    && (forall i, j | 0 <= i < j < |st.polls| :: st.polls[i] < st.polls[j])
    && (forall k | st.drain < k <= st.last :: !acts[k].Drain?)
  }

  /** What the looks of a stage show. */
  ghost function WaitOf(ps: seq<Port>, acts: seq<Action>, st: Stage): Wait
    requires Run(ps, acts) && IsStage(acts, st)
  {
    Wait(seq(|st.polls|, j requires 0 <= j < |st.polls| => Characters(ps[st.polls[j]].buf)),
         Characters(ps[st.last].buf))
  }

  /** The bytes read between the stage's drain and its last look. */
  function Since(acts: seq<Action>, st: Stage): bytes
    requires IsStage(acts, st)
  {
    Chunks(acts[st.drain + 1..st.last])
  }

  /** The chunk that was read before the stage's drain and not dropped by it. */
  function Stale(ps: seq<Port>, acts: seq<Action>, st: Stage): bytes
    requires Run(ps, acts) && IsStage(acts, st)
  {
    InFlight(ps[st.drain])
  }

  /** Can a buffer that starts with these bytes show the word although the rest does not have it?
      When they contain the word, or end in a proper beginning of it. */
  ghost predicate Taints(stale: bytes, word: string) {
    || Contains(Characters(stale), word)
    || exists j :: 0 < j < |word| && j <= |stale| && Characters(stale[|stale| - j..]) == word[..j]
  }

  // ----- Where an answer comes from -----

  lemma PrefixContains(a: string, b: string, word: string)
    requires a <= b && Contains(a, word)
    ensures Contains(b, word)
  {
    var i: nat :| i <= |a| && At(a, word, i);
    assert b[i..i + |word|] == a[i..i + |word|];
    assert At(b, word, i);
  }

  lemma InnerContains(left: string, s: string, right: string, word: string)
    requires Contains(s, word)
    ensures Contains(left + s + right, word)
  {
    var i: nat :| i <= |s| && At(s, word, i);
    var t := left + s + right;
    assert t[|left| + i..|left| + i + |word|] == s[i..i + |word|];
    assert At(t, word, |left| + i);
  }

  lemma TrimmedContains(s: string, word: string)
    requires Contains(TrimSpace(s), word)
    ensures Contains(s, word)
  {
    hide TrimSpace, Contains;
    var left, right := TrimSpaceExact(s);
    InnerContains(left, TrimSpace(s), right, word);
  }

  /** A word in two adjacent pieces is in the second, or the first has it or begins it. */
  lemma Straddles(stale: bytes, recent: bytes, word: string)
    requires Contains(Characters(stale + recent), word)
    ensures Contains(Characters(recent), word) || Taints(stale, word)
  {
    var s := Characters(stale + recent);
    var i: nat :| i <= |s| && At(s, word, i);
    var n, m := |stale|, |word|;
    if n <= i {
      assert Characters(recent)[i - n..i - n + m] == s[i..i + m];
      assert At(Characters(recent), word, i - n);
    } else if i + m <= n {
      assert Characters(stale)[i..i + m] == s[i..i + m];
      assert At(Characters(stale), word, i);
    } else {
      var j := n - i;
      var tail := Characters(stale[n - j..]);
      forall k | 0 <= k < j ensures tail[k] == word[k] {
        assert word[k] == s[i..i + m][k] == s[i + k];
        assert stale[n - j..][k] == stale[i + k] == (stale + recent)[i + k];
      }
      assert tail == word[..j];
    }
  }

  lemma {:induction false} ChunksGrow(acts: seq<Action>, a: nat, b: nat, c: nat)
    requires a <= b <= c <= |acts|
    ensures Chunks(acts[a..b]) <= Chunks(acts[a..c])
    decreases c
  {
    hide Chunks;
    if b < c {
      ChunksGrow(acts, a, b, c - 1);
      ChunksLast(acts, a, c);
    }
  }

  /** Whatever a look shows is the beginning of the stale chunk followed by what was read since. */
  lemma LookShows(ps: seq<Port>, acts: seq<Action>, st: Stage, k: nat)
    requires Run(ps, acts) && IsStage(acts, st) && st.drain < k <= st.last
    ensures ps[k].buf <= Stale(ps, acts, st) + Since(acts, st)
  {
    hide Chunks, InFlight;
    ReadsSinceDrain(ps, acts, st.drain, k);
    ChunksGrow(acts, st.drain + 1, k, st.last);
    assert ps[k].buf <= ps[k].buf + InFlight(ps[k]);
  }

  lemma AnswerIsLook(w: Wait, tokens: seq<string>, r: string)
    requires Answer(w, tokens, r)
    ensures r == w.last || exists j :: 0 <= j < |w.polls| && r == w.polls[j]
  {
    hide HasToken;
  }

  /** A word that a stage accepts was read since the stage's drain, or a chunk was in flight at
      the drain that has the word or begins it. */
  lemma FreshOrTainted(ps: seq<Port>, acts: seq<Action>, st: Stage, tokens: seq<string>, word: string, trimmed: bool)
    requires Run(ps, acts) && IsStage(acts, st) && Shows(WaitOf(ps, acts, st), tokens, word, trimmed)
    ensures Contains(Characters(Since(acts, st)), word) || Taints(Stale(ps, acts, st), word)
  {
    hide Contains, TrimSpace, Answer, Taints, Since, Stale;
    var w := WaitOf(ps, acts, st);
    var r :| Answer(w, tokens, r) && Contains(if trimmed then TrimSpace(r) else r, word);
    AnswerIsLook(w, tokens, r);
    var k := st.last;
    if r != w.last {
      var j :| 0 <= j < |w.polls| && r == w.polls[j];
      k := st.polls[j];
    }
    if trimmed { TrimmedContains(r, word); }
    LookShows(ps, acts, st, k);
    var all := Stale(ps, acts, st) + Since(acts, st);
    assert Characters(ps[k].buf) <= Characters(all);
    PrefixContains(Characters(ps[k].buf), Characters(all), word);
    Straddles(Stale(ps, acts, st), Since(acts, st), word);
  }

  // ----- Whole sessions -----

  datatype Stages = Stages(cmee: Stage, cmgf: Stage, cnmi: Option<Stage>, prompt: Stage, reply: Stage)

  /** The stages write the script of a session, one after the other. */
  ghost predicate IsSession(acts: seq<Action>, x: Stages, pduHex: string, tpduLen: int, report: bool) {
    var script := Script(pduHex, tpduLen, report);
    && IsStage(acts, x.cmee) && x.cmee.data == script[0]
    && IsStage(acts, x.cmgf) && x.cmgf.data == script[1] && x.cmee.last < x.cmgf.drain
    && (x.cnmi.Some? <==> report)
    && (report ==> IsStage(acts, x.cnmi.value) && x.cnmi.value.data == script[2]
                   && x.cmgf.last < x.cnmi.value.drain && x.cnmi.value.last < x.prompt.drain)
    && IsStage(acts, x.prompt) && x.prompt.data == script[|script| - 2] && x.cmgf.last < x.prompt.drain
    && IsStage(acts, x.reply) && x.reply.data == script[|script| - 1] && x.prompt.last < x.reply.drain
  }

  /** What the session gets to see on the port. */
  ghost function ModemOf(ps: seq<Port>, acts: seq<Action>, x: Stages, pduHex: string, tpduLen: int, report: bool): Modem
    requires Run(ps, acts) && IsSession(acts, x, pduHex, tpduLen, report)
  {
    Modem(true, WaitOf(ps, acts, x.cmee), WaitOf(ps, acts, x.cmgf),
          if report then WaitOf(ps, acts, x.cnmi.value) else Wait([], ""),
          WaitOf(ps, acts, x.prompt), WaitOf(ps, acts, x.reply))
  }

  /** The word was read since the stage's drain, or was in flight, whole or begun, at the drain. */
  ghost predicate RestsOn(ps: seq<Port>, acts: seq<Action>, st: Stage, word: string)
    requires Run(ps, acts) && IsStage(acts, st)
  {
    Contains(Characters(Since(acts, st)), word) || Taints(Stale(ps, acts, st), word)
  }

  lemma CleanDrain(ps: seq<Port>, acts: seq<Action>, st: Stage, word: string)
    requires Run(ps, acts) && IsStage(acts, st) && word != ""
    ensures !ps[st.drain].reader.Appending? ==> !Taints(Stale(ps, acts, st), word)
  {
    NoTaint(word);
  }

  lemma NoTaint(word: string)
    requires word != ""
    ensures !Taints([], word) && !Contains("", word)
  {
    assert Characters([]) == "";
    assert !Contains("", word) by { assert forall i: nat :: !At("", word, i); }
  }

  /** What "sent" rests on, in every interleaving of session and reader: "OK", ">" and "+CMGS"
      were each read after the drain of their own stage, except where a drain fell between a read
      and its append and the chunk in flight supplied the word or its beginning. */
  lemma SentRestsOn(ps: seq<Port>, acts: seq<Action>, x: Stages, pduHex: string, tpduLen: int, report: bool)
    requires Run(ps, acts) && IsSession(acts, x, pduHex, tpduLen, report)
    requires SentBy(ModemOf(ps, acts, x, pduHex, tpduLen, report))
    ensures RestsOn(ps, acts, x.cmgf, "OK") && RestsOn(ps, acts, x.prompt, ">") && RestsOn(ps, acts, x.reply, "+CMGS")
    ensures !ps[x.cmgf.drain].reader.Appending? ==> Contains(Characters(Since(acts, x.cmgf)), "OK")
    ensures !ps[x.prompt.drain].reader.Appending? ==> Contains(Characters(Since(acts, x.prompt)), ">")
    ensures !ps[x.reply.drain].reader.Appending? ==> Contains(Characters(Since(acts, x.reply)), "+CMGS")
  {
    hide IsStage, WaitOf, Shows, Taints, Contains, Since, Stale, Script;
    FreshOrTainted(ps, acts, x.cmgf, ["OK", "ERROR"], "OK", true);
    FreshOrTainted(ps, acts, x.prompt, [">"], ">", false);
    FreshOrTainted(ps, acts, x.reply, ["+CMGS", "ERROR", "+CMS"], "+CMGS", true);
    CleanDrain(ps, acts, x.cmgf, "OK");
    CleanDrain(ps, acts, x.prompt, ">");
    CleanDrain(ps, acts, x.reply, "+CMGS");
  }

  // ----- The stale case happens -----

  /** One more step of a run. */
  lemma More(ps: seq<Port>, acts: seq<Action>, a: Action) returns (qs: seq<Port>, bs: seq<Action>)
    requires Run(ps, acts) && Enabled(ps[|acts|], a)
    ensures Run(qs, bs) && bs == acts + [a] && qs == ps + [Apply(ps[|acts|], a)]
    ensures qs[|bs|] == Apply(ps[|acts|], a) && ps <= qs && acts <= bs
  {
    hide Apply, Enabled;
    bs, qs := acts + [a], ps + [Apply(ps[|acts|], a)];
    forall i | 0 <= i < |bs| ensures Enabled(qs[i], bs[i]) && qs[i + 1] == Apply(qs[i], bs[i]) {
      if i < |acts| { assert bs[i] == acts[i] && qs[i] == ps[i] && qs[i + 1] == ps[i + 1]; }
    }
  }

  lemma States(ps: seq<Port>, acts: seq<Action>)
    requires Run(ps, acts)
    ensures |ps| == |acts| + 1
  {
  }

  /** The reader gets one chunk from the device. */
  lemma Receives(ps: seq<Port>, acts: seq<Action>, chunk: bytes) returns (qs: seq<Port>, bs: seq<Action>)
    requires Run(ps, acts) && 0 < |chunk| <= 1024
    requires ps[|acts|].user.Using? && ps[|acts|].reader.Top?
    ensures Run(qs, bs) && ps <= qs && bs == acts + [CheckStopped, Select(Ready), Read(Bytes(chunk))]
    ensures qs[|bs|] == ps[|acts|].(reader := Appending(chunk))
  {
    RunInv(ps, acts, |acts|);
    qs, bs := More(ps, acts, CheckStopped);
    qs, bs := More(qs, bs, Select(Ready));
    qs, bs := More(qs, bs, Read(Bytes(chunk)));
  }

  /** A run that goes on keeps its stages. */
  lemma StageStays(ps: seq<Port>, acts: seq<Action>, qs: seq<Port>, bs: seq<Action>, st: Stage)
    requires Run(ps, acts) && Run(qs, bs) && ps <= qs && acts <= bs && IsStage(acts, st)
    ensures IsStage(bs, st) && WaitOf(qs, bs, st) == WaitOf(ps, acts, st)
    ensures Since(bs, st) == Since(acts, st) && Stale(qs, bs, st) == Stale(ps, acts, st)
  {
    hide Chunks, InFlight;
    assert bs[st.drain + 1..st.last] == acts[st.drain + 1..st.last];
  }

  predicate Solid(word: string) {
    word != "" && Ascii(word) && forall c | c in word :: !IsSpace(c)
  }

  /** A word without spaces survives trimming. */
  lemma ContainsTrimmed(s: string, word: string)
    requires Solid(word) && Contains(s, word)
    ensures Contains(TrimSpace(s), word)
  {
    hide TrimSpace, IsSpace;
    var left, right := TrimSpaceExact(s);
    var t := TrimSpace(s);
    var i: nat :| i <= |s| && At(s, word, i);
    var m := |word|;
    assert s[i] == word[0] && s[i + m - 1] == word[m - 1] && word[0] in word && word[m - 1] in word;
    assert i >= |left| by {
      assert forall k | 0 <= k < |left| :: s[k] == left[k] && left[k] in left;
    }
    assert i + m <= |left| + |t| by {
      assert forall k | |left| + |t| <= k < |s| :: s[k] == right[k - |left| - |t|] && s[k] in right;
    }
    assert t[i - |left|..i - |left| + m] == s[i..i + m];
    assert At(t, word, i - |left|);
  }

  function CodeOf(c: char): byte
    requires c as nat < 0x80
  {
    c as nat
  }

  function BytesOf(word: string): (b: bytes)
    requires Ascii(word)
    ensures Characters(b) == word
  {
    seq(|word|, i requires 0 <= i < |word| => assert word[i] in word; CodeOf(word[i]))
  }

  lemma OneLook(s: string, tokens: seq<string>, word: string, trimmed: bool)
    requires Solid(word) && word in tokens && Contains(s, word)
    ensures Shows(Wait([s], s), tokens, word, trimmed)
  {
    hide Contains, TrimSpace, Solid;
    ContainsTrimmed(s, word);
    var w := Wait([s], s);
    var t :| 0 <= t < |tokens| && tokens[t] == word;
    assert HasToken(w.polls[0], tokens);
    assert Answer(w, tokens, s);
  }

  /** A stage that looks once, right before the end of the run. */
  lemma LookNow(ps: seq<Port>, acts: seq<Action>, data: string, d: nat)
    returns (qs: seq<Port>, bs: seq<Action>, st: Stage)
    requires Run(ps, acts) && ps[|acts|].user.Using? && d + 2 <= |acts|
    requires acts[d].Drain? && acts[d + 1] == Write(data) && forall k | d < k < |acts| :: !acts[k].Drain?
    ensures Run(qs, bs) && ps <= qs && bs == acts + [Poll] && qs[|bs|] == ps[|acts|]
    ensures st == Stage(data, d, d + 1, [|acts|], |acts|) && IsStage(bs, st)
    ensures var s := Characters(ps[|acts|].buf); WaitOf(qs, bs, st) == Wait([s], s)
    ensures Since(bs, st) == Chunks(acts[d + 1..])
  {
    qs, bs := More(ps, acts, Poll);
    st := Stage(data, d, d + 1, [|acts|], |acts|);
    assert bs[d + 1..|acts|] == acts[d + 1..];
  }

  lemma DrainAndWrite(ps: seq<Port>, acts: seq<Action>, data: string) returns (qs: seq<Port>, bs: seq<Action>)
    requires Run(ps, acts) && ps[|acts|].user.Using?
    ensures Run(qs, bs) && ps <= qs && bs == acts + [Drain, Write(data)]
    ensures qs[|bs|] == ps[|acts|].(buf := [])
  {
    qs, bs := More(ps, acts, Drain);
    qs, bs := More(qs, bs, Write(data));
  }

  /** An exchange that goes as intended. */
  lemma Exchange(ps: seq<Port>, acts: seq<Action>, data: string, answer: bytes)
    returns (qs: seq<Port>, bs: seq<Action>, st: Stage)
    requires Run(ps, acts) && ps[|acts|].user.Using? && ps[|acts|].reader.Top? && 0 < |answer| <= 1024
    ensures Run(qs, bs) && ps <= qs && acts <= bs && qs[|bs|].user.Using? && qs[|bs|].reader.Top?
    ensures IsStage(bs, st) && st.data == data && st.drain == |acts| && st.last < |bs|
    ensures WaitOf(qs, bs, st) == Wait([Characters(answer)], Characters(answer))
  {
    hide Run;
    qs, bs := DrainAndWrite(ps, acts, data);
    qs, bs := Receives(qs, bs, answer);
    qs, bs := More(qs, bs, Append);
    assert qs[|bs|].buf == [] + answer == answer;
    qs, bs, st := LookNow(qs, bs, data, |acts|);
  }

  /** The run went on with a stage whose answer shows the word, though nothing read since its
      drain does. */
  ghost predicate StaleAnswer(ps: seq<Port>, acts: seq<Action>, qs: seq<Port>, bs: seq<Action>, st: Stage,
                              tokens: seq<string>, word: string, trimmed: bool) {
    && Run(qs, bs) && ps <= qs && acts <= bs && IsStage(bs, st) && st.drain == |acts|
    && Shows(WaitOf(qs, bs, st), tokens, word, trimmed) && !Contains(Characters(Since(bs, st)), word)
  }

  lemma ChunksMore(acts: seq<Action>, a: Action)
    ensures Chunks(acts + [a]) == Chunks(acts) + if a.Read? && a.result.Bytes? then a.result.chunk else []
  {
    assert (acts + [a])[..|acts|] == acts;
  }

  lemma RestRead(data: string, rest: bytes)
    ensures Chunks([Write(data), Append]) == []
    ensures Chunks([Write(data), Append] + [CheckStopped, Select(Ready), Read(Bytes(rest))] + [Append]) == rest
  {
    hide Chunks;
    ChunksLast([Write(data), Append], 0, 1);
    ChunksLast([Write(data), Append], 0, 2);
    NoChunks();
    assert [Write(data), Append][0..0] == [] && [Write(data), Append][0..2] == [Write(data), Append];
    var some := [Write(data), Append];
    ChunksMore(some, CheckStopped);
    ChunksMore(some + [CheckStopped], Select(Ready));
    ChunksMore(some + [CheckStopped] + [Select(Ready)], Read(Bytes(rest)));
    ChunksMore(some + [CheckStopped] + [Select(Ready)] + [Read(Bytes(rest))], Append);
    assert some + [CheckStopped] + [Select(Ready)] + [Read(Bytes(rest))] + [Append]
        == some + [CheckStopped, Select(Ready), Read(Bytes(rest))] + [Append];
    assert [] + rest + [] == rest;
  }

  lemma NoChunks()
    ensures Chunks([]) == []
  {
  }

  lemma Joined(stale: bytes, word: string, j: nat)
    requires Ascii(word) && 0 < j < |word| && j <= |stale| && Characters(stale[|stale| - j..]) == word[..j]
    ensures Ascii(word[j..]) && Contains(Characters(stale + BytesOf(word[j..])), word)
    ensures !Contains(Characters(BytesOf(word[j..])), word)
  {
    assert forall c | c in word[j..] :: c in word;
    var rest := BytesOf(word[j..]);
    var s := Characters(stale + rest);
    var i := |stale| - j;
    assert s[i..i + |word|] == Characters(stale[i..]) + Characters(rest) == word;
    assert At(s, word, i);
  }

  /** A drain with a chunk in flight leaves the chunk in the buffer. */
  lemma StaleAppended(ps: seq<Port>, acts: seq<Action>, data: string) returns (qs: seq<Port>, bs: seq<Action>)
    requires Run(ps, acts) && ps[|acts|].user.Using? && ps[|acts|].reader.Appending?
    ensures Run(qs, bs) && ps <= qs && bs == acts + [Drain, Write(data), Append]
    ensures qs[|bs|] == ps[|acts|].(buf := InFlight(ps[|acts|]), reader := Top)
  {
    hide Run;
    States(ps, acts);
    qs, bs := DrainAndWrite(ps, acts, data);
    qs, bs := More(qs, bs, Append);
    assert qs[|bs|].buf == [] + ps[|acts|].reader.chunk == ps[|acts|].reader.chunk;
  }

  /** The chunk in flight has the word. */
  lemma WordInFlight(ps: seq<Port>, acts: seq<Action>, data: string, tokens: seq<string>, word: string, trimmed: bool)
    returns (qs: seq<Port>, bs: seq<Action>, st: Stage)
    requires Run(ps, acts) && ps[|acts|].user.Using? && ps[|acts|].reader.Appending?
    requires Solid(word) && word in tokens && Contains(Characters(InFlight(ps[|acts|])), word)
    ensures StaleAnswer(ps, acts, qs, bs, st, tokens, word, trimmed) && st.data == data
  {
    hide Run, IsStage, Contains, Shows, Chunks, WaitOf, Since, InFlight, Solid;
    States(ps, acts);
    NotEmpty(word);
    qs, bs := StaleAppended(ps, acts, data);
    assert bs[|acts| + 1..] == [Write(data), Append];
    RestRead(data, []);
    qs, bs, st := LookNow(qs, bs, data, |acts|);
    OneLook(Characters(InFlight(ps[|acts|])), tokens, word, trimmed);
    assert Characters([]) == "";
  }

  lemma NotEmpty(word: string)
    requires Solid(word)
    ensures word != "" && !Contains("", word)
  {
    NoTaint(word);
  }

  /** The chunk in flight ends in the first j characters of the word, and the reader gets the
      rest. */
  lemma WordBegun(ps: seq<Port>, acts: seq<Action>, data: string, tokens: seq<string>, word: string, trimmed: bool,
                  j: nat)
    returns (qs: seq<Port>, bs: seq<Action>, st: Stage)
    requires Run(ps, acts) && ps[|acts|].user.Using? && ps[|acts|].reader.Appending?
    requires Solid(word) && word in tokens && |word| <= 1024
    requires var stale := InFlight(ps[|acts|]);
      0 < j < |word| && j <= |stale| && Characters(stale[|stale| - j..]) == word[..j]
    ensures StaleAnswer(ps, acts, qs, bs, st, tokens, word, trimmed) && st.data == data
  {
    hide Run, IsStage, Contains, Shows, Chunks, WaitOf, Since, InFlight;
    States(ps, acts);
    var stale := InFlight(ps[|acts|]);
    Joined(stale, word, j);
    var rest := BytesOf(word[j..]);
    qs, bs := StaleAppended(ps, acts, data);
    qs, bs := Receives(qs, bs, rest);
    qs, bs := More(qs, bs, Append);
    assert bs[|acts| + 1..] == [Write(data), Append] + [CheckStopped, Select(Ready), Read(Bytes(rest))] + [Append];
    RestRead(data, rest);
    qs, bs, st := LookNow(qs, bs, data, |acts|);
    OneLook(Characters(stale + rest), tokens, word, trimmed);
  }

  /** A chunk in flight that has or begins the word can supply it. */
  lemma TaintAnswers(ps: seq<Port>, acts: seq<Action>, data: string, tokens: seq<string>, word: string, trimmed: bool)
    returns (qs: seq<Port>, bs: seq<Action>, st: Stage)
    requires Run(ps, acts) && ps[|acts|].user.Using? && Taints(InFlight(ps[|acts|]), word)
    requires Solid(word) && |word| <= 1024 && word in tokens
    ensures StaleAnswer(ps, acts, qs, bs, st, tokens, word, trimmed) && st.data == data
  {
    hide StaleAnswer, Contains, Solid;
    NotEmpty(word);
    NoTaint(word);
    var stale := InFlight(ps[|acts|]);
    if Contains(Characters(stale), word) {
      qs, bs, st := WordInFlight(ps, acts, data, tokens, word, trimmed);
    } else {
      var j: nat :| 0 < j < |word| && j <= |stale| && Characters(stale[|stale| - j..]) == word[..j];
      qs, bs, st := WordBegun(ps, acts, data, tokens, word, trimmed, j);
    }
  }

  /** From any state of any run, a stage can accept a word that was not read since its drain if
      and only if the chunk in flight at the drain has the word or ends in a beginning of it. */
  lemma StaleExact(ps: seq<Port>, acts: seq<Action>, tokens: seq<string>, word: string, trimmed: bool)
    requires Run(ps, acts) && ps[|acts|].user.Using? && Solid(word) && |word| <= 1024 && word in tokens
    ensures (exists qs, bs, st :: StaleAnswer(ps, acts, qs, bs, st, tokens, word, trimmed)) <==>
            Taints(InFlight(ps[|acts|]), word)
  {
    hide Taints, Contains, Shows, Chunks, WaitOf, InFlight;
    if Taints(InFlight(ps[|acts|]), word) {
      var qs, bs, st := TaintAnswers(ps, acts, "", tokens, word, trimmed);
    }
    forall qs, bs, st | StaleAnswer(ps, acts, qs, bs, st, tokens, word, trimmed)
      ensures Taints(InFlight(ps[|acts|]), word)
    {
      FreshOrTainted(qs, bs, st, tokens, word, trimmed);
    }
  }

  lemma Words()
    ensures Solid("OK") && Solid(">") && Solid("+CMGS")
    ensures Contains("OK", "OK") && Contains(">", ">")
  {
    assert At("OK", "OK", 0) && At(">", ">", 0);
  }

  /** The stages of a session up to the prompt, all answered as intended. */
  lemma UpToPrompt(pduHex: string, tpduLen: int, report: bool)
    returns (ps: seq<Port>, acts: seq<Action>, cmee: Stage, cmgf: Stage, cnmi: Option<Stage>, prompt: Stage)
    ensures Run(ps, acts) && ps[|acts|].user.Using? && ps[|acts|].reader.Top?
    ensures var script := Script(pduHex, tpduLen, report);
      && IsStage(acts, cmee) && cmee.data == script[0]
      && IsStage(acts, cmgf) && cmgf.data == script[1] && cmee.last < cmgf.drain
      && (cnmi.Some? <==> report)
      && (report ==> IsStage(acts, cnmi.value) && cnmi.value.data == script[2]
                     && cmgf.last < cnmi.value.drain && cnmi.value.last < prompt.drain)
      && IsStage(acts, prompt) && prompt.data == script[|script| - 2]
      && cmgf.last < prompt.drain && prompt.last < |acts|
    ensures WaitOf(ps, acts, cmgf) == Wait(["OK"], "OK") && WaitOf(ps, acts, prompt) == Wait([">"], ">")
  {
    hide Run, IsStage, WaitOf, Decimal, AtServer.RawStage;
    var script := Script(pduHex, tpduLen, report);
    var ok, mark := BytesOf("OK"), BytesOf(">");
    Started();
    ps, acts, cmee := Exchange([OPENED], [], script[0], ok);
    var qs, bs;
    qs, bs, cmgf := Exchange(ps, acts, script[1], ok);
    StageStays(ps, acts, qs, bs, cmee);
    cnmi := None;
    if report {
      var rs, cs, st := Exchange(qs, bs, script[2], ok);
      StageStays(qs, bs, rs, cs, cmee);
      StageStays(qs, bs, rs, cs, cmgf);
      qs, bs, cnmi := rs, cs, Some(st);
    }
    ps, acts, prompt := Exchange(qs, bs, script[|script| - 2], mark);
    StageStays(qs, bs, ps, acts, cmee);
    StageStays(qs, bs, ps, acts, cmgf);
    if report { StageStays(qs, bs, ps, acts, cnmi.value); }
  }

  lemma Started()
    ensures Run([OPENED], [])
  {
  }

  /** "Sent" can rest on a stale answer: for every PDU and every chunk that has or begins "+CMGS"
      there is a run in which the session counts as sent, although that chunk was read before the
      last drain and nothing read since shows "+CMGS". */
  lemma SentOnStaleReply(pduHex: string, tpduLen: int, report: bool, chunk: bytes)
    returns (ps: seq<Port>, acts: seq<Action>, x: Stages)
    requires 0 < |chunk| <= 1024 && Taints(chunk, "+CMGS")
    ensures Run(ps, acts) && IsSession(acts, x, pduHex, tpduLen, report)
    ensures SentBy(ModemOf(ps, acts, x, pduHex, tpduLen, report))
    ensures Stale(ps, acts, x.reply) == chunk && !Contains(Characters(Since(acts, x.reply)), "+CMGS")
  {
    hide Run, IsStage, WaitOf, Decimal, AtServer.RawStage, Taints, Contains, Since, Shows;
    var os, zs, cmee, cmgf, cnmi, prompt := UpToPrompt(pduHex, tpduLen, report);
    var qs, bs := Receives(os, zs, chunk);
    Words();
    var script := Script(pduHex, tpduLen, report);
    var tokens := ["+CMGS", "ERROR", "+CMS"];
    assert tokens[0] == "+CMGS";
    var reply;
    ps, acts, reply := TaintAnswers(qs, bs, script[|script| - 1], tokens, "+CMGS", true);
    StageStays(os, zs, ps, acts, cmee);
    StageStays(os, zs, ps, acts, cmgf);
    StageStays(os, zs, ps, acts, prompt);
    if report { StageStays(os, zs, ps, acts, cnmi.value); }
    x := Stages(cmee, cmgf, cnmi, prompt, reply);
    OneLook("OK", ["OK", "ERROR"], "OK", true);
    OneLook(">", [">"], ">", false);
  }
}
