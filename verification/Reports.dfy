/** Delivery reports: finding the status in what the modem printed. */
module Reports {
  import opened Bits
  import opened Wrappers
  import opened Text
  import opened Pdu

  /** Length of the word at the front of a string. */
  function WordLength(s: string): (n: nat)
    ensures n <= |s| && (n < |s| ==> IsSpace(s[n])) && forall i | 0 <= i < n :: !IsSpace(s[i])
  {
    if s == "" || IsSpace(s[0]) then 0 else 1 + WordLength(s[1..])
  }

  /** strings.Fields. */
  function Fields(s: string): seq<string>
    decreases |s|
  {
    TrimLeftShrinks(s);
    var t := TrimLeftSpace(s);
    if t == "" then [] else
    LeadIsWord(s);
    [t[..WordLength(t)]] + Fields(t[WordLength(t)..])
  }

  /** What is left after trimming starts with a word. */
  lemma {:induction false} LeadIsWord(s: string)
    requires TrimLeftSpace(s) != ""
    ensures WordLength(TrimLeftSpace(s)) > 0
  {
    if IsSpace(s[0]) { LeadIsWord(s[1..]); }
  }

  lemma {:induction false} SkipSpaces(pre: string, s: string)
    requires AllSpaces(pre)
    ensures TrimLeftSpace(pre + s) == TrimLeftSpace(s)
    decreases |pre|
  {
    if pre == "" {
      assert pre + s == s;
    } else {
      assert pre[0] in pre && (pre + s)[1..] == pre[1..] + s;
      forall c | c in pre[1..] ensures IsSpace(c) { assert c in pre; }
      SkipSpaces(pre[1..], s);
    }
  }

  lemma WordEnds(w: string, rest: string)
    requires forall i | 0 <= i < |w| :: !IsSpace(w[i])
    requires rest == "" || IsSpace(rest[0])
    ensures WordLength(w + rest) == |w|
  {
    assert forall i | 0 <= i < |w| :: (w + rest)[i] == w[i];
    assert rest != "" ==> (w + rest)[|w|] == rest[0];
  }

  /** The fields are the words between spaces, in order. */
  lemma FieldsOfWord(pre: string, w: string, rest: string)
    requires AllSpaces(pre) && w != "" && forall i | 0 <= i < |w| :: !IsSpace(w[i])
    requires rest == "" || IsSpace(rest[0])
    ensures Fields(pre + w + rest) == [w] + Fields(rest) && Fields(pre) == []
  {
    assert pre + w + rest == pre + (w + rest);
    SkipSpaces(pre, w + rest);
    SkipSpaces(pre, "");
    assert pre + "" == pre;
    WordEnds(w, rest);
    assert (w + rest)[..|w|] == w && (w + rest)[|w|..] == rest;
  }

  /** The octets of a token; None unless it is a non-empty, even number of hex digits. */
  function Octets(tok: string): (r: Option<bytes>)
    ensures r.Some? ==> r.value != []
  {
    if |tok| == 0 || |tok| % 2 != 0 then None else HexDecode(tok)
  }

  /** A token stands for the octets it spells in hex, unless it is empty. */
  lemma OctetsExact(tok: string, b: bytes)
    ensures Octets(tok) == Some(b) <==> b != [] && SpellsAll(tok, b)
  {
    hide HexDecode, Spells;
    HexExact(tok, b);
  }

  /** r is the first of the longest octet strings among the tokens. */
  ghost predicate FirstLongest(toks: seq<string>, r: Option<bytes>) {
    match r
    case None => forall i | 0 <= i < |toks| :: Octets(toks[i]).None?
    case Some(b) =>
      exists i :: 0 <= i < |toks| && Octets(toks[i]) == Some(b)
        && (forall j | 0 <= j < |toks| && Octets(toks[j]).Some? :: |Octets(toks[j]).value| <= |b|)
        && (forall j | 0 <= j < i && Octets(toks[j]).Some? :: |Octets(toks[j]).value| < |b|)
  }

  /** The scan for the longest token. */
  method Longest(toks: seq<string>) returns (best: Option<bytes>)
    ensures FirstLongest(toks, best)
  {
    hide Octets;
    best := None;
    var i := 0;
    while i < |toks|
      invariant 0 <= i <= |toks| && FirstLongest(toks[..i], best)
    {
      var b := Octets(toks[i]);
      LongestGrows(toks, i, best);
      if b.Some? && |b.value| > (if best.Some? then |best.value| else 0) { best := b; }
      i := i + 1;
    }
    assert toks[..i] == toks;
  }

  lemma LongestGrows(toks: seq<string>, i: nat, best: Option<bytes>)
    requires i < |toks| && FirstLongest(toks[..i], best)
    ensures var b := Octets(toks[i]);
      FirstLongest(toks[..i + 1],
                   if b.Some? && |b.value| > (if best.Some? then |best.value| else 0) then b else best)
  {
    hide HexDecode;
    var init, now := toks[..i], toks[..i + 1];
    assert forall j | 0 <= j < i :: init[j] == now[j] == toks[j];
    assert now[i] == toks[i];
    var b := Octets(toks[i]);
    if b.Some? && |b.value| > (if best.Some? then |best.value| else 0) {
      assert Octets(now[i]) == b;
    } else if best.Some? {
      var k :| 0 <= k < |init| && Octets(init[k]) == best
        && (forall j | 0 <= j < |init| && Octets(init[j]).Some? :: |Octets(init[j]).value| <= |best.value|)
        && (forall j | 0 <= j < k && Octets(init[j]).Some? :: |Octets(init[j]).value| < |best.value|);
      assert Octets(now[k]) == best;
    }
  }

  // ----- The report itself (section 9.2.2.3 of 3GPP TS 23.040) -----

  /** A status report behind an SMSC header, with its two time stamps. */
  datatype Report = Report(smsc: bytes, first: byte, mr: byte, toa: byte, digits: seq<nibble>, filler: nibble,
                           scts: bytes, discharge: bytes, status: byte, tail: bytes)
  {
    ghost predicate Valid() { |smsc| < 256 && |digits| < 256 && |scts| == 7 && |discharge| == 7 }
  }

  function EncodeReport(x: Report): bytes
    requires x.Valid()
  {
    [|x.smsc|] + x.smsc + [x.first, x.mr, |x.digits|, x.toa] + SemiOctets(x.digits, x.filler)
    + x.scts + x.discharge + [x.status] + x.tail
  }

  /** The status octet; None when the octets end before it. */
  function StatusOf(p: bytes): Option<byte> {
    if p == [] || SmscLength(p) + 3 >= |p| then None else
    var i := SmscLength(p) + 19 + (AddressLength(p) + 1) / 2;
    if i >= |p| then None else Some(p[i])
  }

  lemma StatusEncoded(x: Report)
    requires x.Valid()
    ensures StatusOf(EncodeReport(x)) == Some(x.status)
  {
    hide SemiOctets;
    var p := EncodeReport(x);
    var k, n := |x.smsc|, (|x.digits| + 1) / 2;
    assert p[0] == k && p[k + 3] == |x.digits| && p[k + 19 + n] == x.status;
  }

  lemma ReportSpelled(p: bytes) returns (x: Report)
    requires StatusOf(p).Some?
    ensures x.Valid() && EncodeReport(x) == p && Some(x.status) == StatusOf(p)
  {
    hide SemiOctets, Halves;
    var k, len := SmscLength(p), AddressLength(p);
    var n := (len + 1) / 2;
    var addr := p[k + 5..k + 5 + n];
    var ds := Halves(addr);
    x := Report(p[1..k + 1], p[k + 1], p[k + 2], p[k + 4], ds[..len], if len % 2 == 1 then ds[len] else 15,
                p[k + 5 + n..k + 12 + n], p[k + 12 + n..k + 19 + n], p[k + 19 + n], p[k + 20 + n..]);
    SemiOctetsOfHalves(addr, len, x.filler);
    ReportPieces(p, k, n);
  }

  lemma ReportPieces(p: bytes, k: nat, n: nat)
    requires k + 19 + n < |p|
    ensures p == [p[0]] + p[1..k + 1] + [p[k + 1], p[k + 2], p[k + 3], p[k + 4]] + p[k + 5..k + 5 + n]
                 + p[k + 5 + n..k + 12 + n] + p[k + 12 + n..k + 19 + n] + [p[k + 19 + n]] + p[k + 20 + n..]
  {
  }

  /** The status read is st exactly when the octets are a status report with status st. */
  lemma StatusExact(p: bytes, st: byte)
    ensures StatusOf(p) == Some(st) <==> exists x: Report :: x.Valid() && p == EncodeReport(x) && x.status == st
  {
    hide EncodeReport, StatusOf;
    if StatusOf(p) == Some(st) { var x := ReportSpelled(p); }
    if x: Report :| x.Valid() && p == EncodeReport(x) && x.status == st { StatusEncoded(x); }
  }

  datatype Label = Delivered | InTransit | NotDelivered

  /** What the best token says: its status octet and the label for it. */
  function Reading(best: Option<bytes>): Option<(byte, Label)> {
    if best.None? || StatusOf(best.value).None? then None else
    var st := StatusOf(best.value).value;
    Some((st, if st == 0 then Delivered else if st < 0x20 then InTransit else NotDelivered))
  }

  /** What is logged for a +CDS line: the status of the longest token, if it has one. */
  method DecodeCDS(line: string) returns (r: Option<(byte, Label)>)
    ensures exists best :: FirstLongest(Fields(line), best) && r == Reading(best)
  {
    hide Fields, FirstLongest;
    var best := Longest(Fields(line));
    if best.None? { return None; }
    var p := best.value;
    if |p| == 0 { return None; }
    var i := 1 + SmscLength(p);
    i := i + 2;
    if i >= |p| { return None; }
    var raLen: nat := p[i];
    assert raLen == AddressLength(p);
    i := i + 1 + 1 + (raLen + 1) / 2;
    i := i + 7 + 7;
    if i >= |p| { return None; }
    var st := p[i];
    return Some((st, if st == 0x00 then Delivered else if st < 0x20 then InTransit else NotDelivered));
  }

  /** There is only one first longest octet string. */
  lemma FirstLongestUnique(toks: seq<string>, a: Option<bytes>, b: Option<bytes>)
    requires FirstLongest(toks, a) && FirstLongest(toks, b)
    ensures a == b
  {
    hide Octets;
    if a.Some? && b.Some? {
      var i :| 0 <= i < |toks| && Octets(toks[i]) == a
        && (forall j | 0 <= j < |toks| && Octets(toks[j]).Some? :: |Octets(toks[j]).value| <= |a.value|)
        && (forall j | 0 <= j < i && Octets(toks[j]).Some? :: |Octets(toks[j]).value| < |a.value|);
      var k :| 0 <= k < |toks| && Octets(toks[k]) == b
        && (forall j | 0 <= j < |toks| && Octets(toks[j]).Some? :: |Octets(toks[j]).value| <= |b.value|)
        && (forall j | 0 <= j < k && Octets(toks[j]).Some? :: |Octets(toks[j]).value| < |b.value|);
      assert i == k;
    }
  }

  /** A report printed as one token that is longer than every other hex token is found, and its
      status is what is read. */
  lemma ReportIsFound(line: string, i: nat, x: Report, best: Option<bytes>)
    requires x.Valid() && i < |Fields(line)| && Octets(Fields(line)[i]) == Some(EncodeReport(x))
    requires forall j | 0 <= j < |Fields(line)| && j != i && Octets(Fields(line)[j]).Some? ::
      |Octets(Fields(line)[j]).value| < |EncodeReport(x)|
    requires FirstLongest(Fields(line), best)
    ensures best == Some(EncodeReport(x)) && Reading(best).Some? && Reading(best).value.0 == x.status
    ensures Reading(best).value.1 == if x.status == 0 then Delivered
                                     else if 1 <= x.status <= 31 then InTransit else NotDelivered
  {
    hide Fields, Octets, EncodeReport, StatusOf;
    StatusEncoded(x);
    assert FirstLongest(Fields(line), Some(EncodeReport(x)));
    FirstLongestUnique(Fields(line), best, Some(EncodeReport(x)));
  }
}
