/** Go string helpers on Unicode code points: hex, upper-casing, trimming, UTF-8, decimal. */
module Text {
  import opened Bits
  import opened Wrappers

  predicate IsHex(c: char) {
    '0' <= c <= '9' || 'a' <= c <= 'f' || 'A' <= c <= 'F'
  }

  function HexValue(c: char): (v: nat)
    requires IsHex(c)
    ensures v < 16
  {
    if c <= '9' then c as nat - '0' as nat
    else if c <= 'F' then c as nat - 'A' as nat + 10
    else c as nat - 'a' as nat + 10
  }

  /** Bytes of a hex string; None for an odd length or a foreign character. */
  function HexDecode(s: string): (r: Option<bytes>)
    ensures r.Some? ==> |s| == 2 * |r.value|
  {
    if s == "" then Some([])
    else if |s| == 1 || !IsHex(s[0]) || !IsHex(s[1]) then None
    else match HexDecode(s[2..])
    case None => None
    case Some(b) => Some([16 * HexValue(s[0]) + HexValue(s[1])] + b)
  }

  function LowerDigit(v: nat): (c: char)
    requires v < 16
    ensures IsHex(c) && HexValue(c) == v
  {
    if v < 10 then (v + '0' as nat) as char else (v - 10 + 'a' as nat) as char
  }

  function UpperDigit(v: nat): (c: char)
    requires v < 16
    ensures IsHex(c) && HexValue(c) == v && Upper(c) == c
  {
    if v < 10 then (v + '0' as nat) as char else (v - 10 + 'A' as nat) as char
  }

  function HexEncode(b: bytes): string {
    if b == [] then "" else [LowerDigit(b[0] / 16), LowerDigit(b[0] % 16)] + HexEncode(b[1..])
  }

  lemma {:induction false} HexRoundTrip(b: bytes)
    ensures HexDecode(HexEncode(b)) == Some(b)
  {
    if b != [] {
      HexRoundTrip(b[1..]);
      assert HexEncode(b)[2..] == HexEncode(b[1..]);
      assert b == [b[0]] + b[1..];
    }
  }

  const LOWER := "0123456789abcdef"
  const UPPER := "0123456789ABCDEF"

  /** c is the hex digit for v in either case. */
  predicate Spells(c: char, v: int) {
    0 <= v < 16 && (c == LOWER[v] || c == UPPER[v])
  }

  /** The two tables by code point. */
  lemma Tables(v: nat)
    requires v < 16
    ensures |LOWER| == |UPPER| == 16
    ensures LOWER[v] as nat == if v < 10 then 48 + v else 87 + v
    ensures UPPER[v] as nat == if v < 10 then 48 + v else 55 + v
  {
  }

  lemma SpellsValue(c: char, v: int)
    requires Spells(c, v)
    ensures IsHex(c) && HexValue(c) == v
  {
    Tables(v);
  }

  lemma ValueSpells(c: char)
    requires IsHex(c)
    ensures Spells(c, HexValue(c))
  {
    Tables(HexValue(c));
  }

  lemma DigitsWritten(v: nat)
    requires v < 16
    ensures LowerDigit(v) == LOWER[v] && UpperDigit(v) == UPPER[v]
  {
    Tables(v);
  }

  lemma HexStep(s: string)
    requires HexDecode(s).Some? && s != ""
    ensures |s| >= 2 && IsHex(s[0]) && IsHex(s[1]) && HexDecode(s[2..]).Some?
    ensures HexDecode(s).value == [16 * HexValue(s[0]) + HexValue(s[1])] + HexDecode(s[2..]).value
  {
  }

  lemma TwoDigits(a: nat, b: nat)
    requires b < 16
    ensures (16 * a + b) / 16 == a && (16 * a + b) % 16 == b
  {
  }

  /** Octet i of a decoded string is spelled by its digits 2i, worth 16, and 2i + 1. */
  lemma {:induction false} HexDecodeDigits(s: string, i: nat)
    requires HexDecode(s).Some? && i < |HexDecode(s).value|
    ensures |s| == 2 * |HexDecode(s).value|
    ensures Spells(s[2 * i], HexDecode(s).value[i] / 16) && Spells(s[2 * i + 1], HexDecode(s).value[i] % 16)
  {
    hide HexDecode, HexValue, IsHex, Spells;
    HexStep(s);
    if i > 0 {
      HexDecodeDigits(s[2..], i - 1);
    } else {
      ValueSpells(s[0]);
      ValueSpells(s[1]);
      TwoDigits(HexValue(s[0]), HexValue(s[1]));
    }
  }

  /** The string is the digits of the octets, two for each, the one worth 16 first. */
  ghost predicate SpellsAll(s: string, b: bytes) {
    |s| == 2 * |b| && forall i | 0 <= i < |b| :: Spells(s[2 * i], b[i] / 16) && Spells(s[2 * i + 1], b[i] % 16)
  }

  /** A string decodes to exactly the octets that its digits spell. */
  lemma {:induction false} HexExact(s: string, b: bytes)
    ensures HexDecode(s) == Some(b) <==> SpellsAll(s, b)
    decreases |s|
  {
    hide HexValue, IsHex, Spells, HexDecode;
    if HexDecode(s) == Some(b) {
      forall i | 0 <= i < |b| ensures Spells(s[2 * i], b[i] / 16) && Spells(s[2 * i + 1], b[i] % 16) {
        HexDecodeDigits(s, i);
      }
      HexDecodeLength(s);
    }
    if SpellsAll(s, b) {
      if s == "" {
        NoHex();
      } else {
        SpellsRest(s, b);
        HexExact(s[2..], b[1..]);
        SpellsValue(s[0], b[0] / 16);
        SpellsValue(s[1], b[0] % 16);
        HexMore(s[0], s[1], s[2..]);
        assert s == [s[0], s[1]] + s[2..] && b == [b[0]] + b[1..];
      }
    }
  }

  lemma HexDecodeLength(s: string)
    ensures HexDecode(s).Some? ==> |s| == 2 * |HexDecode(s).value|
  {
  }

  lemma NoHex()
    ensures HexDecode("") == Some([])
  {
  }

  lemma SpellsRest(s: string, b: bytes)
    requires SpellsAll(s, b) && s != ""
    ensures b != [] && SpellsAll(s[2..], b[1..]) && Spells(s[0], b[0] / 16) && Spells(s[1], b[0] % 16)
  {
    hide Spells;
    assert Spells(s[2 * 0], b[0] / 16) && Spells(s[2 * 0 + 1], b[0] % 16);
    forall i | 0 <= i < |b| - 1
      ensures Spells(s[2..][2 * i], b[1..][i] / 16) && Spells(s[2..][2 * i + 1], b[1..][i] % 16)
    {
      assert Spells(s[2 * (i + 1)], b[i + 1] / 16) && Spells(s[2 * (i + 1) + 1], b[i + 1] % 16);
    }
  }

  lemma HexMore(a: char, b: char, s: string)
    requires HexDecode(s).Some? && IsHex(a) && IsHex(b)
    ensures HexDecode([a, b] + s) == Some([16 * HexValue(a) + HexValue(b)] + HexDecode(s).value)
  {
    assert ([a, b] + s)[2..] == s;
  }

  /** Octet i is written as two lower-case digits, the high one first. */
  lemma {:induction false} HexEncodeDigits(b: bytes, i: nat)
    requires i < |b|
    ensures |HexEncode(b)| == 2 * |b|
    ensures HexEncode(b)[2 * i] == LOWER[b[i] / 16] && HexEncode(b)[2 * i + 1] == LOWER[b[i] % 16]
  {
    hide LowerDigit;
    DigitsWritten(b[0] / 16);
    DigitsWritten(b[0] % 16);
    if |b| > 1 { HexEncodeDigits(b[1..], if i > 0 then i - 1 else 0); }
  }

  /** A string decodes exactly when it is an even number of hex digits. */
  lemma {:induction false} HexAccepts(s: string)
    ensures HexDecode(s).Some? <==> |s| % 2 == 0 && forall c | c in s :: IsHex(c)
  {
    if |s| >= 2 {
      HexAccepts(s[2..]);
      assert s == [s[0], s[1]] + s[2..];
    } else if |s| == 1 {
      assert s[0] in s;
    }
  }

  /** Upper-casing of a code point, exact for ASCII and for the one other letter (U+017F)
      whose upper case is an ASCII letter of the words the AT code looks for. */
  function Upper(c: char): char {
    if 'a' <= c <= 'z' then (c as nat - 32) as char
    else if c as nat == 0x17F then 'S'
    else c
  }

  function ToUpper(s: string): (r: string)
    ensures |r| == |s|
  {
    seq(|s|, i requires 0 <= i < |s| => Upper(s[i]))
  }

  const LOWER_LETTERS := "abcdefghijklmnopqrstuvwxyz"
  const UPPER_LETTERS := "ABCDEFGHIJKLMNOPQRSTUVWXYZ"

  lemma Letters(i: nat)
    requires i < 26
    ensures |LOWER_LETTERS| == |UPPER_LETTERS| == 26
    ensures LOWER_LETTERS[i] as nat == 97 + i && UPPER_LETTERS[i] as nat == 65 + i
  {
  }

  /** Letter i of the small alphabet becomes letter i of the large one. */
  lemma UpperOfLetter(i: nat)
    requires i < 26
    ensures |LOWER_LETTERS| == |UPPER_LETTERS| == 26 && Upper(LOWER_LETTERS[i]) == UPPER_LETTERS[i]
  {
    Letters(i);
  }

  /** Apart from those letters, only U+017F changes, to an S. */
  lemma UpperOfOther(c: char)
    ensures c in LOWER_LETTERS || Upper(c) == if c as nat == 0x17F then 'S' else c
  {
    if 'a' <= c <= 'z' {
      var i := c as nat - 97;
      Letters(i);
      assert LOWER_LETTERS[i] == c;
    }
  }

  lemma {:induction false} UpperKeepsHex(s: string)
    requires HexDecode(s).Some?
    ensures HexDecode(ToUpper(s)) == HexDecode(s)
  {
    if s != "" {
      UpperKeepsHex(s[2..]);
      assert ToUpper(s)[2..] == ToUpper(s[2..]);
    }
  }

  /** unicode.IsSpace. */
  predicate IsSpace(c: char) {
    var v := c as nat;
    0x09 <= v <= 0x0D || v == 0x20 || v == 0x85 || v == 0xA0 || v == 0x1680 || 0x2000 <= v <= 0x200A
    || v == 0x2028 || v == 0x2029 || v == 0x202F || v == 0x205F || v == 0x3000
  }

  /** The characters of Unicode's White_Space property, one by one. */
  lemma SpacesListed(c: char)
    ensures IsSpace(c) <==>
            c as nat in {9, 10, 11, 12, 13, 32, 0x85, 0xA0, 0x1680, 0x2000, 0x2001, 0x2002, 0x2003, 0x2004, 0x2005,
                         0x2006, 0x2007, 0x2008, 0x2009, 0x200A, 0x2028, 0x2029, 0x202F, 0x205F, 0x3000}
  {
  }

  function TrimLeftSpace(s: string): string {
    if s != "" && IsSpace(s[0]) then TrimLeftSpace(s[1..]) else s
  }

  function TrimRightSpace(s: string): string {
    if s != "" && IsSpace(s[|s| - 1]) then TrimRightSpace(s[..|s| - 1]) else s
  }

  function TrimSpace(s: string): string {
    TrimRightSpace(TrimLeftSpace(s))
  }

  /** Trimming changes a string exactly when it starts or ends with a space. */
  lemma {:induction false} TrimSpaceMeaning(s: string)
    ensures TrimSpace(s) == s <==> s == "" || (!IsSpace(s[0]) && !IsSpace(s[|s| - 1]))
  {
    TrimLeftShrinks(s);
    TrimRightShrinks(TrimLeftSpace(s));
  }

  predicate AllSpaces(s: string) {
    forall c | c in s :: IsSpace(c)
  }

  /** Trimming takes spaces off both ends and nothing else. */
  lemma TrimSpaceExact(s: string) returns (left: string, right: string)
    ensures s == left + TrimSpace(s) + right && AllSpaces(left) && AllSpaces(right)
    ensures var t := TrimSpace(s); t == "" || (!IsSpace(t[0]) && !IsSpace(t[|t| - 1]))
  {
    left := LeftSpaces(s);
    right := RightSpaces(TrimLeftSpace(s));
    var m, t := TrimLeftSpace(s), TrimSpace(s);
    if t != "" { assert t[0] == m[0]; }
  }

  lemma {:induction false} LeftSpaces(s: string) returns (left: string)
    ensures s == left + TrimLeftSpace(s) && AllSpaces(left)
    ensures TrimLeftSpace(s) == "" || !IsSpace(TrimLeftSpace(s)[0])
  {
    left := "";
    if s != "" && IsSpace(s[0]) {
      left := LeftSpaces(s[1..]);
      left := [s[0]] + left;
    }
  }

  lemma {:induction false} RightSpaces(s: string) returns (right: string)
    ensures s == TrimRightSpace(s) + right && AllSpaces(right)
    ensures TrimRightSpace(s) == "" || !IsSpace(TrimRightSpace(s)[|TrimRightSpace(s)| - 1])
  {
    right := "";
    if s != "" && IsSpace(s[|s| - 1]) {
      right := RightSpaces(s[..|s| - 1]);
      right := right + [s[|s| - 1]];
    }
  }

  lemma {:induction false} TrimLeftShrinks(s: string)
    ensures |TrimLeftSpace(s)| <= |s| && (s != "" && IsSpace(s[0]) ==> |TrimLeftSpace(s)| < |s|)
  {
    if s != "" && IsSpace(s[0]) { TrimLeftShrinks(s[1..]); }
  }

  lemma {:induction false} TrimRightShrinks(s: string)
    ensures |TrimRightSpace(s)| <= |s| && (s != "" && IsSpace(s[|s| - 1]) ==> |TrimRightSpace(s)| < |s|)
  {
    if s != "" && IsSpace(s[|s| - 1]) { TrimRightShrinks(s[..|s| - 1]); }
  }

  predicate IsCrLf(c: char) { c == '\r' || c == '\n' }

  /** strings.TrimRight(s, "\r\n"). */
  function TrimCrLf(s: string): (r: string)
    ensures r <= s && (r == "" || !IsCrLf(r[|r| - 1]))
    ensures forall i | |r| <= i < |s| :: IsCrLf(s[i])
  {
    if s != "" && IsCrLf(s[|s| - 1]) then TrimCrLf(s[..|s| - 1]) else s
  }

  /** Trimming takes the CR and LF off the end, all of them, and nothing else. */
  lemma TrimCrLfExact(s: string, t: string)
    ensures TrimCrLf(s) == t <==>
            && (exists tail :: s == t + tail && forall c | c in tail :: c in "\r\n")
            && (t == "" || t[|t| - 1] !in "\r\n")
  {
    if TrimCrLf(s) == t {
      var tail := s[|t|..];
      assert s == t + tail;
      forall c | c in tail ensures c in "\r\n" {
        var i :| 0 <= i < |tail| && tail[i] == c;
        assert IsCrLf(s[|t| + i]);
      }
    }
    if tail :| s == t + tail && forall c | c in tail :: c in "\r\n" {
      if t == "" || t[|t| - 1] !in "\r\n" {
        TrimCrLfAppended(t, tail);
        assert TrimCrLf(t) == t;
      }
    }
  }

  lemma {:induction false} TrimCrLfAppended(s: string, tail: string)
    requires forall c | c in tail :: IsCrLf(c)
    ensures TrimCrLf(s + tail) == TrimCrLf(s)
    decreases |tail|
  {
    if tail == "" {
      assert s + tail == s;
    } else {
      var n := |tail| - 1;
      assert tail[n] in tail;
      assert (s + tail)[..|s| + n] == s + tail[..n];
      TrimCrLfAppended(s, tail[..n]);
    }
  }

  predicate At(s: string, t: string, i: nat) {
    i + |t| <= |s| && s[i..i + |t|] == t
  }

  /** strings.Contains. */
  predicate Contains(s: string, t: string) {
    exists i :: 0 <= i <= |s| && At(s, t, i)
  }

  /** A string contains another exactly when something before and after it makes it up. */
  lemma ContainsExact(s: string, t: string)
    ensures Contains(s, t) <==> exists left, right :: s == left + t + right
  {
    if i: nat :| i <= |s| && At(s, t, i) {
      assert s == s[..i] + t + s[i + |t|..];
    }
    if left, right :| s == left + t + right {
      assert s[|left|..|left| + |t|] == t;
      assert At(s, t, |left|);
    }
  }

  function EncodeChar(c: char): (r: bytes)
    ensures 1 <= |r| <= 4
  {
    var v := c as nat;
    if v < 0x80 then [v]
    else if v < 0x800 then [0xC0 + v / 0x40, 0x80 + v % 0x40]
    else if v < 0x1_0000 then [0xE0 + v / 0x1000, 0x80 + v / 0x40 % 0x40, 0x80 + v % 0x40]
    else [0xF0 + v / 0x4_0000, 0x80 + v / 0x1000 % 0x40, 0x80 + v / 0x40 % 0x40, 0x80 + v % 0x40]
  }

  /** The octet sequences of section 3 of RFC 3629: the lead octet tells the length, the others
      carry six bits each, high bits first. */
  lemma EncodeCharExact(c: char)
    ensures var v, r: seq<int> := c as nat, EncodeChar(c);
      && (v < 0x80 ==> r == [v])
      && (0x80 <= v < 0x800 ==>
            |r| == 2 && 0xC0 <= r[0] < 0xE0 && 0x80 <= r[1] < 0xC0 && v == (r[0] - 0xC0) * 64 + (r[1] - 0x80))
      && (0x800 <= v < 0x1_0000 ==>
            && |r| == 3 && 0xE0 <= r[0] < 0xF0 && 0x80 <= r[1] < 0xC0 && 0x80 <= r[2] < 0xC0
            && v == (r[0] - 0xE0) * 4096 + (r[1] - 0x80) * 64 + (r[2] - 0x80))
      && (0x1_0000 <= v ==>
            && |r| == 4 && 0xF0 <= r[0] < 0xF8 && 0x80 <= r[1] < 0xC0 && 0x80 <= r[2] < 0xC0 && 0x80 <= r[3] < 0xC0
            && v == (r[0] - 0xF0) * 0x4_0000 + (r[1] - 0x80) * 4096 + (r[2] - 0x80) * 64 + (r[3] - 0x80))
  {
    Spelled(c);
  }

  function Utf8(s: string): bytes {
    if s == "" then [] else EncodeChar(s[0]) + Utf8(s[1..])
  }

  predicate Ascii(s: string) {
    forall c | c in s :: c as nat < 0x80
  }

  lemma {:induction false} AsciiLength(s: string)
    requires Ascii(s)
    ensures |Utf8(s)| == |s| && forall i | 0 <= i < |s| :: Utf8(s)[i] == s[i] as nat
  {
    if s != "" {
      assert s == [s[0]] + s[1..];
      assert s[0] in s;
      forall c | c in s[1..] ensures c as nat < 0x80 { assert c in s; }
      AsciiLength(s[1..]);
    }
  }

  lemma CharFromFront(c: char, x: bytes, d: char, y: bytes)
    requires EncodeChar(c) + x == EncodeChar(d) + y
    ensures c == d && x == y
  {
    var e, f := EncodeChar(c), EncodeChar(d);
    assert e[0] == (e + x)[0] == (f + y)[0] == f[0];
    assert |e| == |f|;
    assert e == (e + x)[..|e|] == (f + y)[..|f|] == f;
    assert x == (e + x)[|e|..] == (f + y)[|f|..] == y;
    SameChar(c, d);
  }

  /** The code point that a UTF-8 sequence spells. */
  function SpelledBy(r: seq<int>): int {
    if |r| == 1 then r[0]
    else if |r| == 2 then 0x40 * r[0] + r[1] - 0x3080
    else if |r| == 3 then 0x1000 * r[0] + 0x40 * r[1] + r[2] - 0xE_2080
    else if |r| == 4 then 0x4_0000 * r[0] + 0x1000 * r[1] + 0x40 * r[2] + r[3] - 0x3C8_2080
    else 0
  }

  lemma Spelled(c: char)
    ensures SpelledBy(EncodeChar(c)) == c as int
  {
    var v := c as nat;
    Sixty(v);
    Sixty(v / 0x40);
    Sixty(v / 0x40 / 0x40);
    assert v / 0x1000 == v / 0x40 / 0x40 && v / 0x4_0000 == v / 0x40 / 0x40 / 0x40;
  }

  lemma Sixty(v: nat)
    ensures v == 0x40 * (v / 0x40) + v % 0x40
  {
  }

  lemma SameChar(c: char, d: char)
    requires EncodeChar(c) == EncodeChar(d)
    ensures c == d
  {
    hide EncodeChar;
    Spelled(c);
    Spelled(d);
  }

  /** Different texts have different encodings. */
  lemma {:induction false} Utf8Injective(s: string, t: string)
    requires Utf8(s) == Utf8(t)
    ensures s == t
  {
    hide EncodeChar;
    if s != "" && t != "" {
      CharFromFront(s[0], Utf8(s[1..]), t[0], Utf8(t[1..]));
      Utf8Injective(s[1..], t[1..]);
      assert s == [s[0]] + s[1..] && t == [t[0]] + t[1..];
    }
  }

  function Decimal(n: int): string {
    if n < 0 then "-" + Digits(-n) else Digits(n)
  }

  function Digits(n: nat): string {
    if n < 10 then [UpperDigit(n)] else Digits(n / 10) + [UpperDigit(n % 10)]
  }

  /** The number a decimal numeral stands for. */
  function Value(s: string): int {
    if s != "" && s[0] == '-' then -Natural(s[1..]) else Natural(s)
  }

  function Natural(s: string): int {
    if s == "" then 0 else 10 * Natural(s[..|s| - 1]) + (s[|s| - 1] as int - '0' as int)
  }

  lemma {:induction false} DigitsAreDigits(n: nat)
    ensures forall c | c in Digits(n) :: '0' <= c <= '9'
    ensures Digits(n) != "" && Natural(Digits(n)) == n
    ensures n == 0 <==> Digits(n)[0] == '0'
    ensures n == 0 ==> Digits(n) == "0"
  {
    if n >= 10 {
      DigitsAreDigits(n / 10);
      assert Digits(n)[..|Digits(n)| - 1] == Digits(n / 10);
    } else {
      assert Digits(n)[..0] == "";
    }
  }

  /** A number written in decimal reads back; the numeral is digits after a sign that only negative
      numbers have, without leading zeros. */
  lemma DecimalReads(n: int)
    ensures Value(Decimal(n)) == n
    ensures Decimal(0) == "0" && (n > 0 ==> Decimal(n)[0] != '0')
    ensures n < 0 ==> |Decimal(n)| >= 2 && Decimal(n)[0] == '-' && Decimal(n)[1] != '0'
    ensures forall i | 0 <= i < |Decimal(n)| :: '0' <= Decimal(n)[i] <= '9' || (i == 0 && n < 0 && Decimal(n)[i] == '-')
  {
    var m := if n < 0 then -n else n;
    DigitsAreDigits(m);
    assert Digits(m)[0] in Digits(m);
    assert forall i | 0 <= i < |Digits(m)| :: Digits(m)[i] in Digits(m);
    if n < 0 {
      assert Decimal(n)[1..] == Digits(m);
      assert forall i | 1 <= i < |Decimal(n)| :: Decimal(n)[i] == Digits(m)[i - 1];
    }
  }
}
