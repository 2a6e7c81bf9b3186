/** The string escaper of bench/src/compare.rs against section 7 of RFC 8259. */
module Json {
  import opened Wrappers

  // ----- Escaping -----

  function Hex(d: nat): char
    requires d < 16
  {
    if d < 10 then '0' + d as char else 'a' + (d - 10) as char
  }

  function EscapeChar(c: char): string {
    if c == '"' then ['\\', '"']
    else if c == '\\' then ['\\', '\\']
    else if c == '\n' then ['\\', 'n']
    else if c == '\r' then ['\\', 'r']
    else if c == '\t' then ['\\', 't']
    else if (c as int) < 0x20 then ['\\', 'u', '0', '0', Hex(c as int / 16), Hex(c as int % 16)]
    else [c]
  }

  function Escape(s: string): string { if s == "" then "" else Escape(s[..|s| - 1]) + EscapeChar(s[|s| - 1]) }

  method JsonEscape(s: string) returns (out: string)
    ensures out == Escape(s)
  {
    out := "";
    for i := 0 to |s|
      invariant out == Escape(s[..i])
    {
      assert s[..i + 1][..i] == s[..i];
      match s[i]
      case '"' => out := out + ['\\', '"'];
      case '\\' => out := out + ['\\', '\\'];
      case '\n' => out := out + ['\\', 'n'];
      case '\r' => out := out + ['\\', 'r'];
      case '\t' => out := out + ['\\', 't'];
      case c =>
        if (c as int) < 0x20 {
          out := out + ['\\', 'u', '0', '0', Hex(c as int / 16), Hex(c as int % 16)];
        } else {
          out := out + [c];
        }
    }
    assert s[..|s|] == s;
  }

  // ----- Reading a JSON string -----

  function HexValue(c: char): Option<nat> {
    if '0' <= c <= '9' then Some(c as int - '0' as int)
    else if 'a' <= c <= 'f' then Some(c as int - 'a' as int + 10)
    else if 'A' <= c <= 'F' then Some(c as int - 'A' as int + 10)
    else None
  }

  /** `unescaped`: any character but the quotation mark, the reverse solidus and the control characters. */
  predicate Unescaped(c: char) { c as int >= 0x20 && c != '"' && c != '\\' }

  /** The character after a reverse solidus, when it stands for one by itself. */
  function Short(c: char): Option<char> {
    if c == '"' || c == '\\' || c == '/' then Some(c)
    else if c == 'b' then Some(8 as char)
    else if c == 'f' then Some(12 as char)
    else if c == 'n' then Some('\n')
    else if c == 'r' then Some('\r')
    else if c == 't' then Some('\t')
    else None
  }

  function Unicode(s: string): Option<nat>
    requires |s| == 4
  {
    var a, b, c, d := HexValue(s[0]), HexValue(s[1]), HexValue(s[2]), HexValue(s[3]);
    if a.None? || b.None? || c.None? || d.None? then None
    else Some(((a.value * 16 + b.value) * 16 + c.value) * 16 + d.value)
  }

  datatype Read = Read(text: string, rest: string)

  /** One `char` of the grammar: what it stands for and what follows it. Surrogates pair up to one character. */
  function ReadChar(s: string): Option<Read>
    requires s != ""
  {
    if Unescaped(s[0]) then Some(Read([s[0]], s[1..]))
    else if s[0] != '\\' || |s| < 2 then None
    else if Short(s[1]).Some? then Some(Read([Short(s[1]).value], s[2..]))
    else if s[1] != 'u' || |s| < 6 || Unicode(s[2..6]).None? then None
    else
      var u := Unicode(s[2..6]).value;
      if u < 0xd800 || 0xe000 <= u < 0x1_0000 then Some(Read([u as char], s[6..])) else ReadPair(u, s[6..])
  }

  function ReadPair(high: nat, s: string): Option<Read> {
    if high >= 0xdc00 || |s| < 6 || s[0] != '\\' || s[1] != 'u' || Unicode(s[2..6]).None? then None
    else
      var low := Unicode(s[2..6]).value;
      if high < 0xd800 || !(0xdc00 <= low < 0xe000) then None
      else Some(Read([(0x1_0000 + (high - 0xd800) * 0x400 + (low - 0xdc00)) as char], s[6..]))
  }

  /** The rest of a string after its opening quotation mark, up to the closing one. */
  function ReadBody(s: string): Option<Read>
    decreases |s|
  {
    if s == "" then None
    else if s[0] == '"' then Some(Read("", s[1..]))
    else
      var c := ReadChar(s);
      if c.None? || |c.value.rest| >= |s| then None
      else
        var more := ReadBody(c.value.rest);
        if more.None? then None else Some(Read(c.value.text + more.value.text, more.value.rest))
  }

  // ----- What the escapes stand for, by their codes -----

  /** The escapes of one character after the reverse solidus, as section 7 lists them, and no others. */
  lemma ShortEscapesAre()
    ensures forall c :: c in [0x22, 0x5c, 0x2f] ==> Short(c as char) == Some(c as char)
    ensures Short(0x62 as char) == Some(0x08 as char) && Short(0x66 as char) == Some(0x0c as char)
    ensures Short(0x6e as char) == Some(0x0a as char) && Short(0x72 as char) == Some(0x0d as char)
    ensures Short(0x74 as char) == Some(0x09 as char)
    ensures forall c :: Short(c).Some? ==> c as int in [0x22, 0x5c, 0x2f, 0x62, 0x66, 0x6e, 0x72, 0x74]
  {}

  /** The digits stand for their places, in either case, */
  lemma DigitsRead(d: nat)
    requires d < 16
    ensures HexValue("0123456789abcdef"[d]) == HexValue("0123456789ABCDEF"[d]) == Some(d)
  {}

  function FourDigits(n: nat): string
    requires n < 0x1_0000
  {
    [Hex(n / 16 / 16 / 16), Hex(n / 16 / 16 % 16), Hex(n / 16 % 16), Hex(n % 16)]
  }

  /** and four of them for a number below 2^16. */
  lemma FourDigitsRead(n: nat)
    requires n < 0x1_0000
    ensures |FourDigits(n)| == 4 && Unicode(FourDigits(n)) == Some(n)
  {
    var m := n / 16;
    var l := m / 16;
    DigitsCombine(l / 16, l % 16, m % 16, n % 16);
  }

  lemma DigitsCombine(a: nat, b: nat, c: nat, d: nat)
    requires a < 16 && b < 16 && c < 16 && d < 16
    ensures Unicode([Hex(a), Hex(b), Hex(c), Hex(d)]) == Some(((a * 16 + b) * 16 + c) * 16 + d)
  {
    HexReads(a);
    HexReads(b);
    HexReads(c);
    HexReads(d);
  }

  function Escaped(n: nat): string
    requires n < 0x1_0000
  {
    ['\\', 'u'] + FourDigits(n)
  }

  lemma EscapedCode(n: nat, tail: string)
    requires n < 0x1_0000
    ensures var s := Escaped(n) + tail;
      |s| >= 6 && s[0] == '\\' && s[1] == 'u' && Unicode(s[2..6]) == Some(n) && s[6..] == tail
  {
    FourDigitsRead(n);
    var s := Escaped(n) + tail;
    assert s[2..6] == FourDigits(n) && s[6..] == tail;
  }

  predicate IsSurrogate(n: nat) { 0xd800 <= n < 0xe000 }

  /** Any character below 2^16 may be written as its code; */
  lemma EscapedReads(n: nat, tail: string)
    requires n < 0x1_0000 && !IsSurrogate(n)
    ensures ReadChar(Escaped(n) + tail) == Some(Read([n as char], tail))
  {
    EscapedCode(n, tail);
  }

  /** any above as a high and a low surrogate; */
  lemma PairReads(n: nat, tail: string)
    requires 0x1_0000 <= n < 0x11_0000
    ensures var m := n - 0x1_0000;
      ReadChar(Escaped(0xd800 + m / 0x400) + (Escaped(0xdc00 + m % 0x400) + tail)) == Some(Read([n as char], tail))
  {
    var m := n - 0x1_0000;
    PairReadsAs(m / 0x400, m % 0x400, n, tail);
  }

  lemma PairReadsAs(high: nat, low: nat, n: nat, tail: string)
    requires high < 0x400 && low < 0x400 && n == 0x1_0000 + high * 0x400 + low
    ensures ReadChar(Escaped(0xd800 + high) + (Escaped(0xdc00 + low) + tail)) == Some(Read([n as char], tail))
  {
    var more := Escaped(0xdc00 + low) + tail;
    EscapedCode(0xd800 + high, more);
    EscapedCode(0xdc00 + low, tail);
    PairBegins(0xd800 + high, Escaped(0xd800 + high) + more);
    PairEnds(high, low, n, more);
  }

  lemma PairBegins(u: nat, s: string)
    requires 0xd800 <= u < 0xdc00 && |s| >= 6 && s[0] == '\\' && s[1] == 'u' && Unicode(s[2..6]) == Some(u)
    ensures ReadChar(s) == ReadPair(u, s[6..])
  {}

  lemma PairEnds(high: nat, low: nat, n: nat, s: string)
    requires high < 0x400 && low < 0x400 && n == 0x1_0000 + high * 0x400 + low
    requires |s| >= 6 && s[0] == '\\' && s[1] == 'u' && Unicode(s[2..6]) == Some(0xdc00 + low)
    ensures ReadPair(0xd800 + high, s) == Some(Read([n as char], s[6..]))
  {}

  /** and a low one alone, or a high one with no escape after it, stands for nothing. */
  lemma LoneSurrogateFails(n: nat, tail: string)
    requires IsSurrogate(n) && (n >= 0xdc00 || tail == "" || tail[0] != '\\')
    ensures ReadChar(Escaped(n) + tail) == None
  {
    EscapedCode(n, tail);
  }

  // ----- Round trip -----

  lemma HexReads(d: nat)
    requires d < 16
    ensures HexValue(Hex(d)) == Some(d)
  {}

  /** Each character's escape reads back as that character, whatever follows. */
  lemma EscapeCharReads(c: char, tail: string)
    ensures EscapeChar(c) != "" && EscapeChar(c)[0] != '"'
    ensures ReadChar(EscapeChar(c) + tail) == Some(Read([c], tail))
  {
    var s := EscapeChar(c) + tail;
    if (c as int) < 0x20 && c != '\n' && c != '\r' && c != '\t' {
      HexReads(0);
      HexReads(c as int / 16);
      HexReads(c as int % 16);
      assert s[6..] == tail && s[2..6] == ['0', '0', Hex(c as int / 16), Hex(c as int % 16)];
    } else if |EscapeChar(c)| == 2 {
      assert s[2..] == tail;
    } else {
      assert s[1..] == tail;
    }
  }

  lemma {:induction false} EscapeFront(s: string)
    requires s != ""
    ensures Escape(s) == EscapeChar(s[0]) + Escape(s[1..])
  {
    if |s| == 1 {
      assert s[..0] == "" == s[1..];
    } else {
      var mid, last := s[1..|s| - 1], s[|s| - 1];
      assert s[..|s| - 1][1..] == mid && s[..|s| - 1][0] == s[0];
      assert s[1..][..|s| - 2] == mid && s[1..][|s| - 2] == last;
      EscapeFront(s[..|s| - 1]);
      Associates(EscapeChar(s[0]), Escape(mid), EscapeChar(last));
    }
  }

  lemma ReadsOn(e: string, c: char, rest: string)
    requires e != "" && e[0] != '"' && ReadChar(e + rest) == Some(Read([c], rest))
    ensures ReadBody(e + rest) == match ReadBody(rest)
      case None => None
      case Some(more) => Some(Read([c] + more.text, more.rest))
  {
    assert |rest| < |e + rest| && (e + rest)[0] == e[0];
  }

  /** Read as a JSON string, an escaped string gives the string back, and what follows its closing quotation mark. */
  lemma {:induction false} EscapeReads(s: string, tail: string)
    ensures ReadBody(Escape(s) + (['"'] + tail)) == Some(Read(s, tail))
    decreases |s|
  {
    if s == "" {
      assert Escape(s) + (['"'] + tail) == ['"'] + tail && (['"'] + tail)[1..] == tail;
    } else {
      var rest := Escape(s[1..]) + (['"'] + tail);
      EscapeFront(s);
      Associates(EscapeChar(s[0]), Escape(s[1..]), ['"'] + tail);
      EscapeCharReads(s[0], rest);
      ReadsOn(EscapeChar(s[0]), s[0], rest);
      EscapeReads(s[1..], tail);
      assert s == [s[0]] + s[1..];
    }
  }

  /** So no two strings are escaped alike, and no control character is left in one. */
  lemma EscapeInjective(s: string, t: string)
    requires Escape(s) == Escape(t)
    ensures s == t
  {
    EscapeReads(s, "");
    EscapeReads(t, "");
  }

  lemma {:induction false} EscapedHasNoControls(s: string)
    ensures forall c :: c in Escape(s) ==> c as int >= 0x20
  {
    if s != "" { EscapedHasNoControls(s[..|s| - 1]); }
  }

  /** No quotation mark in it closes the string. */
  lemma {:induction false} EscapedDoesNotClose(s: string)
    ensures ReadBody(Escape(s)) == None
    decreases |s|
  {
    if s != "" {
      EscapeFront(s);
      EscapeCharReads(s[0], Escape(s[1..]));
      ReadsOn(EscapeChar(s[0]), s[0], Escape(s[1..]));
      EscapedDoesNotClose(s[1..]);
    }
  }
}
