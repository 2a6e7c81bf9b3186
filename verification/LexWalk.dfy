/** The needle search, the quoted-string scanners and the walk drivers of
    bench/examples/lexing_spike.rs. */
module LexWalk {
  import opened Bits
  import opened Swar
  import opened LexScan
  import opened Wrappers

  // ----- Needle search -----

  /** found is the first index of the needle at or after start, if there is one. */
  ghost predicate FirstNeedle(bytes: seq<Byte>, start: nat, needle: Byte, found: Option<nat>) {
    match found
    case Some(p) => start <= p < |bytes| && bytes[p] == needle && needle !in bytes[start..p]
    case None => start <= |bytes| ==> needle !in bytes[start..]
  }

  lemma WordNeedle(bytes: seq<Byte>, i: nat, needle: Byte)
    requires i + 8 <= |bytes|
    ensures var m := SwarEq(Load(bytes, i), needle);
      var end := if m == 0 then i + 8 else i + TrailingZeros(m) / 8;
      && (m != 0 ==> end < i + 8 && bytes[end] == needle)
      && forall p :: i <= p < end ==> bytes[p] != needle
  {
    LoadLanes(bytes, i);
    FirstInWord(Load(bytes, i), needle);
    forall p | i <= p < i + 8 ensures Lane(Load(bytes, i), p - i) == bytes[p] {}
  }

  method SwarMemchr(bytes: seq<Byte>, start: nat, needle: Byte) returns (found: Option<nat>)
    ensures FirstNeedle(bytes, start, needle, found)
  {
    var i := start;
    while i + 8 <= |bytes|
      invariant start <= i && (start <= |bytes| ==> i <= |bytes| && needle !in bytes[start..i])
    {
      var m := SwarEq(Load(bytes, i), needle);
      WordNeedle(bytes, i, needle);
      if m != 0 {
        return Some(i + TrailingZeros(m) / 8);
      }
      i := i + 8;
    }
    while i < |bytes|
      invariant start <= i && (start <= |bytes| ==> i <= |bytes| && needle !in bytes[start..i])
    {
      if bytes[i] == needle {
        return Some(i);
      }
      i := i + 1;
    }
    return None;
  }

  // ----- Quoted strings -----

  /** Where the scan of a quoted body that has reached i ends: just past the first quote that is not doubled. */
  function StringEnd(bytes: seq<Byte>, i: nat): (end: nat)
    ensures i <= end && (i <= |bytes| ==> end <= |bytes|)
    decreases |bytes| - i
  {
    if i >= |bytes| then i
    else if bytes[i] != QUOTE then StringEnd(bytes, i + 1)
    else if i + 1 < |bytes| && bytes[i + 1] == QUOTE then StringEnd(bytes, i + 2)
    else i + 1
  }

  method ScanStringScalar(bytes: seq<Byte>, start: nat) returns (end: nat)
    ensures end == ScalarStringEnd(bytes, start)
  {
    var i := start + 1;
    while true
      invariant StringEnd(bytes, i) == StringEnd(bytes, start + 1)
      decreases |bytes| - i
    {
      if i >= |bytes| {
        return i;
      } else if bytes[i] == QUOTE {
        if i + 1 < |bytes| && bytes[i + 1] == QUOTE {
          i := i + 2;
        } else {
          return i + 1;
        }
      } else {
        i := i + 1;
      }
    }
  }

  lemma {:induction false} StringEndSkips(bytes: seq<Byte>, i: nat, p: nat)
    requires i <= p <= |bytes| && QUOTE !in bytes[i..p]
    ensures StringEnd(bytes, i) == StringEnd(bytes, p)
    decreases p - i
  {
    if i < p {
      assert bytes[i] == bytes[i..p][0];
      assert bytes[i + 1..p] == bytes[i..p][1..];
      StringEndSkips(bytes, i + 1, p);
    }
  }

  function ScalarStringEnd(bytes: seq<Byte>, start: nat): nat { StringEnd(bytes, start + 1) }

  /** The search-driven scan answers with the length where the byte-at-a-time one runs past it. */
  function SwarStringEnd(bytes: seq<Byte>, start: nat): nat {
    if start < |bytes| then StringEnd(bytes, start + 1) else |bytes|
  }

  /** The two scanners agree exactly when they start inside the input. */
  lemma StringScansAgree(bytes: seq<Byte>, start: nat)
    ensures SwarStringEnd(bytes, start) == ScalarStringEnd(bytes, start) <==> start < |bytes|
    ensures start < |bytes| ==> start < ScalarStringEnd(bytes, start) <= |bytes|
  {}

  method ScanStringSwar(bytes: seq<Byte>, start: nat) returns (end: nat)
    ensures end == SwarStringEnd(bytes, start)
  {
    var i := start + 1;
    while true
      invariant start < |bytes| ==> i <= |bytes| && StringEnd(bytes, i) == StringEnd(bytes, start + 1)
      invariant start >= |bytes| ==> i == start + 1
      decreases |bytes| - i
    {
      var found := SwarMemchr(bytes, i, QUOTE);
      match found {
        case None =>
          if i <= |bytes| { StringEndSkips(bytes, i, |bytes|); }
          return |bytes|;
        case Some(p) =>
          StringEndSkips(bytes, i, p);
          if p + 1 < |bytes| && bytes[p + 1] == QUOTE {
            i := p + 2;
          } else {
            return p + 1;
          }
      }
    }
  }

  /** A literal's body as it is written: every quote doubled. */
  function Doubled(s: seq<Byte>): seq<Byte> {
    if s == [] then []
    else (if s[0] == QUOTE then [QUOTE, QUOTE] else [s[0]]) + Doubled(s[1..])
  }

  /** A body written with its quotes doubled and closed by a quote is scanned whole, whatever follows
      that does not double the closing quote. */
  lemma {:induction false} ScanReadsLiteral(before: seq<Byte>, s: seq<Byte>, after: seq<Byte>)
    requires after == [] || after[0] != QUOTE
    ensures StringEnd(before + Doubled(s) + [QUOTE] + after, |before|) == |before| + |Doubled(s)| + 1
    decreases |s|
  {
    var bytes := before + Doubled(s) + [QUOTE] + after;
    if s != [] {
      var head := if s[0] == QUOTE then [QUOTE, QUOTE] else [s[0]];
      assert bytes == (before + head) + Doubled(s[1..]) + [QUOTE] + after;
      ScanReadsLiteral(before + head, s[1..], after);
    }
  }

  /** Conversely whatever a scan passes over is such a body: it stops at a closing quote that is not
      doubled, or has read a body to the end of the input without finding one. */
  lemma {:induction false} ScanFindsLiteral(bytes: seq<Byte>, i: nat) returns (s: seq<Byte>, closed: bool)
    requires i <= |bytes|
    ensures var end := StringEnd(bytes, i);
      if closed then bytes[i..end] == Doubled(s) + [QUOTE] && (end < |bytes| ==> bytes[end] != QUOTE)
      else end == |bytes| && bytes[i..] == Doubled(s)
    decreases |bytes| - i
  {
    if i == |bytes| {
      s, closed := [], false;
      assert bytes[i..] == [];
    } else if bytes[i] == QUOTE && !(i + 1 < |bytes| && bytes[i + 1] == QUOTE) {
      s, closed := [], true;
    } else {
      var next := if bytes[i] == QUOTE then i + 2 else i + 1;
      var rest;
      rest, closed := ScanFindsLiteral(bytes, next);
      s := [bytes[i]] + rest;
      DoubledGrows(bytes[i], rest);
      SliceSplits(bytes, i, next, StringEnd(bytes, next));
    }
  }

  lemma {:induction false} DoubledGrows(b: Byte, rest: seq<Byte>)
    ensures Doubled([b] + rest) == (if b == QUOTE then [QUOTE, QUOTE] else [b]) + Doubled(rest)
  {
    assert ([b] + rest)[1..] == rest;
  }

  lemma SliceSplits(bytes: seq<Byte>, i: nat, middle: nat, end: nat)
    requires i <= middle <= end <= |bytes|
    ensures bytes[i..end] == bytes[i..middle] + bytes[middle..end]
  {}

  // ----- Walks -----

  type Skip = (seq<Byte>, nat) --> nat

  ghost predicate Scans(bytes: seq<Byte>, skip: Skip) {
    forall i: nat :: i < |bytes| ==> skip.requires(bytes, i)
  }

  /** Where the tokens of a walk end that skips the runs of one class and steps over every other byte. */
  function SkipEnds(bytes: seq<Byte>, skip: Skip, i: nat): seq<nat>
    requires Scans(bytes, skip)
    decreases |bytes| - i
  {
    if i >= |bytes| then []
    else
      var j := skip(bytes, i);
      if j > i then [j] + SkipEnds(bytes, skip, j) else SkipEnds(bytes, skip, i + 1)
  }

  function TokenEnds(bytes: seq<Byte>, skip: Skip): seq<nat>
    requires Scans(bytes, skip)
  {
    SkipEnds(bytes, skip, 0)
  }

  function Sum(ends: seq<nat>): nat { if ends == [] then 0 else ends[0] + Sum(ends[1..]) }

  /** The sum of the ends in 64 bits. */
  function Checksum(ends: seq<nat>): U64 { Sum(ends) % U64_MODULUS }

  lemma AddsEnd(acc: U64, j: nat, rest: seq<nat>)
    ensures (WrappingAdd(acc, j % U64_MODULUS) + Sum(rest)) % U64_MODULUS == (acc + Sum([j] + rest)) % U64_MODULUS
  {
    assert ([j] + rest)[1..] == rest;
    WrapsOnce(acc, j, Sum(rest));
  }

  lemma WrapsOnce(acc: nat, j: nat, rest: nat)
    ensures ((acc + j % 0x1_0000_0000_0000_0000) % 0x1_0000_0000_0000_0000 + rest) % 0x1_0000_0000_0000_0000
      == (acc + (j + rest)) % 0x1_0000_0000_0000_0000
  {}

  method RunSkipWalk(bytes: seq<Byte>, skip: Skip) returns (acc: U64)
    requires Scans(bytes, skip)
    ensures acc == Checksum(TokenEnds(bytes, skip))
  {
    var i := 0;
    acc := 0;
    while i < |bytes|
      invariant (acc + Sum(SkipEnds(bytes, skip, i))) % U64_MODULUS == Checksum(TokenEnds(bytes, skip))
      decreases |bytes| - i
    {
      var j := skip(bytes, i);
      if j > i {
        AddsEnd(acc, j, SkipEnds(bytes, skip, j));
        acc := WrappingAdd(acc, j % U64_MODULUS);
        i := j;
      } else {
        i := i + 1;
      }
    }
  }

  function PeekSkip(inClass: Byte -> bool): Skip { (b: seq<Byte>, s: nat) => RunEnd(b, s, inClass) }

  function SliceSkip(inClass: Byte -> bool): Skip {
    (b: seq<Byte>, s: nat) requires s <= |b| => SkipSlice(b, s, inClass)
  }

  lemma {:induction false} SkipsAlike(bytes: seq<Byte>, a: Skip, b: Skip, i: nat)
    requires Scans(bytes, a) && Scans(bytes, b)
    requires forall p: nat :: p < |bytes| ==> a(bytes, p) == b(bytes, p)
    ensures SkipEnds(bytes, a, i) == SkipEnds(bytes, b, i)
    decreases |bytes| - i
  {
    if i < |bytes| {
      var j := a(bytes, i);
      SkipsAlike(bytes, a, b, if j > i then j else i + 1);
    }
  }

  /** The slice form finds the tokens of the byte-at-a-time form, in every class on every input; */
  lemma SlicesSkipAlike(bytes: seq<Byte>, inClass: Byte -> bool)
    ensures Scans(bytes, SliceSkip(inClass)) && Scans(bytes, PeekSkip(inClass))
    ensures TokenEnds(bytes, SliceSkip(inClass)) == TokenEnds(bytes, PeekSkip(inClass))
  {
    forall p: nat | p < |bytes| ensures SkipSlice(bytes, p, inClass) == RunEnd(bytes, p, inClass) {
      SkipSliceIsRunEnd(bytes, p, inClass);
    }
    SkipsAlike(bytes, SliceSkip(inClass), PeekSkip(inClass), 0);
  }

  /** so does the word-at-a-time form for digits, */
  lemma DigitsSkipAlike(bytes: seq<Byte>)
    ensures Scans(bytes, SwarDigitEnd) && Scans(bytes, PeekSkip(IsDigit))
    ensures TokenEnds(bytes, SwarDigitEnd) == TokenEnds(bytes, PeekSkip(IsDigit))
  {
    forall p: nat | p < |bytes| ensures SwarDigitEnd(bytes, p) == RunEnd(bytes, p, IsDigit) { DigitSkipExact(bytes, p); }
    SkipsAlike(bytes, SwarDigitEnd, PeekSkip(IsDigit), 0);
  }

  /** Some token the byte-at-a-time walk finds from i on ends inside a whole word on a smearing pair. */
  predicate SkipSmears(bytes: seq<Byte>, inClass: Byte -> bool, smear: (Byte, Byte) -> bool, i: nat)
    decreases |bytes| - i
  {
    i < |bytes| &&
    var end := RunEnd(bytes, i, inClass);
    if end > i then SmearedEnd(bytes, i, end, smear) || SkipSmears(bytes, inClass, smear, end)
    else SkipSmears(bytes, inClass, smear, i + 1)
  }

  /** A word-at-a-time skip that is right but for smeared ends, and never short. */
  ghost predicate RightButSmears(bytes: seq<Byte>, skip: Skip, inClass: Byte -> bool, smear: (Byte, Byte) -> bool)
    requires Scans(bytes, skip)
  {
    forall p: nat :: p < |bytes| ==>
      var end, j := RunEnd(bytes, p, inClass), skip(bytes, p);
      end <= j && (j == end <==> !SmearedEnd(bytes, p, end, smear))
  }

  lemma {:induction false} SkipEndsAgree(bytes: seq<Byte>, skip: Skip, inClass: Byte -> bool, smear: (Byte, Byte) -> bool, i: nat)
    requires Scans(bytes, skip) && RightButSmears(bytes, skip, inClass, smear) && Scans(bytes, PeekSkip(inClass))
    ensures SkipEnds(bytes, skip, i) == SkipEnds(bytes, PeekSkip(inClass), i) <==> !SkipSmears(bytes, inClass, smear, i)
    decreases |bytes| - i
  {
    if i < |bytes| {
      var end, j := RunEnd(bytes, i, inClass), skip(bytes, i);
      assert PeekSkip(inClass)(bytes, i) == end;
      if end == i {
        SkipEndsAgree(bytes, skip, inClass, smear, i + 1);
      } else {
        SkipEndsAgree(bytes, skip, inClass, smear, end);
        FirstDecides(j, SkipEnds(bytes, skip, j), end, SkipEnds(bytes, PeekSkip(inClass), end));
      }
    }
  }

  lemma FirstDecides(x: nat, xs: seq<nat>, y: nat, ys: seq<nat>)
    ensures [x] + xs == [y] + ys <==> x == y && xs == ys
  {
    if [x] + xs == [y] + ys { assert xs == ([x] + xs)[1..] == ([y] + ys)[1..] == ys; }
  }

  /** and so does the whitespace form exactly when no run ends inside a whole word on one of its smearing pairs: */
  lemma SpacesSkipAlike(bytes: seq<Byte>)
    ensures Scans(bytes, SwarWsEnd) && Scans(bytes, PeekSkip(IsWs))
    ensures TokenEnds(bytes, SwarWsEnd) == TokenEnds(bytes, PeekSkip(IsWs)) <==> !SkipSmears(bytes, IsWs, WsSmear, 0)
  {
    forall p: nat | p < |bytes|
      ensures var end := RunEnd(bytes, p, IsWs);
        end <= SwarWsEnd(bytes, p) && (SwarWsEnd(bytes, p) == end <==> !SmearedEnd(bytes, p, end, WsSmear))
    {
      WsSkipExact(bytes, p);
    }
    SkipEndsAgree(bytes, SwarWsEnd, IsWs, WsSmear, 0);
  }

  /** likewise for identifiers. */
  lemma IdentifiersSkipAlike(bytes: seq<Byte>)
    ensures Scans(bytes, SwarIdEnd) && Scans(bytes, PeekSkip(IsIdCont))
    ensures TokenEnds(bytes, SwarIdEnd) == TokenEnds(bytes, PeekSkip(IsIdCont)) <==> !SkipSmears(bytes, IsIdCont, IdSmear, 0)
  {
    forall p: nat | p < |bytes|
      ensures var end := RunEnd(bytes, p, IsIdCont);
        end <= SwarIdEnd(bytes, p) && (SwarIdEnd(bytes, p) == end <==> !SmearedEnd(bytes, p, end, IdSmear))
    {
      IdSkipExact(bytes, p);
    }
    SkipEndsAgree(bytes, SwarIdEnd, IsIdCont, IdSmear, 0);
  }

  /** A word of blanks and exclamation marks that opens with a blank is passed over whole. */
  ghost predicate BlankWord(bytes: seq<Byte>) {
    |bytes| == 8 && bytes[0] == 0x20 && forall p :: 0 <= p < 8 ==> bytes[p] == 0x20 || bytes[p] == 0x21
  }

  lemma {:induction false} BlankMarked(bytes: seq<Byte>, k: nat)
    requires BlankWord(bytes) && k < 8
    ensures Marked(SwarEq(Load(bytes, 0), 0x20), k)
  {
    LoadLane(bytes, 0, k);
    SwarEqLane(Load(bytes, 0), 0x20, k);
    if k > 0 { BlankMarked(bytes, k - 1); }
  }

  lemma BlankPassed(bytes: seq<Byte>, p: nat)
    requires BlankWord(bytes) && p < 8
    ensures !StopsAt(bytes, 0, p, SwarWsStop, StopsWs)
  {
    assert WordStart(0, p) == 0;
    BlankMarked(bytes, p);
    WsStopMarks(Load(bytes, 0), p);
  }

  lemma BlanksEnd(bytes: seq<Byte>)
    requires BlankWord(bytes)
    ensures SwarWsEnd(bytes, 0) == 8
  {
    forall p | 0 <= p < 8 ensures !StopsAt(bytes, 0, p, SwarWsStop, StopsWs) { BlankPassed(bytes, p); }
    SwarEndIs(bytes, 0, 8, SwarWsStop, StopsWs);
  }

  lemma OnlyToken(bytes: seq<Byte>, skip: Skip)
    requires Scans(bytes, skip) && bytes != [] && skip(bytes, 0) == |bytes|
    ensures TokenEnds(bytes, skip) == [|bytes|]
  {
    assert SkipEnds(bytes, skip, |bytes|) == [];
  }

  ghost predicate PassesBlanks(skip: Skip) {
    forall bytes: seq<Byte> :: BlankWord(bytes) ==> Scans(bytes, skip) && skip(bytes, 0) == 8
  }

  lemma SwarPassesBlanks()
    ensures PassesBlanks(SwarWsEnd)
  {
    forall bytes: seq<Byte> | BlankWord(bytes) ensures SwarWsEnd(bytes, 0) == 8 { BlanksEnd(bytes); }
  }

  lemma NextToken(bytes: seq<Byte>, i: nat, end: nat, inClass: Byte -> bool)
    requires i < end <= |bytes| && (forall p :: i <= p < end ==> inClass(bytes[p])) && (end < |bytes| ==> !inClass(bytes[end]))
    ensures RunEnd(bytes, i, inClass) == end
    ensures SkipEnds(bytes, PeekSkip(inClass), i) == [end] + SkipEnds(bytes, PeekSkip(inClass), end)
  {
    FirstFlagIs(StopFlags(bytes, inClass), i, end);
  }

  lemma NoToken(bytes: seq<Byte>, i: nat, inClass: Byte -> bool)
    requires i < |bytes| && !inClass(bytes[i])
    ensures SkipEnds(bytes, PeekSkip(inClass), i) == SkipEnds(bytes, PeekSkip(inClass), i + 1)
  {
    FirstFlagIs(StopFlags(bytes, inClass), i, i);
  }

  lemma {:induction false} NoMoreTokens(bytes: seq<Byte>, i: nat, inClass: Byte -> bool)
    requires forall p :: i <= p < |bytes| ==> !inClass(bytes[p])
    ensures SkipEnds(bytes, PeekSkip(inClass), i) == []
    decreases |bytes| - i
  {
    if i < |bytes| {
      NoToken(bytes, i, inClass);
      NoMoreTokens(bytes, i + 1, inClass);
    }
  }

  /** A sum below 2^64 is its own checksum. */
  lemma Unwrapped(ends: seq<nat>)
    requires Sum(ends) < 0x1_0000_0000_0000_0000
    ensures Checksum(ends) == Sum(ends)
  {
    assert Sum(ends) % 0x1_0000_0000_0000_0000 == Sum(ends);
  }

  lemma SumOfEnds(x: nat, rest: seq<nat>)
    ensures [x] + rest != [] && Sum([x] + rest) == x + Sum(rest)
    ensures rest == [] ==> [x] + rest == [x]
  {
    assert ([x] + rest)[1..] == rest;
  }

  /** The bytes of the class are those in [lo, hi). */
  ghost predicate ClassIn(bytes: seq<Byte>, inClass: Byte -> bool, from: nat, lo: nat, hi: nat) {
    from <= lo < hi <= |bytes| && forall p :: from <= p < |bytes| ==> (inClass(bytes[p]) <==> lo <= p < hi)
  }

  lemma {:induction false} OneRun(bytes: seq<Byte>, inClass: Byte -> bool, i: nat, lo: nat, hi: nat)
    requires ClassIn(bytes, inClass, i, lo, hi)
    ensures SkipEnds(bytes, PeekSkip(inClass), i) == [hi]
    decreases lo - i
  {
    if i < lo {
      NoToken(bytes, i, inClass);
      OneRun(bytes, inClass, i + 1, lo, hi);
    } else {
      NextToken(bytes, i, hi, inClass);
      NoMoreTokens(bytes, hi, inClass);
    }
  }

  lemma OneEnd(x: nat)
    requires x < 0x100
    ensures Checksum([x]) == x
  {
    SumOfEnds(x, []);
    Unwrapped([x]);
  }

  lemma ThreeAndFive()
    ensures Checksum([3, 5]) == 8
  {
    SumOfEnds(5, []);
    SumOfEnds(3, [5]);
    assert [3] + [5] == [3, 5];
    Unwrapped([3, 5]);
  }

  lemma TwoBlanks(bytes: seq<Byte>, skip: Skip)
    requires bytes == [0x20, 0x20, 0x21, 0x21, 0x21, 0x21, 0x21, 0x21] && PassesBlanks(skip)
    ensures Scans(bytes, skip) && Checksum(TokenEnds(bytes, skip)) == 8
    ensures Scans(bytes, PeekSkip(IsWs)) && Checksum(TokenEnds(bytes, PeekSkip(IsWs))) == 2
  {
    assert BlankWord(bytes);
    OnlyToken(bytes, skip);
    OneRun(bytes, IsWs, 0, 0, 2);
    OneEnd(8);
    OneEnd(2);
  }

  /** Two blanks before six exclamation marks give different checksums; */
  lemma BlanksMiscounted(bytes: seq<Byte>)
    requires bytes == [0x20, 0x20, 0x21, 0x21, 0x21, 0x21, 0x21, 0x21]
    ensures Scans(bytes, SwarWsEnd) && Checksum(TokenEnds(bytes, SwarWsEnd)) == 8
    ensures Scans(bytes, PeekSkip(IsWs)) && Checksum(TokenEnds(bytes, PeekSkip(IsWs))) == 2
  {
    SwarPassesBlanks();
    TwoBlanks(bytes, SwarWsEnd);
  }

  lemma ThreeBlanks(bytes: seq<Byte>, skip: Skip)
    requires bytes == [0x20, 0x20, 0x20, 0x21, 0x20, 0x21, 0x21, 0x21] && PassesBlanks(skip)
    ensures SkipSmears(bytes, IsWs, WsSmear, 0)
    ensures Scans(bytes, skip) && TokenEnds(bytes, skip) == [8]
    ensures Scans(bytes, PeekSkip(IsWs)) && TokenEnds(bytes, PeekSkip(IsWs)) == [3, 5]
  {
    assert BlankWord(bytes);
    OnlyToken(bytes, skip);
    NextToken(bytes, 0, 3, IsWs);
    OneRun(bytes, IsWs, 3, 4, 5);
    assert [3] + [5] == [3, 5];
  }

  /** but different ends can have one sum, so equal checksums do not tell that no run smeared: these tokens end at
      8 alone, and at 3 and 5. */
  lemma ChecksumsCollide(bytes: seq<Byte>)
    requires bytes == [0x20, 0x20, 0x20, 0x21, 0x20, 0x21, 0x21, 0x21]
    ensures SkipSmears(bytes, IsWs, WsSmear, 0)
    ensures Scans(bytes, SwarWsEnd) && TokenEnds(bytes, SwarWsEnd) == [8]
    ensures Scans(bytes, PeekSkip(IsWs)) && TokenEnds(bytes, PeekSkip(IsWs)) == [3, 5]
    ensures Checksum([8]) == Checksum([3, 5])
  {
    SwarPassesBlanks();
    ThreeBlanks(bytes, SwarWsEnd);
    OneEnd(8);
    ThreeAndFive();
  }

  /** Every scan of a quote ends past it. */
  ghost predicate Advances(bytes: seq<Byte>, scan: Skip) {
    Scans(bytes, scan) && forall i: nat :: i < |bytes| ==> i < scan(bytes, i)
  }

  /** Where the strings of a walk end that scans from every quote it comes to. */
  function QuoteEnds(bytes: seq<Byte>, scan: Skip, i: nat): seq<nat>
    requires Advances(bytes, scan)
    decreases |bytes| - i
  {
    if i >= |bytes| then []
    else if bytes[i] == QUOTE then [scan(bytes, i)] + QuoteEnds(bytes, scan, scan(bytes, i))
    else QuoteEnds(bytes, scan, i + 1)
  }

  function StringEnds(bytes: seq<Byte>, scan: Skip): seq<nat>
    requires Advances(bytes, scan)
  {
    QuoteEnds(bytes, scan, 0)
  }

  method StringWalk(bytes: seq<Byte>, scan: Skip) returns (acc: U64)
    requires Advances(bytes, scan)
    ensures acc == Checksum(StringEnds(bytes, scan))
  {
    var i := 0;
    acc := 0;
    while i < |bytes|
      invariant (acc + Sum(QuoteEnds(bytes, scan, i))) % U64_MODULUS == Checksum(StringEnds(bytes, scan))
      decreases |bytes| - i
    {
      if bytes[i] == QUOTE {
        var j := scan(bytes, i);
        AddsEnd(acc, j, QuoteEnds(bytes, scan, j));
        acc := WrappingAdd(acc, j % U64_MODULUS);
        i := j;
      } else {
        i := i + 1;
      }
    }
  }

  lemma ScansAdvance(bytes: seq<Byte>)
    ensures Advances(bytes, ScalarStringEnd) && Advances(bytes, SwarStringEnd)
    ensures forall p: nat :: p < |bytes| ==> SwarStringEnd(bytes, p) == ScalarStringEnd(bytes, p)
  {
    forall p: nat | p < |bytes| ensures p < ScalarStringEnd(bytes, p) == SwarStringEnd(bytes, p) { StringScansAgree(bytes, p); }
  }

  /** Both string scanners find the same strings in every input, so their walks give the same checksum. */
  lemma {:induction false} StringWalksAgree(bytes: seq<Byte>, i: nat)
    ensures Advances(bytes, ScalarStringEnd) && Advances(bytes, SwarStringEnd)
    ensures QuoteEnds(bytes, SwarStringEnd, i) == QuoteEnds(bytes, ScalarStringEnd, i)
    decreases |bytes| - i
  {
    ScansAdvance(bytes);
    if i < |bytes| { StringWalksAgree(bytes, if bytes[i] == QUOTE then ScalarStringEnd(bytes, i) else i + 1); }
  }

  /** A literal and what stands after it, up to the next one. */
  datatype Literal = Literal(body: seq<Byte>, gap: seq<Byte>) {
    ghost predicate Valid() { gap != [] && QUOTE !in gap }
  }

  function LiteralText(l: Literal): seq<Byte> { [QUOTE] + Doubled(l.body) + [QUOTE] + l.gap }

  function Written(literals: seq<Literal>): seq<Byte> { if literals == [] then [] else LiteralText(literals[0]) + Written(literals[1..]) }

  /** Where literals written from offset at on end. */
  function WrittenEnds(literals: seq<Literal>, at: nat): seq<nat> {
    if literals == [] then []
    else [at + |Doubled(literals[0].body)| + 2] + WrittenEnds(literals[1..], at + |LiteralText(literals[0])|)
  }

  lemma {:induction false} QuoteEndsSkip(bytes: seq<Byte>, scan: Skip, i: nat, p: nat)
    requires Advances(bytes, scan) && i <= p <= |bytes| && QUOTE !in bytes[i..p]
    ensures QuoteEnds(bytes, scan, i) == QuoteEnds(bytes, scan, p)
    decreases p - i
  {
    if i < p {
      assert bytes[i] == bytes[i..p][0] && bytes[i + 1..p] == bytes[i..p][1..];
      QuoteEndsSkip(bytes, scan, i + 1, p);
    }
  }

  lemma {:induction false} WrittenStep(literals: seq<Literal>, at: nat)
    requires literals != []
    ensures Written(literals) == LiteralText(literals[0]) + Written(literals[1..])
    ensures WrittenEnds(literals, at)
      == [at + |Doubled(literals[0].body)| + 2] + WrittenEnds(literals[1..], at + |LiteralText(literals[0])|)
  {}

  lemma {:induction false} WrittenAfter(bytes: seq<Byte>, before: seq<Byte>, literals: seq<Literal>)
    requires literals != [] && bytes == before + Written(literals)
    ensures bytes == (before + LiteralText(literals[0])) + Written(literals[1..])
  {
    WrittenStep(literals, |before|);
    Associates(before, LiteralText(literals[0]), Written(literals[1..]));
  }

  /** A literal stands in bytes after `before`, and a scan that starts on it ends with it. */
  ghost predicate Standing(bytes: seq<Byte>, before: seq<Byte>, first: Literal, rest: seq<Byte>) {
    first.Valid() && bytes == (before + LiteralText(first)) + rest
  }

  ghost predicate EndsWith(bytes: seq<Byte>, scan: Skip, at: nat, first: Literal)
    requires Scans(bytes, scan)
  {
    at < |bytes| && scan(bytes, at) == at + |Doubled(first.body)| + 2
  }

  ghost predicate ReadsLiterals(bytes: seq<Byte>, scan: Skip)
    requires Scans(bytes, scan)
  {
    forall before, first, rest :: Standing(bytes, before, first, rest) ==> EndsWith(bytes, scan, |before|, first)
  }

  lemma {:induction false} LiteralScanned(bytes: seq<Byte>, before: seq<Byte>, first: Literal, rest: seq<Byte>)
    requires Standing(bytes, before, first, rest)
    ensures |before| < |bytes| && ScalarStringEnd(bytes, |before|) == |before| + |Doubled(first.body)| + 2
  {
    assert bytes == (before + [QUOTE]) + Doubled(first.body) + [QUOTE] + (first.gap + rest);
    ScanReadsLiteral(before + [QUOTE], first.body, first.gap + rest);
  }

  lemma {:induction false} GapFollows(bytes: seq<Byte>, before: seq<Byte>, first: Literal, rest: seq<Byte>)
    requires Standing(bytes, before, first, rest)
    ensures var end := |before| + |Doubled(first.body)| + 2;
      && |before| < |bytes| && bytes[|before|] == QUOTE
      && end <= |before + LiteralText(first)| <= |bytes| && QUOTE !in bytes[end..|before + LiteralText(first)|]
  {
    var end := |before| + |Doubled(first.body)| + 2;
    assert bytes == (before + [QUOTE] + Doubled(first.body) + [QUOTE]) + first.gap + rest;
    assert bytes[end..end + |first.gap|] == first.gap;
  }

  lemma {:induction false} FirstFound(bytes: seq<Byte>, scan: Skip, before: seq<Byte>, first: Literal, rest: seq<Byte>)
    requires Advances(bytes, scan) && ReadsLiterals(bytes, scan) && Standing(bytes, before, first, rest)
    ensures QuoteEnds(bytes, scan, |before|)
      == [|before| + |Doubled(first.body)| + 2] + QuoteEnds(bytes, scan, |before + LiteralText(first)|)
  {
    assert EndsWith(bytes, scan, |before|, first);
    GapFollows(bytes, before, first, rest);
    QuoteEndsSkip(bytes, scan, scan(bytes, |before|), |before + LiteralText(first)|);
  }

  lemma {:induction false} WalkFindsFrom(bytes: seq<Byte>, scan: Skip, before: seq<Byte>, literals: seq<Literal>)
    requires (forall i :: 0 <= i < |literals| ==> literals[i].Valid()) && bytes == before + Written(literals)
    requires Advances(bytes, scan) && ReadsLiterals(bytes, scan)
    ensures QuoteEnds(bytes, scan, |before|) == WrittenEnds(literals, |before|)
    decreases |literals|
  {
    if literals == [] {
      assert |bytes| == |before|;
    } else {
      var first, rest := literals[0], Written(literals[1..]);
      var next := before + LiteralText(first);
      WrittenAfter(bytes, before, literals);
      FirstFound(bytes, scan, before, first, rest);
      WrittenStep(literals, |before|);
      WalkFindsFrom(bytes, scan, next, literals[1..]);
    }
  }

  /** The walk over text without quotes and then literals finds exactly the literals' ends. */
  lemma {:induction false} WalkFindsLiterals(lead: seq<Byte>, literals: seq<Literal>)
    requires QUOTE !in lead && forall i :: 0 <= i < |literals| ==> literals[i].Valid()
    ensures var bytes := lead + Written(literals);
      Advances(bytes, ScalarStringEnd) && StringEnds(bytes, ScalarStringEnd) == WrittenEnds(literals, |lead|)
  {
    var bytes := lead + Written(literals);
    ScansAdvance(bytes);
    forall before, first, rest | Standing(bytes, before, first, rest)
      ensures EndsWith(bytes, ScalarStringEnd, |before|, first)
    {
      LiteralScanned(bytes, before, first, rest);
    }
    assert bytes[0..|lead|] == lead;
    QuoteEndsSkip(bytes, ScalarStringEnd, 0, |lead|);
    WalkFindsFrom(bytes, ScalarStringEnd, lead, literals);
  }

  /** The four scanners a tokenize-shaped walk dispatches to by the class of the first byte. */
  datatype Scanners = Scanners(ws: Skip, id: Skip, digit: Skip, str: Skip)

  ghost predicate Ready(bytes: seq<Byte>, sc: Scanners) {
    Scans(bytes, sc.ws) && Scans(bytes, sc.id) && Scans(bytes, sc.digit) && Scans(bytes, sc.str)
  }

  function Dispatch(bytes: seq<Byte>, i: nat, sc: Scanners): nat
    requires i < |bytes| && Ready(bytes, sc)
  {
    var b := bytes[i];
    if IsWs(b) then sc.ws(bytes, i)
    else if IsIdStart(b) then sc.id(bytes, i)
    else if IsDigit(b) then sc.digit(bytes, i)
    else if b == QUOTE then sc.str(bytes, i)
    else i + 1
  }

  function Walk(bytes: seq<Byte>, sc: Scanners, i: nat, acc: U64): (nat, U64)
    requires Ready(bytes, sc)
    decreases |bytes| - i
  {
    if i >= |bytes| then (i, acc)
    else
      var j := Dispatch(bytes, i, sc);
      Walk(bytes, sc, if j > i then j else i + 1, WrappingAdd(acc, j % U64_MODULUS))
  }

  method BlendedWalk(bytes: seq<Byte>, sc: Scanners) returns (end: nat, acc: U64)
    requires Ready(bytes, sc)
    ensures (end, acc) == Walk(bytes, sc, 0, 0)
  {
    end, acc := 0, 0;
    while end < |bytes|
      invariant Walk(bytes, sc, end, acc) == Walk(bytes, sc, 0, 0)
      decreases |bytes| - end
    {
      var b := bytes[end];
      var j;
      if IsWs(b) {
        j := sc.ws(bytes, end);
      } else if IsIdStart(b) {
        j := sc.id(bytes, end);
      } else if IsDigit(b) {
        j := sc.digit(bytes, end);
      } else if b == QUOTE {
        j := sc.str(bytes, end);
      } else {
        j := end + 1;
      }
      acc := WrappingAdd(acc, j % U64_MODULUS);
      end := if j > end then j else end + 1;
    }
  }

  lemma {:induction false} WalksAgree(bytes: seq<Byte>, a: Scanners, b: Scanners, i: nat, acc: U64)
    requires Ready(bytes, a) && Ready(bytes, b)
    requires forall p: nat :: p < |bytes| ==> Dispatch(bytes, p, a) == Dispatch(bytes, p, b)
    ensures Walk(bytes, a, i, acc) == Walk(bytes, b, i, acc)
    decreases |bytes| - i
  {
    if i < |bytes| {
      var j := Dispatch(bytes, i, a);
      WalksAgree(bytes, a, b, if j > i then j else i + 1, WrappingAdd(acc, j % U64_MODULUS));
    }
  }

  lemma {:induction false} WalkEndsAtLength(bytes: seq<Byte>, sc: Scanners, i: nat, acc: U64)
    requires Ready(bytes, sc) && i <= |bytes|
    requires forall p: nat :: p < |bytes| ==> Dispatch(bytes, p, sc) <= |bytes|
    ensures Walk(bytes, sc, i, acc).0 == |bytes|
    decreases |bytes| - i
  {
    if i < |bytes| {
      var j := Dispatch(bytes, i, sc);
      WalkEndsAtLength(bytes, sc, if j > i then j else i + 1, WrappingAdd(acc, j % U64_MODULUS));
    }
  }

  const LIVE: Scanners := Scanners(
    (b, s) => RunEnd(b, s, IsWs), (b, s) => RunEnd(b, s, IsIdCont), (b, s) => RunEnd(b, s, IsDigit), ScalarStringEnd)
  const BRANCHLESS: Scanners := Scanners(
    (b: seq<Byte>, s: nat) requires s <= |b| => SkipSlice(b, s, IsWs),
    (b: seq<Byte>, s: nat) requires s <= |b| => SkipSlice(b, s, IsIdCont),
    (b: seq<Byte>, s: nat) requires s <= |b| => SkipSlice(b, s, IsDigit), ScalarStringEnd)
  const SWAR: Scanners := Scanners(SwarWsEnd, SwarIdEnd, SwarDigitEnd, SwarStringEnd)

  lemma LiveStaysInside(bytes: seq<Byte>, p: nat)
    requires p < |bytes|
    ensures Dispatch(bytes, p, LIVE) <= |bytes| && Dispatch(bytes, p, SWAR) <= |bytes|
  {}

  lemma BranchlessIsLive(bytes: seq<Byte>, p: nat)
    requires p < |bytes|
    ensures Dispatch(bytes, p, BRANCHLESS) == Dispatch(bytes, p, LIVE)
  {
    SkipSliceIsRunEnd(bytes, p, IsWs);
    SkipSliceIsRunEnd(bytes, p, IsIdCont);
    SkipSliceIsRunEnd(bytes, p, IsDigit);
  }

  /** Every form of the walk ends at exactly the end of the input. */
  lemma WalksEndAtLength(bytes: seq<Byte>, sc: Scanners)
    requires sc == LIVE || sc == BRANCHLESS || sc == SWAR
    ensures Ready(bytes, sc) && Walk(bytes, sc, 0, 0).0 == |bytes|
  {
    forall p: nat | p < |bytes| ensures Dispatch(bytes, p, sc) <= |bytes| {
      LiveStaysInside(bytes, p);
      if sc == BRANCHLESS { BranchlessIsLive(bytes, p); }
    }
    WalkEndsAtLength(bytes, sc, 0, 0);
  }

  /** The live and branchless forms give the same end and checksum on every input. */
  lemma BranchlessWalksLikeLive(bytes: seq<Byte>)
    ensures Ready(bytes, LIVE) && Ready(bytes, BRANCHLESS)
    ensures Walk(bytes, BRANCHLESS, 0, 0) == Walk(bytes, LIVE, 0, 0)
  {
    forall p: nat | p < |bytes| ensures Dispatch(bytes, p, BRANCHLESS) == Dispatch(bytes, p, LIVE) { BranchlessIsLive(bytes, p); }
    WalksAgree(bytes, BRANCHLESS, LIVE, 0, 0);
  }

  // ----- The word-at-a-time walk -----

  /** Where the tokens of a dispatching walk end. */
  function Ends(bytes: seq<Byte>, sc: Scanners, i: nat): seq<nat>
    requires Ready(bytes, sc)
    decreases |bytes| - i
  {
    if i >= |bytes| then []
    else
      var j := Dispatch(bytes, i, sc);
      [j] + Ends(bytes, sc, if j > i then j else i + 1)
  }

  /** The checksum of a walk is the sum of its tokens' ends in 64 bits. */
  lemma {:induction false} WalkSums(bytes: seq<Byte>, sc: Scanners, i: nat, acc: U64)
    requires Ready(bytes, sc)
    ensures Walk(bytes, sc, i, acc).1 == (acc + Sum(Ends(bytes, sc, i))) % U64_MODULUS
    decreases |bytes| - i
  {
    if i < |bytes| {
      var j := Dispatch(bytes, i, sc);
      var next := if j > i then j else i + 1;
      WalkSums(bytes, sc, next, WrappingAdd(acc, j % U64_MODULUS));
      AddsEnd(acc, j, Ends(bytes, sc, next));
    }
  }

  /** The token that begins at i ends inside a whole word on a smearing pair. */
  predicate TokenSmears(bytes: seq<Byte>, i: nat)
    requires i < |bytes|
  {
    if IsWs(bytes[i]) then SmearedEnd(bytes, i, RunEnd(bytes, i, IsWs), WsSmear)
    else IsIdStart(bytes[i]) && SmearedEnd(bytes, i, RunEnd(bytes, i, IsIdCont), IdSmear)
  }

  /** Some token the live walk finds from i on does. */
  ghost predicate Smears(bytes: seq<Byte>, i: nat)
    decreases |bytes| - i
  {
    i < |bytes| && (TokenSmears(bytes, i) || Smears(bytes, LiveEnd(bytes, i)))
  }

  /** Where the token that begins at i ends, byte by byte, */
  function LiveEnd(bytes: seq<Byte>, i: nat): (end: nat)
    ensures i < |bytes| ==> i < end <= |bytes|
  {
    if i >= |bytes| then i
    else if IsWs(bytes[i]) then RunEnd(bytes, i, IsWs)
    else if IsIdStart(bytes[i]) then RunEnd(bytes, i, IsIdCont)
    else if IsDigit(bytes[i]) then RunEnd(bytes, i, IsDigit)
    else if bytes[i] == QUOTE then ScalarStringEnd(bytes, i)
    else i + 1
  }

  /** and a word at a time. */
  function SwarTokenEnd(bytes: seq<Byte>, i: nat): nat {
    if i >= |bytes| then i
    else if IsWs(bytes[i]) then SwarWsEnd(bytes, i)
    else if IsIdStart(bytes[i]) then SwarIdEnd(bytes, i)
    else if IsDigit(bytes[i]) then SwarDigitEnd(bytes, i)
    else if bytes[i] == QUOTE then SwarStringEnd(bytes, i)
    else i + 1
  }

  lemma DispatchIs(bytes: seq<Byte>, i: nat)
    requires i < |bytes|
    ensures Dispatch(bytes, i, LIVE) == LiveEnd(bytes, i) && Dispatch(bytes, i, SWAR) == SwarTokenEnd(bytes, i)
  {}

  /** A word-at-a-time token ends no sooner than the live one, and with it exactly when that does not smear. */
  lemma SwarTokenExact(bytes: seq<Byte>, i: nat)
    requires i < |bytes|
    ensures LiveEnd(bytes, i) <= SwarTokenEnd(bytes, i)
    ensures SwarTokenEnd(bytes, i) == LiveEnd(bytes, i) <==> !TokenSmears(bytes, i)
  {
    if IsWs(bytes[i]) {
      WsSkipExact(bytes, i);
    } else if IsIdStart(bytes[i]) {
      IdSkipExact(bytes, i);
    } else if IsDigit(bytes[i]) {
      DigitSkipExact(bytes, i);
    } else {
      StringScansAgree(bytes, i);
    }
  }

  /** The two walks find the same tokens exactly when none that the live walk finds smears. */
  lemma {:induction false} SwarEndsAgree(bytes: seq<Byte>, i: nat)
    ensures Ready(bytes, LIVE) && Ready(bytes, SWAR)
    ensures Ends(bytes, SWAR, i) == Ends(bytes, LIVE, i) <==> !Smears(bytes, i)
    decreases |bytes| - i
  {
    if i < |bytes| {
      var end, j := LiveEnd(bytes, i), SwarTokenEnd(bytes, i);
      DispatchIs(bytes, i);
      SwarTokenExact(bytes, i);
      SwarEndsAgree(bytes, end);
      FirstDecides(j, Ends(bytes, SWAR, j), end, Ends(bytes, LIVE, end));
    }
  }

  // ----- Sums of ends -----

  /** The ends a step function leads through from i up to n. */
  function Stops(n: nat, step: nat -> nat, i: nat): seq<nat>
    decreases n - i
  {
    if i >= n then [] else [step(i)] + Stops(n, step, if step(i) > i then step(i) else i + 1)
  }

  lemma {:induction false} EndsAreStops(bytes: seq<Byte>, sc: Scanners, step: nat -> nat, i: nat)
    requires Ready(bytes, sc) && forall p: nat :: p < |bytes| ==> Dispatch(bytes, p, sc) == step(p)
    ensures Ends(bytes, sc, i) == Stops(|bytes|, step, i)
    decreases |bytes| - i
  {
    if i < |bytes| { EndsAreStops(bytes, sc, step, if step(i) > i then step(i) else i + 1); }
  }

  ghost predicate Advancing(n: nat, step: nat -> nat) { forall p: nat :: p < n ==> p < step(p) <= n }

  /** No step from [i, j) leads past j. */
  ghost predicate Fenced(step: nat -> nat, i: nat, j: nat) { i < j && forall p: nat :: i <= p < j ==> step(p) <= j }

  /** Steps that lead as far as another's or farther, to a place it stops at too. */
  ghost predicate Overtakes(n: nat, far: nat -> nat, near: nat -> nat) {
    forall p: nat :: p < n ==> far(p) <= n && (far(p) == near(p) || Fenced(near, near(p), far(p)))
  }

  /** A walk that must stop at j adds at least j and what it still adds from there. */
  lemma {:induction false} FencedSum(n: nat, step: nat -> nat, i: nat, j: nat)
    requires Advancing(n, step) && Fenced(step, i, j) && j <= n
    ensures Sum(Stops(n, step, i)) >= j + Sum(Stops(n, step, j))
    decreases j - i
  {
    SumOfEnds(step(i), Stops(n, step, step(i)));
    if step(i) < j { FencedSum(n, step, step(i), j); }
  }

  /** The farther steps never add more, and as much exactly when they stop at the same places. */
  lemma {:induction false} FartherAddsLess(n: nat, far: nat -> nat, near: nat -> nat, i: nat)
    requires Advancing(n, near) && Overtakes(n, far, near)
    ensures Sum(Stops(n, far, i)) <= Sum(Stops(n, near, i))
    ensures Sum(Stops(n, far, i)) == Sum(Stops(n, near, i)) <==> Stops(n, far, i) == Stops(n, near, i)
    decreases n - i
  {
    if i < n {
      var j, end := far(i), near(i);
      SumOfEnds(j, Stops(n, far, j));
      SumOfEnds(end, Stops(n, near, end));
      FartherAddsLess(n, far, near, j);
      FirstDecides(j, Stops(n, far, j), end, Stops(n, near, end));
      if end < j { FencedSum(n, near, end, j); }
    }
  }

  lemma {:induction false} SumIsSmall(n: nat, step: nat -> nat, i: nat)
    requires Advancing(n, step) && i <= n <= 0x1_0000_0000
    ensures Sum(Stops(n, step, i)) <= (n - i) * 0x1_0000_0000
    decreases n - i
  {
    if i < n {
      SumOfEnds(step(i), Stops(n, step, step(i)));
      SumIsSmall(n, step, step(i));
    }
  }

  // ----- What a word-at-a-time skip passes over -----

  predicate WsFar(b: Byte) { b == 0x21 || b == 0x08 || b == 0x0b }
  predicate IdFar(b: Byte) { b == 0x5e }

  /** A stop word stops only outside the class, and passes only the class and the far halves of smearing pairs. */
  ghost predicate PassesLanes(stopWord: StopWord, inClass: Byte -> bool, far: Byte -> bool) {
    forall w: U64, k: nat :: k < 8 ==> PassesLane(stopWord(w), inClass, far, w, k)
  }

  ghost predicate PassesLane(stop: U64, inClass: Byte -> bool, far: Byte -> bool, w: U64, k: nat) {
    if Marked(stop, k) then !inClass(Lane(w, k)) else inClass(Lane(w, k)) || far(Lane(w, k))
  }

  ghost predicate PassesOnly(bytes: seq<Byte>, i: nat, j: nat, inClass: Byte -> bool, far: Byte -> bool) {
    && i <= j <= |bytes| && (j < |bytes| ==> !inClass(bytes[j]))
    && forall p :: i <= p < j ==> inClass(bytes[p]) || far(bytes[p])
  }

  lemma SkipPasses(bytes: seq<Byte>, i: nat, stopWord: StopWord, stopByte: Byte -> bool, inClass: Byte -> bool, far: Byte -> bool)
    requires PassesLanes(stopWord, inClass, far) && (forall b: Byte :: stopByte(b) == !inClass(b)) && i <= |bytes|
    ensures PassesOnly(bytes, i, SwarEnd(bytes, i, stopWord, stopByte), inClass, far)
  {
    forall p | i <= p < |bytes|
      ensures if StopsAt(bytes, i, p, stopWord, stopByte) then !inClass(bytes[p]) else inClass(bytes[p]) || far(bytes[p])
    {
      StopPasses(bytes, i, p, stopWord, stopByte, inClass, far);
    }
  }

  lemma StopPasses(bytes: seq<Byte>, i: nat, p: nat, stopWord: StopWord, stopByte: Byte -> bool,
                   inClass: Byte -> bool, far: Byte -> bool)
    requires PassesLanes(stopWord, inClass, far) && (forall b: Byte :: stopByte(b) == !inClass(b)) && i <= p < |bytes|
    ensures if StopsAt(bytes, i, p, stopWord, stopByte) then !inClass(bytes[p]) else inClass(bytes[p]) || far(bytes[p])
  {
    var at := WordStart(i, p);
    if at + 8 <= |bytes| {
      var w, k := Load(bytes, at), p - at;
      LoadLane(bytes, at, k);
      assert PassesLane(stopWord(w), inClass, far, w, k);
    }
  }

  lemma WsPassesLanes()
    ensures PassesLanes(SwarWsStop, IsWs, WsFar)
  {
    forall w: U64, k: nat | k < 8 ensures PassesLane(SwarWsStop(w), IsWs, WsFar, w, k) { WsLane(w, k); }
  }

  lemma WsLane(w: U64, k: nat)
    requires k < 8
    ensures PassesLane(SwarWsStop(w), IsWs, WsFar, w, k)
  {
    WsStopMarks(w, k);
    SwarEqLane(w, 0x20, k);
    SwarEqLane(w, 0x09, k);
    SwarEqLane(w, 0x0a, k);
    SwarEqLane(w, 0x0c, k);
    SwarEqLane(w, 0x0d, k);
  }

  lemma IdPassesLanes()
    ensures PassesLanes(SwarIdContStop, IsIdCont, IdFar)
  {
    forall w: U64, k: nat | k < 8 ensures PassesLane(SwarIdContStop(w), IsIdCont, IdFar, w, k) { IdLane(w, k); }
  }

  lemma IdLane(w: U64, k: nat)
    requires k < 8
    ensures PassesLane(SwarIdContStop(w), IsIdCont, IdFar, w, k)
  {
    IdContStopMarks(w, k);
    SwarEqLane(w, 0x5f, k);
  }

  lemma WsFenced(bytes: seq<Byte>, i: nat, j: nat)
    requires i < j && PassesOnly(bytes, i, j, IsWs, WsFar)
    ensures Fenced(p => LiveEnd(bytes, p), i, j)
  {}

  lemma IdFenced(bytes: seq<Byte>, i: nat, j: nat)
    requires i < j && PassesOnly(bytes, i, j, IsIdCont, IdFar)
    ensures Fenced(p => LiveEnd(bytes, p), i, j)
  {}

  /** Where a word-at-a-time token ends the live walk stops too. */
  lemma SwarTokenFenced(bytes: seq<Byte>, i: nat)
    requires i < |bytes|
    ensures var end, j := LiveEnd(bytes, i), SwarTokenEnd(bytes, i);
      j <= |bytes| && (j == end || Fenced(p => LiveEnd(bytes, p), end, j))
  {
    var end, j := LiveEnd(bytes, i), SwarTokenEnd(bytes, i);
    SwarTokenExact(bytes, i);
    if IsWs(bytes[i]) {
      WsPassed(bytes, i);
      if end != j { WsFenced(bytes, end, j); }
    } else if IsIdStart(bytes[i]) {
      IdPassed(bytes, i);
      if end != j { IdFenced(bytes, end, j); }
    }
  }

  lemma WsPassed(bytes: seq<Byte>, i: nat)
    requires i <= |bytes|
    ensures PassesOnly(bytes, i, SwarWsEnd(bytes, i), IsWs, WsFar)
  {
    WsPassesLanes();
    SkipPasses(bytes, i, SwarWsStop, StopsWs, IsWs, WsFar);
  }

  lemma IdPassed(bytes: seq<Byte>, i: nat)
    requires i <= |bytes|
    ensures PassesOnly(bytes, i, SwarIdEnd(bytes, i), IsIdCont, IdFar)
  {
    IdPassesLanes();
    SkipPasses(bytes, i, SwarIdContStop, StopsId, IsIdCont, IdFar);
  }

  /** Below 2^32 bytes no sum wraps, so equal sums tell equal tokens. */
  lemma SwarSumsTell(bytes: seq<Byte>)
    requires |bytes| < 0x1_0000_0000
    ensures Ready(bytes, LIVE) && Ready(bytes, SWAR)
    ensures var swar, live := Ends(bytes, SWAR, 0), Ends(bytes, LIVE, 0);
      Sum(swar) < U64_MODULUS && Sum(live) < U64_MODULUS && (Sum(swar) == Sum(live) <==> swar == live)
  {
    var near, far := (p: nat) => LiveEnd(bytes, p), (p: nat) => SwarTokenEnd(bytes, p);
    forall p: nat | p < |bytes| ensures Dispatch(bytes, p, LIVE) == near(p) && Dispatch(bytes, p, SWAR) == far(p) {
      DispatchIs(bytes, p);
    }
    EndsAreStops(bytes, LIVE, near, 0);
    EndsAreStops(bytes, SWAR, far, 0);
    SwarOvertakes(bytes);
    StopsTell(|bytes|, far, near);
  }

  lemma SwarOvertakes(bytes: seq<Byte>)
    ensures Advancing(|bytes|, p => LiveEnd(bytes, p))
    ensures Overtakes(|bytes|, p => SwarTokenEnd(bytes, p), p => LiveEnd(bytes, p))
  {
    var near := (p: nat) => LiveEnd(bytes, p);
    forall p: nat | p < |bytes|
      ensures var far := SwarTokenEnd(bytes, p); far <= |bytes| && (far == near(p) || Fenced(near, near(p), far))
    {
      SwarTokenFenced(bytes, p);
    }
  }

  lemma StopsTell(n: nat, far: nat -> nat, near: nat -> nat)
    requires n < 0x1_0000_0000 && Advancing(n, near) && Overtakes(n, far, near)
    ensures Sum(Stops(n, far, 0)) < U64_MODULUS && Sum(Stops(n, near, 0)) < U64_MODULUS
    ensures Sum(Stops(n, far, 0)) == Sum(Stops(n, near, 0)) <==> Stops(n, far, 0) == Stops(n, near, 0)
  {
    FartherAddsLess(n, far, near, 0);
    SumIsSmall(n, near, 0);
  }

  /** The word-at-a-time walk finds the live walk's tokens exactly when none of those ends inside a whole word on a
      smearing pair; below 2^32 bytes, where the sums cannot wrap, the checksums then tell. */
  lemma SwarWalksLikeLive(bytes: seq<Byte>)
    ensures Ready(bytes, LIVE) && Ready(bytes, SWAR)
    ensures Ends(bytes, SWAR, 0) == Ends(bytes, LIVE, 0) <==> !Smears(bytes, 0)
    ensures !Smears(bytes, 0) ==> Walk(bytes, SWAR, 0, 0) == Walk(bytes, LIVE, 0, 0)
    ensures |bytes| < 0x1_0000_0000 ==> (Walk(bytes, SWAR, 0, 0) == Walk(bytes, LIVE, 0, 0) <==> !Smears(bytes, 0))
  {
    SwarEndsAgree(bytes, 0);
    WalksEndAtLength(bytes, LIVE);
    WalksEndAtLength(bytes, SWAR);
    WalkTells(bytes, LIVE);
    WalkTells(bytes, SWAR);
    if |bytes| < 0x1_0000_0000 {
      SwarSumsTell(bytes);
      Unwrapped(Ends(bytes, LIVE, 0));
      Unwrapped(Ends(bytes, SWAR, 0));
    }
  }

  lemma WalkTells(bytes: seq<Byte>, sc: Scanners)
    requires Ready(bytes, sc) && Walk(bytes, sc, 0, 0).0 == |bytes|
    ensures Walk(bytes, sc, 0, 0) == (|bytes|, Checksum(Ends(bytes, sc, 0)))
  {
    WalkSums(bytes, sc, 0, 0);
  }

  /** Two blanks before six exclamation marks are told apart. */
  lemma BlanksWalkedApart(bytes: seq<Byte>)
    requires bytes == [0x20, 0x20, 0x21, 0x21, 0x21, 0x21, 0x21, 0x21]
    ensures Ready(bytes, LIVE) && Ready(bytes, SWAR)
    ensures Walk(bytes, SWAR, 0, 0) != Walk(bytes, LIVE, 0, 0)
  {
    NextToken(bytes, 0, 2, IsWs);
    assert TokenSmears(bytes, 0);
    SwarWalksLikeLive(bytes);
  }
}
