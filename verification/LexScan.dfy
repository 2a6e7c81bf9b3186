/** The run skips of bench/examples/lexing_spike.rs: byte at a time, over a slice, and a word at a time. */
module LexScan {
  import opened Bits
  import opened Swar

  // ----- Byte classes -----

  predicate IsWs(b: Byte) { b == 0x20 || b == 0x09 || b == 0x0a || b == 0x0c || b == 0x0d }
  predicate IsDigit(b: Byte) { 0x30 <= b <= 0x39 }
  predicate IsIdStart(b: Byte) { b == 0x5f || 0x41 <= b <= 0x5a || 0x61 <= b <= 0x7a }
  predicate IsIdCont(b: Byte) { IsIdStart(b) || IsDigit(b) || b >= 0x80 }

  const QUOTE: Byte := 0x27

  // ----- Where a run ends -----

  /** The first index at or after p that is flagged, or the length. */
  function FirstFlag(flags: seq<bool>, p: nat): (r: nat)
    ensures p <= r && (p <= |flags| ==> r <= |flags|)
    ensures r < |flags| ==> flags[r]
    ensures forall q :: p <= q < r ==> q < |flags| && !flags[q]
    decreases |flags| - p
  {
    if p < |flags| && !flags[p] then FirstFlag(flags, p + 1) else p
  }

  lemma FirstFlagIs(flags: seq<bool>, p: nat, r: nat)
    requires p <= r <= |flags|
    requires forall q :: p <= q < r ==> !flags[q]
    requires r < |flags| ==> flags[r]
    ensures FirstFlag(flags, p) == r
  {}

  function StopFlags(bytes: seq<Byte>, pred: Byte -> bool): (flags: seq<bool>)
    ensures |flags| == |bytes| && forall p :: 0 <= p < |bytes| ==> flags[p] == !pred(bytes[p])
  {
    seq(|bytes|, p requires 0 <= p < |bytes| => !pred(bytes[p]))
  }

  /** The end of the run of bytes in the class that begins at start. */
  function RunEnd(bytes: seq<Byte>, start: nat, pred: Byte -> bool): (end: nat)
    ensures start <= end && (start <= |bytes| ==> end <= |bytes|)
    ensures end < |bytes| ==> !pred(bytes[end])
    ensures forall p :: start <= p < end ==> p < |bytes| && pred(bytes[p])
  {
    FirstFlag(StopFlags(bytes, pred), start)
  }

  method SkipPeek(bytes: seq<Byte>, start: nat, pred: Byte -> bool) returns (i: nat)
    ensures i == RunEnd(bytes, start, pred)
  {
    i := start;
    while i < |bytes|
      invariant start <= i && (start <= |bytes| ==> i <= |bytes|)
      invariant start > |bytes| ==> i == start
      invariant forall p :: start <= p < i ==> p < |bytes| && pred(bytes[p])
    {
      if !pred(bytes[i]) {
        break;
      }
      i := i + 1;
    }
    if start <= |bytes| { FirstFlagIs(StopFlags(bytes, pred), start, i); }
  }

  function TakeWhile(s: seq<Byte>, pred: Byte -> bool): seq<Byte> {
    if s == [] || !pred(s[0]) then [] else [s[0]] + TakeWhile(s[1..], pred)
  }

  function SkipSlice(bytes: seq<Byte>, start: nat, pred: Byte -> bool): nat
    requires start <= |bytes|
  {
    start + |TakeWhile(bytes[start..], pred)|
  }

  lemma {:induction false} SkipSliceIsRunEnd(bytes: seq<Byte>, start: nat, pred: Byte -> bool)
    requires start <= |bytes|
    ensures SkipSlice(bytes, start, pred) == RunEnd(bytes, start, pred)
    decreases |bytes| - start
  {
    if start < |bytes| && pred(bytes[start]) {
      SkipSliceIsRunEnd(bytes, start + 1, pred);
      assert bytes[start..][1..] == bytes[start + 1..];
    }
  }

  // ----- The word-at-a-time skip -----

  type StopWord = U64 -> U64

  /** A stop word answers with one verdict bit a lane. */
  ghost predicate GivesMasks(stopWord: StopWord) { forall w: U64 :: IsMask(8, stopWord(w)) }

  function Load(bytes: seq<Byte>, i: nat): (w: U64)
    requires i + 8 <= |bytes|
    ensures w == FromLeBytes(bytes[i..i + 8])
  {
    Constants();
    FromLeBytes(bytes[i..i + 8])
  }

  lemma LoadLane(bytes: seq<Byte>, i: nat, k: nat)
    requires i + 8 <= |bytes| && k < 8
    ensures Lane(Load(bytes, i), k) == bytes[i + k]
  {
    FromLeBytesLane(bytes[i..i + 8], k);
  }

  lemma LoadLanes(bytes: seq<Byte>, i: nat)
    requires i + 8 <= |bytes|
    ensures forall k :: 0 <= k < 8 ==> Lane(Load(bytes, i), k) == bytes[i + k]
  {
    forall k | 0 <= k < 8 ensures Lane(Load(bytes, i), k) == bytes[i + k] { LoadLane(bytes, i, k); }
  }

  /** The index the word that covers p was loaded from, for a skip begun at start. */
  function WordStart(start: nat, p: nat): (i: nat)
    requires start <= p
    ensures start <= i <= p < i + 8 && (i - start) % 8 == 0
  {
    p - (p - start) % 8
  }

  /** Whether a skip begun at start stops at p: a whole word gives the stop word's verdict on
      p's lane, the tail of fewer than eight bytes gives the byte test's. */
  predicate StopsAt(bytes: seq<Byte>, start: nat, p: nat, stopWord: StopWord, stopByte: Byte -> bool)
    requires start <= p < |bytes|
  {
    var i := WordStart(start, p);
    if i + 8 <= |bytes| then Marked(stopWord(Load(bytes, i)), p - i) else stopByte(bytes[p])
  }

  function SwarFlags(bytes: seq<Byte>, start: nat, stopWord: StopWord, stopByte: Byte -> bool): (flags: seq<bool>)
    ensures |flags| == |bytes|
    ensures forall p :: start <= p < |bytes| ==> flags[p] == StopsAt(bytes, start, p, stopWord, stopByte)
  {
    seq(|bytes|, p requires 0 <= p < |bytes| => start <= p && StopsAt(bytes, start, p, stopWord, stopByte))
  }

  function SwarEnd(bytes: seq<Byte>, start: nat, stopWord: StopWord, stopByte: Byte -> bool): nat {
    FirstFlag(SwarFlags(bytes, start, stopWord, stopByte), start)
  }

  /** One whole word answers for its eight positions; its trailing zeros give the first stop among them. */
  lemma WordVerdict(bytes: seq<Byte>, start: nat, i: nat, stopWord: StopWord, stopByte: Byte -> bool)
    requires GivesMasks(stopWord)
    requires start <= i && (i - start) % 8 == 0 && i + 8 <= |bytes|
    ensures var stop := stopWord(Load(bytes, i));
      var end := if stop == 0 then i + 8 else i + TrailingZeros(stop) / 8;
      && (stop != 0 ==> end < i + 8 && StopsAt(bytes, start, end, stopWord, stopByte))
      && forall p :: i <= p < end ==> !StopsAt(bytes, start, p, stopWord, stopByte)
  {
    var stop := stopWord(Load(bytes, i));
    LowestMarked(8, stop);
    forall p | i <= p < i + 8 ensures StopsAt(bytes, start, p, stopWord, stopByte) == Marked(stop, p - i) {
      assert WordStart(start, p) == i;
    }
  }

  lemma SwarEndIs(bytes: seq<Byte>, start: nat, end: nat, stopWord: StopWord, stopByte: Byte -> bool)
    requires start <= end <= |bytes|
    requires forall p :: start <= p < end ==> !StopsAt(bytes, start, p, stopWord, stopByte)
    requires end < |bytes| ==> StopsAt(bytes, start, end, stopWord, stopByte)
    ensures SwarEnd(bytes, start, stopWord, stopByte) == end
  {
    FirstFlagIs(SwarFlags(bytes, start, stopWord, stopByte), start, end);
  }

  /** A skip begun at start has come to i without a stop. */
  ghost predicate Unstopped(bytes: seq<Byte>, start: nat, i: nat, stopWord: StopWord, stopByte: Byte -> bool) {
    && start <= i && (if start <= |bytes| then i <= |bytes| else i == start)
    && forall p :: start <= p < i ==> p < |bytes| && !StopsAt(bytes, start, p, stopWord, stopByte)
  }

  lemma WordSkipped(bytes: seq<Byte>, start: nat, i: nat, stopWord: StopWord, stopByte: Byte -> bool)
    requires GivesMasks(stopWord) && Unstopped(bytes, start, i, stopWord, stopByte)
    requires (i - start) % 8 == 0 && i + 8 <= |bytes|
    ensures var stop := stopWord(Load(bytes, i));
      if stop == 0 then Unstopped(bytes, start, i + 8, stopWord, stopByte)
      else SwarEnd(bytes, start, stopWord, stopByte) == i + TrailingZeros(stop) / 8
  {
    WordVerdict(bytes, start, i, stopWord, stopByte);
    var stop := stopWord(Load(bytes, i));
    if stop != 0 { SwarEndIs(bytes, start, i + TrailingZeros(stop) / 8, stopWord, stopByte); }
  }

  lemma ByteSkipped(bytes: seq<Byte>, start: nat, tail: nat, i: nat, stopWord: StopWord, stopByte: Byte -> bool)
    requires Unstopped(bytes, start, i, stopWord, stopByte) && start <= tail <= i < |bytes| < tail + 8 && (tail - start) % 8 == 0
    ensures if stopByte(bytes[i]) then SwarEnd(bytes, start, stopWord, stopByte) == i
      else Unstopped(bytes, start, i + 1, stopWord, stopByte)
  {
    assert WordStart(start, i) == tail;
    if stopByte(bytes[i]) { SwarEndIs(bytes, start, i, stopWord, stopByte); }
  }

  lemma AllSkipped(bytes: seq<Byte>, start: nat, i: nat, stopWord: StopWord, stopByte: Byte -> bool)
    requires Unstopped(bytes, start, i, stopWord, stopByte) && i >= |bytes|
    ensures SwarEnd(bytes, start, stopWord, stopByte) == i
  {
    if start <= |bytes| { SwarEndIs(bytes, start, i, stopWord, stopByte); }
  }

  method SwarSkip(bytes: seq<Byte>, start: nat, stopWord: StopWord, stopByte: Byte -> bool) returns (i: nat)
    requires GivesMasks(stopWord)
    ensures i == SwarEnd(bytes, start, stopWord, stopByte)
  {
    i := start;
    while i + 8 <= |bytes|
      invariant (i - start) % 8 == 0 && Unstopped(bytes, start, i, stopWord, stopByte)
    {
      var stop := stopWord(Load(bytes, i));
      WordSkipped(bytes, start, i, stopWord, stopByte);
      if stop != 0 {
        i := i + TrailingZeros(stop) / 8;
        return;
      }
      i := i + 8;
    }
    ghost var tail := i;
    while i < |bytes|
      invariant tail <= i && Unstopped(bytes, start, i, stopWord, stopByte)
    {
      ByteSkipped(bytes, start, tail, i, stopWord, stopByte);
      if stopByte(bytes[i]) {
        break;
      }
      i := i + 1;
    }
    if i >= |bytes| { AllSkipped(bytes, start, i, stopWord, stopByte); }
  }

  // ----- Stop words -----

  function SwarWsStop(w: U64): U64 {
    var inWs := Or64(Or64(Or64(Or64(SwarEq(w, 0x20), SwarEq(w, 0x09)), SwarEq(w, 0x0a)), SwarEq(w, 0x0c)), SwarEq(w, 0x0d));
    And64(Not64(inWs), HIGHS)
  }

  function SwarDigitStop(w: U64): U64 {
    And64(Not64(SwarInRangeAscii(w, 0x30, 0x39)), HIGHS)
  }

  function SwarIdContStop(w: U64): U64 {
    var inClass := Or64(Or64(Or64(Or64(SwarInRangeAscii(w, 0x41, 0x5a), SwarInRangeAscii(w, 0x61, 0x7a)),
      SwarInRangeAscii(w, 0x30, 0x39)), SwarEq(w, 0x5f)), And64(w, HIGHS));
    And64(Not64(inClass), HIGHS)
  }

  lemma StopWordsGiveMasks()
    ensures GivesMasks(SwarWsStop) && GivesMasks(SwarDigitStop) && GivesMasks(SwarIdContStop)
  {
    forall w: U64 ensures IsMask(8, SwarWsStop(w)) && IsMask(8, SwarDigitStop(w)) && IsMask(8, SwarIdContStop(w)) {
      MaskOf(w);
    }
  }

  lemma MaskOf(w: U64)
    ensures IsMask(8, SwarWsStop(w)) && IsMask(8, SwarDigitStop(w)) && IsMask(8, SwarIdContStop(w))
  {
    forall v: U64 ensures IsMask(8, And64(v, HIGHS)) { MaskHighs(v); }
  }

  lemma StopLane(v: U64, k: nat)
    requires k < 8
    ensures Marked(And64(Not64(v), HIGHS), k) <==> !Marked(v, k)
  {
    MarkedNot(v, k);
    MarkedHighs(Not64(v), k);
  }

  lemma Or5(a: U64, b: U64, c: U64, d: U64, e: U64, k: nat)
    ensures Marked(Or64(Or64(Or64(Or64(a, b), c), d), e), k) <==>
      Marked(a, k) || Marked(b, k) || Marked(c, k) || Marked(d, k) || Marked(e, k)
  {
    MarkedOr(a, b, k);
    MarkedOr(Or64(a, b), c, k);
    MarkedOr(Or64(Or64(a, b), c), d, k);
    MarkedOr(Or64(Or64(Or64(a, b), c), d), e, k);
  }

  lemma WsStopMarks(w: U64, k: nat)
    requires k < 8
    ensures Marked(SwarWsStop(w), k) <==>
      !(Marked(SwarEq(w, 0x20), k) || Marked(SwarEq(w, 0x09), k) || Marked(SwarEq(w, 0x0a), k)
        || Marked(SwarEq(w, 0x0c), k) || Marked(SwarEq(w, 0x0d), k))
  {
    var inWs := Or64(Or64(Or64(Or64(SwarEq(w, 0x20), SwarEq(w, 0x09)), SwarEq(w, 0x0a)), SwarEq(w, 0x0c)), SwarEq(w, 0x0d));
    StopLane(inWs, k);
    Or5(SwarEq(w, 0x20), SwarEq(w, 0x09), SwarEq(w, 0x0a), SwarEq(w, 0x0c), SwarEq(w, 0x0d), k);
  }

  lemma IdContStopMarks(w: U64, k: nat)
    requires k < 8
    ensures Marked(SwarIdContStop(w), k) <==>
      !(0x41 <= Lane(w, k) <= 0x5a || 0x61 <= Lane(w, k) <= 0x7a || IsDigit(Lane(w, k))
        || Marked(SwarEq(w, 0x5f), k) || Lane(w, k) >= 0x80)
  {
    var upper, lower, digit := SwarInRangeAscii(w, 0x41, 0x5a), SwarInRangeAscii(w, 0x61, 0x7a), SwarInRangeAscii(w, 0x30, 0x39);
    StopLane(Or64(Or64(Or64(Or64(upper, lower), digit), SwarEq(w, 0x5f)), And64(w, HIGHS)), k);
    Or5(upper, lower, digit, SwarEq(w, 0x5f), And64(w, HIGHS), k);
    SwarInRangeAsciiExact(w, 0x41, 0x5a, k);
    SwarInRangeAsciiExact(w, 0x61, 0x7a, k);
    SwarInRangeAsciiExact(w, 0x30, 0x39, k);
    MarkedHighs(w, k);
  }

  // ----- Word-at-a-time skips against byte-at-a-time skips -----

  predicate StopsWs(b: Byte) { !IsWs(b) }
  predicate StopsId(b: Byte) { !IsIdCont(b) }
  predicate StopsDigit(b: Byte) { !IsDigit(b) }

  function SwarWsEnd(bytes: seq<Byte>, start: nat): nat { SwarEnd(bytes, start, SwarWsStop, StopsWs) }
  function SwarIdEnd(bytes: seq<Byte>, start: nat): nat { SwarEnd(bytes, start, SwarIdContStop, StopsId) }
  function SwarDigitEnd(bytes: seq<Byte>, start: nat): nat { SwarEnd(bytes, start, SwarDigitStop, StopsDigit) }

  /** A byte of the class followed by a byte outside it that differs only in the low bit: the pairs
      the equality mask smears across. */
  predicate WsSmear(a: Byte, b: Byte) { (a == 0x20 && b == 0x21) || (a == 0x09 && b == 0x08) || (a == 0x0a && b == 0x0b) }
  predicate IdSmear(a: Byte, b: Byte) { a == 0x5f && b == 0x5e }
  predicate NoSmear(a: Byte, b: Byte) { false }

  ghost predicate ClassBelow(w: U64, k: nat, inClass: Byte -> bool) { forall i :: 0 <= i < k ==> inClass(Lane(w, i)) }

  /** After lanes of the class, a stop word stops at a lane outside it unless the lane before smears over it. */
  ghost predicate StopsOutside(stopWord: StopWord, inClass: Byte -> bool, smear: (Byte, Byte) -> bool) {
    forall w: U64, k: nat :: k < 8 && ClassBelow(w, k, inClass) ==> StopsRight(stopWord(w), inClass, smear, w, k)
  }

  ghost predicate StopsRight(stop: U64, inClass: Byte -> bool, smear: (Byte, Byte) -> bool, w: U64, k: nat)
    requires k < 8
  {
    Marked(stop, k) <==> !inClass(Lane(w, k)) && !(k > 0 && smear(Lane(w, k - 1), Lane(w, k)))
  }

  /** The run that began at start ends at p inside a whole word, on a smearing pair. */
  predicate SmearedEnd(bytes: seq<Byte>, start: nat, p: nat, smear: (Byte, Byte) -> bool) {
    start < p < |bytes| && (p - start) % 8 != 0 && WordStart(start, p) + 8 <= |bytes| && smear(bytes[p - 1], bytes[p])
  }

  lemma StopsAtLane(bytes: seq<Byte>, start: nat, p: nat, stopWord: StopWord, stopByte: Byte -> bool,
                    inClass: Byte -> bool, smear: (Byte, Byte) -> bool)
    requires StopsOutside(stopWord, inClass, smear) && forall b: Byte :: stopByte(b) == !inClass(b)
    requires start <= p < |bytes| && forall q :: start <= q < p ==> inClass(bytes[q])
    ensures StopsAt(bytes, start, p, stopWord, stopByte) <==> !inClass(bytes[p]) && !SmearedEnd(bytes, start, p, smear)
  {
    var i := WordStart(start, p);
    if i + 8 <= |bytes| {
      var w, k := Load(bytes, i), p - i;
      LoadLanes(bytes, i);
      assert ClassBelow(w, k, inClass);
      assert StopsRight(stopWord(w), inClass, smear, w, k);
    }
  }

  /** Such a skip never ends before the run does, and ends with it exactly when the run does not end
      inside a whole word on a smearing pair. */
  lemma SwarSkipExact(bytes: seq<Byte>, start: nat, stopWord: StopWord, stopByte: Byte -> bool,
                      inClass: Byte -> bool, smear: (Byte, Byte) -> bool)
    requires StopsOutside(stopWord, inClass, smear) && forall b: Byte :: stopByte(b) == !inClass(b)
    ensures var end, swar := RunEnd(bytes, start, inClass), SwarEnd(bytes, start, stopWord, stopByte);
      end <= swar && (swar == end <==> !SmearedEnd(bytes, start, end, smear))
  {
    var end := RunEnd(bytes, start, inClass);
    forall p | start <= p <= end && p < |bytes|
      ensures StopsAt(bytes, start, p, stopWord, stopByte) <==> p == end && !SmearedEnd(bytes, start, p, smear)
    {
      StopsAtLane(bytes, start, p, stopWord, stopByte, inClass, smear);
    }
  }

  /** Below a lane no byte is the flipped needle, so the mask can only smear from the lane just before. */
  lemma SmearsOnce(w: U64, c: Byte, k: nat)
    requires k < 8 && forall i :: 0 <= i < k ==> Lane(w, i) != FlipLowBit(c)
    ensures Marked(SwarEq(w, c), k) <==>
      Lane(w, k) == c || (k > 0 && Lane(w, k) == FlipLowBit(c) && Lane(w, k - 1) == c)
  {
    SwarEqLane(w, c, k);
    if k > 0 { SwarEqLane(w, c, k - 1); }
  }

  lemma WsStopLane(w: U64, k: nat)
    requires k < 8 && ClassBelow(w, k, IsWs)
    ensures StopsRight(SwarWsStop(w), IsWs, WsSmear, w, k)
  {
    WsStopMarks(w, k);
    SmearsOnce(w, 0x20, k);
    SmearsOnce(w, 0x09, k);
    SmearsOnce(w, 0x0a, k);
    SwarEqLane(w, 0x0c, k);
    SwarEqLane(w, 0x0d, k);
  }

  lemma IdStopLane(w: U64, k: nat)
    requires k < 8 && ClassBelow(w, k, IsIdCont)
    ensures StopsRight(SwarIdContStop(w), IsIdCont, IdSmear, w, k)
  {
    IdContStopMarks(w, k);
    SmearsOnce(w, 0x5f, k);
  }

  lemma DigitStopLane(w: U64, k: nat)
    requires k < 8
    ensures StopsRight(SwarDigitStop(w), IsDigit, NoSmear, w, k)
  {
    SwarInRangeAsciiExact(w, 0x30, 0x39, k);
    StopLane(SwarInRangeAscii(w, 0x30, 0x39), k);
  }

  lemma WsStopsOutside()
    ensures StopsOutside(SwarWsStop, IsWs, WsSmear)
  {
    forall w: U64, k: nat | k < 8 && ClassBelow(w, k, IsWs) ensures StopsRight(SwarWsStop(w), IsWs, WsSmear, w, k) {
      WsStopLane(w, k);
    }
  }

  lemma IdStopsOutside()
    ensures StopsOutside(SwarIdContStop, IsIdCont, IdSmear)
  {
    forall w: U64, k: nat | k < 8 && ClassBelow(w, k, IsIdCont) ensures StopsRight(SwarIdContStop(w), IsIdCont, IdSmear, w, k) {
      IdStopLane(w, k);
    }
  }

  lemma DigitStopsOutside()
    ensures StopsOutside(SwarDigitStop, IsDigit, NoSmear)
  {
    forall w: U64, k: nat | k < 8 && ClassBelow(w, k, IsDigit) ensures StopsRight(SwarDigitStop(w), IsDigit, NoSmear, w, k) {
      DigitStopLane(w, k);
    }
  }

  /** The whitespace skip never ends before the byte-at-a-time skip, and ends with it unless the run
      ends inside a whole word on a smearing pair. */
  lemma WsSkipExact(bytes: seq<Byte>, start: nat)
    ensures var end := RunEnd(bytes, start, IsWs);
      end <= SwarWsEnd(bytes, start) && (SwarWsEnd(bytes, start) == end <==> !SmearedEnd(bytes, start, end, WsSmear))
  {
    WsStopsOutside();
    SwarSkipExact(bytes, start, SwarWsStop, StopsWs, IsWs, WsSmear);
  }

  /** So does the identifier skip, with its own pair. */
  lemma IdSkipExact(bytes: seq<Byte>, start: nat)
    ensures var end := RunEnd(bytes, start, IsIdCont);
      end <= SwarIdEnd(bytes, start) && (SwarIdEnd(bytes, start) == end <==> !SmearedEnd(bytes, start, end, IdSmear))
  {
    IdStopsOutside();
    SwarSkipExact(bytes, start, SwarIdContStop, StopsId, IsIdCont, IdSmear);
  }

  /** The digit skip has no such pair. */
  lemma DigitSkipExact(bytes: seq<Byte>, start: nat)
    ensures SwarDigitEnd(bytes, start) == RunEnd(bytes, start, IsDigit)
  {
    DigitStopsOutside();
    SwarSkipExact(bytes, start, SwarDigitStop, StopsDigit, IsDigit, NoSmear);
  }

  /** Inputs on which the word-at-a-time skips overshoot, such as two spaces before `!abcde`
      and `a_` before `^bcdef`. */
  lemma SpacesOvershoot(bytes: seq<Byte>)
    requires |bytes| >= 8 && bytes[0] == bytes[1] == 0x20 && bytes[2] == 0x21
    ensures RunEnd(bytes, 0, IsWs) == 2 < SwarWsEnd(bytes, 0)
  {
    FirstFlagIs(StopFlags(bytes, IsWs), 0, 2);
    WsSkipExact(bytes, 0);
  }

  lemma UnderscoreOvershoots(bytes: seq<Byte>)
    requires |bytes| >= 8 && bytes[0] == 0x61 && bytes[1] == 0x5f && bytes[2] == 0x5e
    ensures RunEnd(bytes, 0, IsIdCont) == 2 < SwarIdEnd(bytes, 0)
  {
    FirstFlagIs(StopFlags(bytes, IsIdCont), 0, 2);
    IdSkipExact(bytes, 0);
  }
}
