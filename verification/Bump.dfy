/** The never-free bump allocator of bench/benches/alloc_probe.rs: any number of threads racing
    through `base`, `alloc` and `set_mark` by single atomic steps, with `reset` between them. */
module Bump {
  import opened Bits
  import opened Wrappers

  const REGION: nat := 0x4000_0000
  const REGION_ALIGN: nat := 4096
  const ISIZE_MAX: nat := 0x7fff_ffff_ffff_ffff

  // ----- Rounding up -----

  ghost predicate IsPow2(a: nat) { exists k: nat :: a == Pow2(k) }

  /** `Layout`'s own promise: a power-of-two alignment, and a size that stays representable when rounded up to it. */
  datatype Layout = Layout(size: nat, align: nat) {
    ghost predicate Valid() { IsPow2(align) && size + align - 1 <= ISIZE_MAX }
  }

  /** `(cur + align - 1) & !(align - 1)` on 64-bit words. */
  function AlignUp(cur: nat, align: nat): nat {
    Bitwise(And, (cur + align - 1) % U64_MODULUS, Not64((align - 1) % U64_MODULUS))
  }

  /** Masking with n ones but for the lowest k clears the lowest k bits. */
  lemma {:induction false} ClearLow(x: nat, n: nat, k: nat, p: nat, top: nat)
    requires k <= n && p == Pow2(k) && top == Pow2(n) && x < top
    ensures 0 < p <= top && RoundedDown(x, p, Bitwise(And, x, top - p))
    decreases n
  {
    if k == 0 {
      AndMask(n, x);
      ClearNone(x);
    } else {
      var h := Pow2(k - 1);
      ClearLow(x / 2, n - 1, k - 1, h, Pow2(n - 1));
      var half := Pow2(n - 1) - h;
      ClearsDoubled(x, half, h);
      assert top - p == 2 * half && p == 2 * h;
    }
  }

  /** y is the greatest multiple of p that is no more than x. */
  ghost predicate RoundedDown(x: nat, p: nat, y: nat)
    requires p > 0
  {
    y % p == 0 && y <= x < y + p
  }

  lemma ClearNone(x: nat)
    ensures RoundedDown(x, 1, x)
  {}

  /** One bit more above a mask whose lowest bit is clear. */
  lemma ClearsDoubled(x: nat, half: nat, h: nat)
    requires h > 0 && RoundedDown(x / 2, h, Bitwise(And, x / 2, half))
    ensures RoundedDown(x, 2 * h, Bitwise(And, x, 2 * half))
  {
    BitwiseStep(And, x, 2 * half);
    DoubledMultiple(Bitwise(And, x / 2, half), h);
  }

  lemma DoubledMultiple(y: nat, h: nat)
    requires h > 0 && y % h == 0
    ensures (2 * y) % (2 * h) == 0
  {
    Doubled(2 * h, h, y / h);
    DivModUnique(2 * y, 2 * h, y / h, 0);
  }

  /** The bit trick rounds up to the next multiple of the alignment. */
  lemma AlignUpRounds(cur: nat, align: nat)
    requires IsPow2(align) && cur + align - 1 < U64_MODULUS
    ensures align > 0 && AlignUp(cur, align) % align == 0
    ensures cur <= AlignUp(cur, align) < cur + align
  {
    var k: nat :| align == Pow2(k);
    NoWrap(cur, align);
    RoundDown(cur + align - 1, k, align);
  }

  lemma NoWrap(cur: nat, align: nat)
    requires 0 < align && cur + align - 1 < U64_MODULUS
    ensures AlignUp(cur, align) == Bitwise(And, cur + align - 1, U64_MODULUS - align)
  {}

  lemma RoundDown(x: nat, k: nat, p: nat)
    requires p == Pow2(k) && x < U64_MODULUS && p <= U64_MODULUS
    ensures Bitwise(And, x, U64_MODULUS - p) % p == 0
    ensures Bitwise(And, x, U64_MODULUS - p) <= x < Bitwise(And, x, U64_MODULUS - p) + p
  {
    Pow2Of64();
    if k > 64 { Pow2Grows(65, k); }
    ClearLow(x, 64, k, p, U64_MODULUS);
  }

  lemma {:induction false} Pow2Grows(j: nat, k: nat)
    requires j <= k
    ensures Pow2(j) <= Pow2(k)
  {
    if j < k { Pow2Grows(j, k - 1); }
  }

  lemma {:induction false} Pow2Divides(j: nat, k: nat, x: nat)
    requires j <= k && x % Pow2(k) == 0
    ensures x % Pow2(j) == 0
  {
    if j < k {
      var h, q := Pow2(k - 1), x / Pow2(k);
      Doubled(Pow2(k), h, q);
      MultipleOf(h, 2 * q, x);
      Pow2Divides(j, k - 1, x);
    }
  }

  lemma MultipleOf(h: nat, q: nat, x: nat)
    requires h > 0 && x == h * q
    ensures x % h == 0
  {
    DivModUnique(x, h, q, 0);
  }

  lemma SumOfMultiples(a: nat, x: nat, y: nat)
    requires a > 0 && x % a == 0 && y % a == 0
    ensures (x + y) % a == 0
  {
    MultipleOf(a, x / a + y / a, x + y);
  }

  // ----- The allocator and its threads -----

  type Addr = nat

  /** A block handed out at an offset from the base its thread was given: the address is what `alloc` returns. */
  datatype Block = Block(base: Addr, off: nat, layout: Layout) {
    function End(): nat { off + layout.size }

    function Address(): Addr { base + off }
  }

  /** The block an allocation carves at cursor cur. */
  function Carve(base: Addr, cur: nat, layout: Layout): Block { Block(base, AlignUp(cur, layout.align), layout) }

  lemma CarveIs(base: Addr, cur: nat, layout: Layout)
    requires cur <= REGION && layout.Valid()
    ensures var b := Carve(base, cur, layout);
      cur <= b.off && 0 < layout.align && b.off % layout.align == 0 && b.End() < U64_MODULUS
  {
    var k: nat :| layout.align == Pow2(k);
    AlignUpRounds(cur, layout.align);
  }

  datatype Request = Allocate(layout: Layout) | SetMark

  /** Where a thread is: each case is the next atomic step it will take. */
  datatype Pc =
    | Idle
    | LoadRegion(req: Request)
    | Obtain(req: Request)
    | Install(req: Request, mine: Addr)
    | GiveBack(req: Request, mine: Addr, winner: Addr)
    | LoadCursor(req: Request, base: Addr)
    | SwapCursor(layout: Layout, base: Addr, cur: nat)
    | StoreMark(cur: nat, seen: nat)

  /** The three atomics, the threads, and the history the properties speak of: the regions held from the
      system, how many were obtained and freed, what `base` returned, and the blocks handed out
      below the mark (kept) and above it since the last `reset` (live). A thread about to
      store the mark remembers how many live blocks there were when it read the cursor. */
  datatype State = State(
    region: Option<Addr>, cursor: nat, mark: nat, threads: seq<Pc>,
    held: set<Addr>, obtained: nat, freed: nat, bases: set<Addr>, kept: seq<Block>, live: seq<Block>)

  function Init(n: nat): State {
    State(None, 0, 0, seq(n, _ => Idle), {}, 0, 0, {}, [], [])
  }

  datatype Action =
    | Call(t: nat, req: Request)
    | ReadRegion(t: nat)
    | SystemAlloc(t: nat, addr: Addr)
    | TryInstall(t: nat)
    | FreeLoser(t: nat)
    | ReadCursor(t: nat)
    | TrySwap(t: nat, spurious: bool)
    | WriteMark(t: nat)
    | Reset

  /** `reset` runs only while nobody is inside the allocator, and one `set_mark` runs at a time. */
  ghost predicate Enabled(s: State, a: Action) {
    if a.Reset? then (forall u :: 0 <= u < |s.threads| ==> s.threads[u].Idle?)
    else (a.t < |s.threads| && Ready(s, a, s.threads[a.t]))
  }

  ghost predicate Ready(s: State, a: Action, pc: Pc) {
    match a
    case Call(t, req) => pc.Idle? && (req.Allocate? ==> req.layout.Valid())
    case ReadRegion(t) => pc.LoadRegion?
    case SystemAlloc(t, addr) => pc.Obtain? && addr % REGION_ALIGN == 0 && addr !in s.held
    case TryInstall(t) => pc.Install?
    case FreeLoser(t) => pc.GiveBack?
    case ReadCursor(t) =>
      pc.LoadCursor? && (pc.req.SetMark? ==> forall u :: 0 <= u < |s.threads| ==> !s.threads[u].StoreMark?)
    case TrySwap(t, spurious) => pc.SwapCursor?
    case WriteMark(t) => pc.StoreMark?
    case Reset => true
  }

  function Goto(s: State, t: nat, pc: Pc): State
    requires t < |s.threads|
  {
    s.(threads := s.threads[t := pc])
  }

  /** `base` returns b. */
  function Return(s: State, t: nat, req: Request, b: Addr): State
    requires t < |s.threads|
  {
    Goto(s, t, LoadCursor(req, b)).(bases := s.bases + {b})
  }

  function Apply(s: State, a: Action): State
    requires Enabled(s, a)
  {
    if a.Reset? then s.(cursor := s.mark, live := []) else Step(s, a, a.t, s.threads[a.t])
  }

  function Step(s: State, a: Action, t: nat, pc: Pc): State
    requires !a.Reset? && t < |s.threads| && Ready(s, a, pc)
  {
    match a
    case Call(_, req) => Goto(s, t, LoadRegion(req))
    case ReadRegion(_) =>
      if s.region.Some? then Return(s, t, pc.req, s.region.value) else Goto(s, t, Obtain(pc.req))
    case SystemAlloc(_, addr) =>
      Goto(s, t, Install(pc.req, addr)).(held := s.held + {addr}, obtained := s.obtained + 1)
    case TryInstall(_) =>
      if s.region.Some? then Goto(s, t, GiveBack(pc.req, pc.mine, s.region.value))
      else Return(s.(region := Some(pc.mine)), t, pc.req, pc.mine)
    case FreeLoser(_) =>
      Return(s.(held := s.held - {pc.mine}, freed := s.freed + 1), t, pc.req, pc.winner)
    case ReadCursor(_) =>
      if pc.req.SetMark? then Goto(s, t, StoreMark(s.cursor, |s.live|))
      else if Carve(pc.base, s.cursor, pc.req.layout).End() > REGION then Goto(s, t, Idle)
      else Goto(s, t, SwapCursor(pc.req.layout, pc.base, s.cursor))
    case TrySwap(_, spurious) =>
      if spurious || s.cursor != pc.cur then Goto(s, t, LoadCursor(Allocate(pc.layout), pc.base))
      else
        var b := Carve(pc.base, pc.cur, pc.layout);
        Goto(s, t, Idle).(cursor := b.End(), live := s.live + [b])
    case WriteMark(_) =>
      var n := if pc.seen <= |s.live| then pc.seen else |s.live|;
      Goto(s, t, Idle).(mark := pc.cur, kept := s.kept + s.live[..n], live := s.live[n..])
  }

  // ----- The invariant -----

  ghost predicate Ordered(blocks: seq<Block>) {
    forall i, j :: 0 <= i < j < |blocks| ==> blocks[i].End() <= blocks[j].off
  }

  /** Blocks in the order they were carved, one after the other, aligned, inside [lo, hi). */
  ghost predicate Packed(blocks: seq<Block>, lo: nat, hi: nat) {
    && Ordered(blocks)
    && forall i :: 0 <= i < |blocks| ==> var b := blocks[i];
      lo <= b.off && b.End() <= hi && b.layout.Valid() && b.layout.align > 0 && b.off % b.layout.align == 0
  }

  /** The region a thread has obtained and not yet published or given back. */
  function MineOf(pc: Pc): Option<Addr> { if pc.Install? || pc.GiveBack? then Some(pc.mine) else None }

  ghost predicate ValidRequest(req: Request) { req.Allocate? ==> req.layout.Valid() }

  /** What a thread in mid-call relies on about the region, */
  ghost predicate RegionPc(s: State, pc: Pc) {
    && (MineOf(pc).Some? ==> MineOf(pc).value in s.held)
    && (pc.Install? || pc.GiveBack? ==> s.region != Some(pc.mine))
    && (pc.GiveBack? ==> s.region == Some(pc.winner))
    && (pc.LoadCursor? || pc.SwapCursor? ==> s.region == Some(pc.base))
  }

  /** and about the cursor. */
  ghost predicate CursorPc(s: State, pc: Pc) {
    match pc
    case SwapCursor(layout, base, cur) => cur <= s.cursor && layout.Valid() && Carve(base, cur, layout).End() <= REGION
    case StoreMark(cur, seen) =>
      s.mark <= cur <= s.cursor && seen <= |s.live| && Packed(s.live[..seen], s.mark, cur) && Packed(s.live[seen..], cur, s.cursor)
    case Idle => true
    case _ => ValidRequest(pc.req)
  }

  ghost predicate Owned(s: State, h: Addr) {
    s.region == Some(h) || exists t :: 0 <= t < |s.threads| && MineOf(s.threads[t]) == Some(h)
  }

  ghost predicate RegionInv(s: State) {
    && (s.region.Some? ==> s.region.value in s.held)
    && (forall h :: h in s.held ==> h % REGION_ALIGN == 0 && Owned(s, h))
    && (forall t, u :: 0 <= t < u < |s.threads| ==> MineOf(s.threads[t]).None? || MineOf(s.threads[t]) != MineOf(s.threads[u]))
    && (forall b :: b in s.bases ==> s.region == Some(b))
    && s.obtained == s.freed + |s.held|
    && forall t :: 0 <= t < |s.threads| ==> RegionPc(s, s.threads[t])
  }

  ghost predicate BlockInv(s: State) {
    && s.mark <= s.cursor <= REGION
    && Packed(s.kept, 0, s.mark)
    && Packed(s.live, s.mark, s.cursor)
    && (forall t :: 0 <= t < |s.threads| ==> CursorPc(s, s.threads[t]))
    && forall t, u :: 0 <= t < u < |s.threads| ==> !(s.threads[t].StoreMark? && s.threads[u].StoreMark?)
  }

  /** Every block was carved out of the published region. */
  ghost predicate BaseInv(s: State) { forall b :: b in s.kept + s.live ==> s.region == Some(b.base) }

  ghost predicate Inv(s: State) { RegionInv(s) && BlockInv(s) && BaseInv(s) }

  // ----- Every step keeps it -----

  /** A thread that moves on without touching the region or what it holds keeps the region's half. */
  lemma RegionMove(s: State, t: nat, pc: Pc, bases: set<Addr>)
    requires RegionInv(s) && t < |s.threads| && RegionPc(s, pc) && MineOf(pc) == MineOf(s.threads[t])
    requires forall b :: b in bases ==> s.region == Some(b)
    ensures RegionInv(Goto(s, t, pc).(bases := bases))
  {
    var s' := Goto(s, t, pc).(bases := bases);
    forall h | h in s.held ensures Owned(s', h) {
      if s.region != Some(h) {
        var u :| 0 <= u < |s.threads| && MineOf(s.threads[u]) == Some(h);
        assert MineOf(s'.threads[u]) == Some(h);
      }
    }
  }

  /** A new region belongs to the thread that obtained it, */
  lemma RegionObtained(s: State, a: Action)
    requires RegionInv(s) && Enabled(s, a) && a.SystemAlloc?
    ensures RegionInv(Apply(s, a))
  {
    var s', t, addr := Apply(s, a), a.t, a.addr;
    ObtainedOwned(s, a);
    forall u | 0 <= u < |s.threads| && u != t ensures RegionPc(s', s'.threads[u]) && MineOf(s'.threads[u]) != Some(addr) {
      assert RegionPc(s, s.threads[u]);
    }
  }

  lemma ObtainedOwned(s: State, a: Action)
    requires RegionInv(s) && Enabled(s, a) && a.SystemAlloc?
    ensures forall h :: h in Apply(s, a).held ==> h % REGION_ALIGN == 0 && Owned(Apply(s, a), h)
  {
    var s', t, addr := Apply(s, a), a.t, a.addr;
    assert MineOf(s'.threads[t]) == Some(addr);
    forall h | h in s'.held ensures Owned(s', h) {
      if h != addr { StillOwned(s, s', t, h); }
    }
  }

  /** A region is still owned when a thread that held none has moved. */
  lemma StillOwned(s: State, s': State, t: nat, h: Addr)
    requires Owned(s, h) && t < |s.threads| && MineOf(s.threads[t]).None?
    requires s'.region == s.region && |s'.threads| == |s.threads|
    requires forall u :: 0 <= u < |s.threads| && u != t ==> s'.threads[u] == s.threads[u]
    ensures Owned(s', h)
  {
    if s.region != Some(h) {
      var u :| 0 <= u < |s.threads| && MineOf(s.threads[u]) == Some(h);
      assert MineOf(s'.threads[u]) == Some(h);
    }
  }

  /** is published if it wins the race, */
  lemma RegionInstalled(s: State, a: Action)
    requires RegionInv(s) && Enabled(s, a) && a.TryInstall? && s.region.None?
    ensures RegionInv(Apply(s, a))
  {
    var s', t := Apply(s, a), a.t;
    var mine := s.threads[t].mine;
    forall h | h in s.held ensures Owned(s', h) {
      if h != mine {
        var u :| 0 <= u < |s.threads| && MineOf(s.threads[u]) == Some(h);
        assert MineOf(s'.threads[u]) == Some(h);
      }
    }
    forall u | 0 <= u < |s'.threads| ensures RegionPc(s', s'.threads[u]) {
      if u != t {
        assert RegionPc(s, s.threads[u]);
        assert MineOf(s.threads[t]) == Some(mine) != MineOf(s.threads[u]);
      }
    }
  }

  /** and is given back if it loses: it was held until then. */
  lemma RegionFreed(s: State, a: Action)
    requires RegionInv(s) && Enabled(s, a) && a.FreeLoser?
    ensures s.threads[a.t].mine in s.held && RegionInv(Apply(s, a))
  {
    var s', t, pc := Apply(s, a), a.t, s.threads[a.t];
    assert RegionPc(s, pc) && MineOf(pc) == Some(pc.mine);
    assert |s.held| == |s'.held| + 1;
    forall h | h in s'.held ensures Owned(s', h) {
      if s.region != Some(h) {
        var u :| 0 <= u < |s.threads| && MineOf(s.threads[u]) == Some(h);
        assert MineOf(s'.threads[u]) == Some(h);
      }
    }
    forall u | 0 <= u < |s'.threads| ensures RegionPc(s', s'.threads[u]) {
      if u != t {
        assert RegionPc(s, s.threads[u]);
        assert MineOf(s.threads[t]) != MineOf(s.threads[u]);
      }
    }
  }

  /** Cursor, mark and blocks do not enter into it. */
  lemma RegionApart(s: State, s': State)
    requires RegionInv(s)
    requires s' == s.(cursor := s'.cursor, mark := s'.mark, kept := s'.kept, live := s'.live)
    ensures RegionInv(s')
  {
    forall h | h in s.held ensures Owned(s', h) { assert Owned(s, h); }
    forall u | 0 <= u < |s'.threads| ensures RegionPc(s', s'.threads[u]) { assert RegionPc(s, s.threads[u]); }
  }

  lemma RegionMoves(s: State, a: Action)
    requires RegionInv(s) && Enabled(s, a)
    requires !a.Reset? && !a.SystemAlloc? && !a.FreeLoser? && !(a.TryInstall? && s.region.None?)
    ensures var s' := Apply(s, a);
      && s'.threads == s.threads[a.t := s'.threads[a.t]]
      && RegionPc(s, s'.threads[a.t]) && MineOf(s'.threads[a.t]) == MineOf(s.threads[a.t])
      && (forall b :: b in s'.bases ==> s.region == Some(b))
      && s'.region == s.region && s'.held == s.held && s'.obtained == s.obtained && s'.freed == s.freed
  {
    assert RegionPc(s, s.threads[a.t]);
  }

  lemma RegionQuiet(s: State, a: Action)
    requires RegionInv(s) && Enabled(s, a)
    requires !a.Reset? && !a.SystemAlloc? && !a.FreeLoser? && !(a.TryInstall? && s.region.None?)
    ensures RegionInv(Apply(s, a))
  {
    var s' := Apply(s, a);
    RegionMoves(s, a);
    RegionMove(s, a.t, s'.threads[a.t], s'.bases);
    RegionApart(Goto(s, a.t, s'.threads[a.t]).(bases := s'.bases), s');
  }

  lemma RegionStep(s: State, a: Action)
    requires RegionInv(s) && Enabled(s, a)
    ensures RegionInv(Apply(s, a))
  {
    if a.Reset? {
      RegionApart(s, Apply(s, a));
    } else if a.SystemAlloc? {
      RegionObtained(s, a);
    } else if a.FreeLoser? {
      RegionFreed(s, a);
    } else if a.TryInstall? && s.region.None? {
      RegionInstalled(s, a);
    } else {
      RegionQuiet(s, a);
    }
  }

  /** A thread that moves on without touching cursor, mark or blocks keeps their half. */
  lemma BlockMove(s: State, t: nat, pc: Pc)
    requires BlockInv(s) && t < |s.threads| && CursorPc(s, pc)
    requires pc.StoreMark? ==> forall u :: 0 <= u < |s.threads| ==> !s.threads[u].StoreMark?
    ensures BlockInv(Goto(s, t, pc))
  {
    var s' := Goto(s, t, pc);
    forall u | 0 <= u < |s'.threads| ensures CursorPc(s', s'.threads[u]) {
      assert CursorPc(s, if u == t then pc else s.threads[u]);
    }
  }

  lemma PackedExtends(blocks: seq<Block>, lo: nat, mid: nat, b: Block)
    requires Packed(blocks, lo, mid) && lo <= mid <= b.off
    requires b.layout.Valid() && b.layout.align > 0 && b.off % b.layout.align == 0
    ensures Packed(blocks + [b], lo, b.End())
  {}

  lemma PackedJoins(low: seq<Block>, high: seq<Block>, lo: nat, mid: nat, hi: nat)
    requires lo <= mid <= hi && Packed(low, lo, mid) && Packed(high, mid, hi)
    ensures Packed(low + high, lo, hi)
  {
    var both := low + high;
    forall i | 0 <= i < |both| ensures both[i] == if i < |low| then low[i] else high[i - |low|] {}
  }

  /** A successful swap carves a block above every other. */
  lemma BlockSwapped(s: State, a: Action)
    requires BlockInv(s) && Enabled(s, a) && a.TrySwap? && !a.spurious && s.cursor == s.threads[a.t].cur
    ensures BlockInv(Apply(s, a))
  {
    var s', t, pc := Apply(s, a), a.t, s.threads[a.t];
    var b := Carve(pc.base, s.cursor, pc.layout);
    assert CursorPc(s, pc);
    CarveIs(pc.base, s.cursor, pc.layout);
    PackedExtends(s.live, s.mark, s.cursor, b);
    forall u | 0 <= u < |s'.threads| ensures CursorPc(s', s'.threads[u]) {
      if u != t { StillRelies(s, s', s.threads[u], b); }
    }
  }

  lemma StillRelies(s: State, s': State, pc: Pc, b: Block)
    requires CursorPc(s, pc) && s.cursor <= b.off
    requires b.layout.Valid() && b.layout.align > 0 && b.off % b.layout.align == 0
    requires s'.mark == s.mark && s'.cursor == b.End() && s'.live == s.live + [b]
    ensures CursorPc(s', pc)
  {
    if pc.StoreMark? {
      assert s'.live[..pc.seen] == s.live[..pc.seen];
      assert s'.live[pc.seen..] == s.live[pc.seen..] + [b];
      PackedExtends(s.live[pc.seen..], pc.cur, s.cursor, b);
    }
  }

  /** Raising the mark keeps the blocks below it. */
  lemma BlockMarked(s: State, a: Action)
    requires BlockInv(s) && Enabled(s, a) && a.WriteMark?
    ensures BlockInv(Apply(s, a))
  {
    var s', t, pc := Apply(s, a), a.t, s.threads[a.t];
    assert CursorPc(s, pc);
    PackedJoins(s.kept, s.live[..pc.seen], 0, s.mark, pc.cur);
    forall u | 0 <= u < |s'.threads| ensures CursorPc(s', s'.threads[u]) {
      assert CursorPc(s, s.threads[u]);
    }
  }

  lemma BlockReset(s: State, a: Action)
    requires BlockInv(s) && Enabled(s, a) && a.Reset?
    ensures BlockInv(Apply(s, a))
  {}

  lemma BlockQuiet(s: State, a: Action)
    requires BlockInv(s) && Enabled(s, a)
    requires !a.Reset? && !a.WriteMark? && !(a.TrySwap? && !a.spurious && s.cursor == s.threads[a.t].cur)
    ensures BlockInv(Apply(s, a))
  {
    var s' := Apply(s, a);
    BlockMoves(s, a);
    BlockMove(s, a.t, s'.threads[a.t]);
    BlockApart(Goto(s, a.t, s'.threads[a.t]), s');
  }

  lemma BlockMoves(s: State, a: Action)
    requires BlockInv(s) && Enabled(s, a)
    requires !a.Reset? && !a.WriteMark? && !(a.TrySwap? && !a.spurious && s.cursor == s.threads[a.t].cur)
    ensures var s' := Apply(s, a);
      && s'.threads == s.threads[a.t := s'.threads[a.t]]
      && CursorPc(s, s'.threads[a.t])
      && (s'.threads[a.t].StoreMark? ==> forall u :: 0 <= u < |s.threads| ==> !s.threads[u].StoreMark?)
      && s'.cursor == s.cursor && s'.mark == s.mark && s'.kept == s.kept && s'.live == s.live
  {
    assert CursorPc(s, s.threads[a.t]);
    TakesAll(s);
  }

  lemma BlockApart(s: State, s': State)
    requires BlockInv(s)
    requires s' == s.(region := s'.region, held := s'.held, obtained := s'.obtained, freed := s'.freed, bases := s'.bases)
    ensures BlockInv(s')
  {
    forall u | 0 <= u < |s'.threads| ensures CursorPc(s', s'.threads[u]) { assert CursorPc(s, s.threads[u]); }
  }

  lemma BlockStep(s: State, a: Action)
    requires BlockInv(s) && Enabled(s, a)
    ensures BlockInv(Apply(s, a))
  {
    if a.Reset? {
      BlockReset(s, a);
    } else if a.WriteMark? {
      BlockMarked(s, a);
    } else if a.TrySwap? && !a.spurious && s.cursor == s.threads[a.t].cur {
      BlockSwapped(s, a);
    } else {
      BlockQuiet(s, a);
    }
  }

  /** A thread about to carve holds the published region's base, and a published region stays. */
  lemma BaseStep(s: State, a: Action)
    requires RegionInv(s) && BaseInv(s) && Enabled(s, a)
    ensures BaseInv(Apply(s, a))
  {
    var s' := Apply(s, a);
    if !a.Reset? { assert RegionPc(s, s.threads[a.t]); }
    forall b | b in s'.kept + s'.live ensures s'.region == Some(b.base) {
      assert b in s.kept + s.live || (a.TrySwap? && b == Carve(s.threads[a.t].base, s.cursor, s.threads[a.t].layout));
    }
  }

  lemma TakesAll(s: State)
    requires BlockInv(s)
    ensures s.live[..|s.live|] == s.live && Packed(s.live[|s.live|..], s.cursor, s.cursor)
  {}

  // ----- Whole runs -----

  /** Taking the actions in order, each when it is enabled, leads from s to end. */
  ghost predicate Run(s: State, actions: seq<Action>, end: State)
    decreases |actions|
  {
    if actions == [] then s == end
    else Enabled(s, actions[0]) && Run(Apply(s, actions[0]), actions[1..], end)
  }

  lemma {:induction false} RunKeeps(s: State, actions: seq<Action>, end: State)
    requires Inv(s) && Run(s, actions, end)
    ensures Inv(end)
    decreases |actions|
  {
    if actions != [] {
      RegionStep(s, actions[0]);
      BlockStep(s, actions[0]);
      BaseStep(s, actions[0]);
      RunKeeps(Apply(s, actions[0]), actions[1..], end);
    }
  }

  /** What `alloc` promises of a pointer: the block lies inside the region and is aligned, by offset always and
      by address up to the region's own alignment. */
  ghost predicate Sound(b: Block, region: Addr) {
    && region <= b.Address() && b.Address() + b.layout.size <= region + REGION
    && b.layout.align > 0 && (b.Address() - region) % b.layout.align == 0
    && (b.layout.align <= REGION_ALIGN ==> b.Address() % b.layout.align == 0)
  }

  /** In every run the pointers handed out and not reclaimed lie in the published region, follow one another
      without overlap, and are aligned. */
  lemma BlocksAreSound(n: nat, actions: seq<Action>, end: State)
    requires Run(Init(n), actions, end)
    ensures var blocks := end.kept + end.live;
      && (blocks != [] ==> end.region.Some?)
      && (forall b :: b in blocks ==> Sound(b, end.region.value))
      && forall i, j :: 0 <= i < j < |blocks| ==> blocks[i].Address() + blocks[i].layout.size <= blocks[j].Address()
  {
    RunKeeps(Init(n), actions, end);
    PackedJoins(end.kept, end.live, 0, end.mark, end.cursor);
    PackedSound(end.kept + end.live, end);
  }

  lemma PackedSound(blocks: seq<Block>, s: State)
    requires Packed(blocks, 0, s.cursor) && s.cursor <= REGION
    requires s.region.Some? ==> s.region.value % REGION_ALIGN == 0
    requires forall b :: b in blocks ==> s.region == Some(b.base)
    ensures blocks != [] ==> s.region.Some?
    ensures forall b :: b in blocks ==> Sound(b, s.region.value)
    ensures forall i, j :: 0 <= i < j < |blocks| ==> blocks[i].Address() + blocks[i].layout.size <= blocks[j].Address()
  {
    if blocks != [] { assert blocks[0] in blocks; }
    forall b | b in blocks ensures Sound(b, s.region.value) {
      if b.layout.align <= REGION_ALIGN { AddressAligned(b); }
    }
    forall i, j | 0 <= i < j < |blocks| ensures blocks[i].Address() + blocks[i].layout.size <= blocks[j].Address() {
      assert blocks[i] in blocks && blocks[j] in blocks;
    }
  }

  lemma AddressAligned(b: Block)
    requires b.base % REGION_ALIGN == 0 && b.layout.Valid() && 0 < b.layout.align <= REGION_ALIGN
    requires b.off % b.layout.align == 0
    ensures b.Address() % b.layout.align == 0
  {
    var k: nat :| b.layout.align == Pow2(k);
    assert Pow2(12) == REGION_ALIGN by { Pow2Values(); Pow2Sum(8, 4); }
    if k > 12 { Pow2Grows(13, k); }
    Pow2Divides(k, 12, b.base);
    SumOfMultiples(b.layout.align, b.base, b.off);
  }

  /** In every run every call of `base` has returned the one published region, and what was obtained
      is what was freed and what is still held; once all threads are idle only the
      published region is held, so every other one was freed, once. */
  lemma OneRegion(n: nat, actions: seq<Action>, end: State)
    requires Run(Init(n), actions, end)
    ensures forall b :: b in end.bases ==> end.region == Some(b)
    ensures end.obtained == end.freed + |end.held|
    ensures Enabled(end, Reset) ==>
      end.held == (if end.region.Some? then {end.region.value} else {})
      && end.obtained == end.freed + if end.region.Some? then 1 else 0
  {
    RunKeeps(Init(n), actions, end);
    if Enabled(end, Reset) {
      assert forall h :: h in end.held ==> Owned(end, h);
      assert end.held == if end.region.Some? then {end.region.value} else {};
    }
  }

  /** From any reachable state on, a published region never changes, and the blocks below the mark stay
      kept, apart from every other block however often the rest is reclaimed. */
  lemma {:induction false} KeptSurvive(s: State, actions: seq<Action>, end: State)
    requires Inv(s) && Run(s, actions, end)
    ensures s.region.Some? ==> end.region == s.region
    ensures s.kept <= end.kept && s.mark <= end.mark && Packed(end.kept, 0, end.mark) && Packed(end.live, end.mark, end.cursor)
    decreases |actions|
  {
    if actions != [] {
      var a := actions[0];
      RegionStep(s, a);
      BlockStep(s, a);
      BaseStep(s, a);
      KeptStep(s, a);
      KeptSurvive(Apply(s, a), actions[1..], end);
    }
  }

  lemma KeptStep(s: State, a: Action)
    requires BlockInv(s) && Enabled(s, a)
    ensures var s' := Apply(s, a); (s.region.Some? ==> s'.region == s.region) && s.kept <= s'.kept && s.mark <= s'.mark
  {
    if !a.Reset? { assert CursorPc(s, s.threads[a.t]); }
  }

  /** A swap that fails though it was not spurious lost to an allocation that moved the cursor up. */
  lemma FailedSwapLostToAnother(s: State, a: Action)
    requires Inv(s) && Enabled(s, a) && a.TrySwap? && !a.spurious
    ensures var s' := Apply(s, a); var pc := s.threads[a.t];
      if s.cursor > pc.cur then s'.threads[a.t] == LoadCursor(Allocate(pc.layout), pc.base)
      else s'.threads[a.t] == Idle && s'.live == s.live + [Carve(pc.base, pc.cur, pc.layout)]
  {
    assert CursorPc(s, s.threads[a.t]);
  }

  // ----- What one call does -----

  /** The allocator's memory, without its threads. */
  datatype Heap = Heap(region: Option<Addr>, cursor: nat, mark: nat, kept: seq<Block>, live: seq<Block>)

  function HeapOf(s: State): Heap { Heap(s.region, s.cursor, s.mark, s.kept, s.live) }

  /** `reset` winds the cursor back to the mark and reclaims the blocks above it. */
  ghost predicate Reclaimed(h: Heap, h': Heap) {
    h'.cursor == h'.mark == h.mark && h'.live == [] && h'.kept == h.kept && h'.region == h.region
  }

  /** `alloc` carves the block at the cursor if its end is inside the region, and changes nothing else. */
  ghost predicate Serves(h: Heap, layout: Layout, obtained: Addr, h': Heap) {
    && h'.region == Some(BaseOf(h.region, obtained)) && h'.mark == h.mark && h'.kept == h.kept
    && var b := Carve(h'.region.value, h.cursor, layout);
    if b.End() > REGION then h'.cursor == h.cursor && h'.live == h.live
    else h'.cursor == b.End() && h'.live == h.live + [b]
  }

  /** `set_mark` keeps every block there is. */
  ghost predicate MarkRaised(h: Heap, obtained: Addr, h': Heap) {
    && h'.region == Some(BaseOf(h.region, obtained)) && h'.mark == h'.cursor == h.cursor
    && h'.kept == h.kept + h.live && h'.live == []
  }

  /** The region once `base` has run: what is there, or what the system gives. */
  function BaseOf(region: Option<Addr>, obtained: Addr): Addr { if region.Some? then region.value else obtained }

  /** One thread's steps through `base`, */
  function FetchSteps(t: nat, req: Request, region: Option<Addr>, obtained: Addr): seq<Action> {
    [Call(t, req), ReadRegion(t)] + if region.Some? then [] else [SystemAlloc(t, obtained), TryInstall(t)]
  }

  /** through swaps that fail for no reason, */
  function SpinSteps(t: nat, spurious: nat): seq<Action> {
    if spurious == 0 then [] else [ReadCursor(t), TrySwap(t, true)] + SpinSteps(t, spurious - 1)
  }

  /** and through the whole of `alloc` and `set_mark`. */
  function AllocSteps(t: nat, layout: Layout, h: Heap, obtained: Addr, spurious: nat): seq<Action> {
    FetchSteps(t, Allocate(layout), h.region, obtained) +
    if Carve(BaseOf(h.region, obtained), h.cursor, layout).End() > REGION then [ReadCursor(t)]
    else SpinSteps(t, spurious) + [ReadCursor(t), TrySwap(t, false)]
  }

  function MarkSteps(t: nat, h: Heap, obtained: Addr): seq<Action> {
    FetchSteps(t, SetMark, h.region, obtained) + [ReadCursor(t), WriteMark(t)]
  }

  lemma {:induction false} RunJoins(s: State, a: seq<Action>, middle: State, b: seq<Action>, end: State)
    requires Run(s, a, middle) && Run(middle, b, end)
    ensures Run(s, a + b, end)
    decreases |a|
  {
    if a == [] {
      assert a + b == b;
    } else {
      RunJoins(Apply(s, a[0]), a[1..], middle, b, end);
      assert (a + b)[1..] == a[1..] + b;
    }
  }

  lemma {:induction false} RunOne(s: State, a: Action)
    requires Enabled(s, a)
    ensures Run(s, [a], Apply(s, a))
  {
    assert [a][1..] == [];
  }

  lemma {:induction false} RunTwo(s: State, a: Action, b: Action)
    requires Enabled(s, a) && Enabled(Apply(s, a), b)
    ensures Run(s, [a, b], Apply(Apply(s, a), b))
  {
    RunOne(s, a);
    RunOne(Apply(s, a), b);
    RunJoins(s, [a], Apply(s, a), [b], Apply(Apply(s, a), b));
    assert [a] + [b] == [a, b];
  }

  /** Nothing stops an idle thread from a call: the system can give it a region if there is none. */
  ghost predicate CanCall(s: State, t: nat, obtained: Addr) {
    && t < |s.threads| && s.threads[t].Idle?
    && (s.region.None? ==> obtained % REGION_ALIGN == 0 && obtained !in s.held)
  }

  /** A thread that runs alone through `base` has the region published and goes on with its request. */
  lemma {:induction false} FetchRuns(s: State, t: nat, req: Request, obtained: Addr) returns (end: State)
    requires CanCall(s, t, obtained) && ValidRequest(req)
    ensures Run(s, FetchSteps(t, req, s.region, obtained), end)
    ensures var base := BaseOf(s.region, obtained);
      HeapOf(end) == HeapOf(s).(region := Some(base)) && end.threads == s.threads[t := LoadCursor(req, base)]
  {
    var called := Apply(s, Call(t, req));
    var read := Apply(called, ReadRegion(t));
    RunTwo(s, Call(t, req), ReadRegion(t));
    if s.region.Some? {
      end := read;
      assert FetchSteps(t, req, s.region, obtained) == [Call(t, req), ReadRegion(t)];
    } else {
      var holding := Apply(read, SystemAlloc(t, obtained));
      end := Apply(holding, TryInstall(t));
      RunTwo(read, SystemAlloc(t, obtained), TryInstall(t));
      RunJoins(s, [Call(t, req), ReadRegion(t)], read, [SystemAlloc(t, obtained), TryInstall(t)], end);
    }
  }

  /** Spurious failures lead back to where they began. */
  lemma {:induction false} SpinRuns(s: State, t: nat, layout: Layout, base: Addr, spurious: nat)
    requires t < |s.threads| && s.threads[t] == LoadCursor(Allocate(layout), base)
    requires Carve(base, s.cursor, layout).End() <= REGION
    ensures Run(s, SpinSteps(t, spurious), s)
  {
    if spurious > 0 {
      var read := Apply(s, ReadCursor(t));
      RunTwo(s, ReadCursor(t), TrySwap(t, true));
      assert Apply(read, TrySwap(t, true)).threads == s.threads;
      SpinRuns(s, t, layout, base, spurious - 1);
      RunJoins(s, [ReadCursor(t), TrySwap(t, true)], s, SpinSteps(t, spurious - 1), s);
    }
  }

  /** From any state an idle thread's call of `alloc`, run alone, hands out the block at the cursor, or nothing when
      that does not fit, however many swaps fail spuriously. */
  lemma {:induction false} AllocRuns(s: State, t: nat, layout: Layout, obtained: Addr, spurious: nat) returns (end: State)
    requires CanCall(s, t, obtained) && layout.Valid()
    ensures Run(s, AllocSteps(t, layout, HeapOf(s), obtained, spurious), end)
    ensures Serves(HeapOf(s), layout, obtained, HeapOf(end)) && end.threads == s.threads
  {
    var base := BaseOf(s.region, obtained);
    var fetched := FetchRuns(s, t, Allocate(layout), obtained);
    var fetch := FetchSteps(t, Allocate(layout), s.region, obtained);
    if Carve(base, s.cursor, layout).End() > REGION {
      end := Apply(fetched, ReadCursor(t));
      RunOne(fetched, ReadCursor(t));
      RunJoins(s, fetch, fetched, [ReadCursor(t)], end);
    } else {
      end := SwapRuns(fetched, t, layout, base);
      SpinRuns(fetched, t, layout, base, spurious);
      RunJoins(fetched, SpinSteps(t, spurious), fetched, [ReadCursor(t), TrySwap(t, false)], end);
      RunJoins(s, fetch, fetched, SpinSteps(t, spurious) + [ReadCursor(t), TrySwap(t, false)], end);
    }
    assert end.threads == s.threads;
  }

  lemma {:induction false} SwapRuns(s: State, t: nat, layout: Layout, base: Addr) returns (end: State)
    requires t < |s.threads| && s.threads[t] == LoadCursor(Allocate(layout), base)
    requires Carve(base, s.cursor, layout).End() <= REGION
    ensures Run(s, [ReadCursor(t), TrySwap(t, false)], end)
    ensures var b := Carve(base, s.cursor, layout);
      HeapOf(end) == HeapOf(s).(cursor := b.End(), live := s.live + [b]) && end.threads == s.threads[t := Idle]
  {
    end := Apply(Apply(s, ReadCursor(t)), TrySwap(t, false));
    RunTwo(s, ReadCursor(t), TrySwap(t, false));
  }

  /** So is its call of `set_mark`, while no other thread is about to store the mark. */
  lemma {:induction false} MarkRuns(s: State, t: nat, obtained: Addr) returns (end: State)
    requires CanCall(s, t, obtained) && forall u :: 0 <= u < |s.threads| ==> !s.threads[u].StoreMark?
    ensures Run(s, MarkSteps(t, HeapOf(s), obtained), end)
    ensures MarkRaised(HeapOf(s), obtained, HeapOf(end)) && end.threads == s.threads
  {
    var fetched := FetchRuns(s, t, SetMark, obtained);
    end := Apply(Apply(fetched, ReadCursor(t)), WriteMark(t));
    RunTwo(fetched, ReadCursor(t), WriteMark(t));
    RunJoins(s, FetchSteps(t, SetMark, s.region, obtained), fetched, [ReadCursor(t), WriteMark(t)], end);
    assert end.threads == s.threads;
  }

  /** After a reset with all threads idle the next block is carved at the mark: what was above it is served again. */
  lemma {:induction false} ResetServes(s: State, t: nat, layout: Layout, obtained: Addr, spurious: nat)
    returns (reset: State, end: State)
    requires Enabled(s, Reset) && CanCall(s, t, obtained) && layout.Valid()
    ensures Run(s, [Reset] + AllocSteps(t, layout, HeapOf(reset), obtained, spurious), end)
    ensures Reclaimed(HeapOf(s), HeapOf(reset)) && Serves(HeapOf(reset), layout, obtained, HeapOf(end))
    ensures Enabled(end, Reset)
    ensures var b := Carve(BaseOf(s.region, obtained), s.mark, layout); b.End() <= REGION ==> end.live == [b]
  {
    reset := Apply(s, Reset);
    RunOne(s, Reset);
    end := AllocRuns(reset, t, layout, obtained, spurious);
    RunJoins(s, [Reset], reset, AllocSteps(t, layout, HeapOf(reset), obtained, spurious), end);
  }

  /** What `base` returns is recorded as it returns, and is where the thread then works. */
  lemma BasesRecorded(s: State, a: Action)
    requires Enabled(s, a)
    ensures a.Reset? ==> Apply(s, a).bases == s.bases
    ensures !a.Reset? ==> var pc := Apply(s, a).threads[a.t];
      Apply(s, a).bases == if pc.LoadCursor? && !a.TrySwap? then s.bases + {pc.base} else s.bases
  {}

  /** There is one multiple of an alignment from any offset on within the alignment's reach. */
  lemma OneMultiple(x: nat, y: nat, align: nat, cur: nat)
    requires align > 0 && x % align == 0 && y % align == 0 && cur <= x < cur + align && cur <= y < cur + align
    ensures x == y
  {
    OneMultipleOf(x / align, y / align, align, cur);
  }

  lemma OneMultipleOf(i: nat, j: nat, align: nat, cur: nat)
    requires align > 0 && cur <= align * i < cur + align && cur <= align * j < cur + align
    ensures i == j
  {
    Distribute(align, i, j);
    ProductFar(align, i - j);
  }

  /** The first block of all begins with the region, whatever its alignment. */
  lemma {:induction false} FreshServes(n: nat, t: nat, layout: Layout, obtained: Addr, spurious: nat) returns (end: State)
    requires t < n && obtained % REGION_ALIGN == 0 && layout.Valid()
    ensures Run(Init(n), AllocSteps(t, layout, HeapOf(Init(n)), obtained, spurious), end)
    ensures end.live == if layout.size <= REGION then [Block(obtained, 0, layout)] else []
  {
    end := AllocRuns(Init(n), t, layout, obtained, spurious);
    AlignUpRounds(0, layout.align);
    OneMultiple(AlignUp(0, layout.align), 0, layout.align, 0);
  }

  /** An allocating thread gives up exactly when its size from the cursor's next multiple of the alignment on passes
      the end of the region. */
  lemma GivesUpWhenFull(s: State, a: Action, off: nat)
    requires Inv(s) && Enabled(s, a) && a.ReadCursor? && s.threads[a.t].req.Allocate?
    requires var align := s.threads[a.t].req.layout.align; align > 0 && off % align == 0 && s.cursor <= off < s.cursor + align
    ensures Apply(s, a).threads[a.t].Idle? <==> off + s.threads[a.t].req.layout.size > REGION
    ensures !Apply(s, a).threads[a.t].Idle? ==> Apply(s, a).threads[a.t].SwapCursor?
  {
    var pc := s.threads[a.t];
    assert CursorPc(s, pc);
    AlignUpRounds(s.cursor, pc.req.layout.align);
    OneMultiple(off, AlignUp(s.cursor, pc.req.layout.align), pc.req.layout.align, s.cursor);
  }

  // ----- One thread -----

  /** The allocator as a single thread sees it, with the blocks it has handed out. */
  class Allocator {
    var region: Option<Addr>
    var cursor: nat
    var mark: nat
    ghost var kept: seq<Block>
    ghost var live: seq<Block>

    ghost predicate Valid()
      reads this
    {
      && (region.Some? ==> region.value % REGION_ALIGN == 0)
      && mark <= cursor <= REGION
      && Packed(kept, 0, mark)
      && Packed(live, mark, cursor)
      && forall b :: b in kept + live ==> region == Some(b.base)
    }

    ghost function View(): Heap
      reads this
    {
      Heap(region, cursor, mark, kept, live)
    }

    constructor ()
      ensures Valid() && region.None? && cursor == mark == 0 && kept == live == []
    {
      region, cursor, mark, kept, live := None, 0, 0, [], [];
    }

    /** `obtained` is what the system allocator would answer. */
    method Base(obtained: Addr) returns (p: Addr)
      requires Valid() && obtained % REGION_ALIGN == 0
      modifies this`region
      ensures Valid() && region == Some(p)
      ensures if old(region).Some? then region == old(region) else p == obtained
    {
      if region.Some? {
        return region.value;
      }
      region := Some(obtained);
      return obtained;
    }

    method SetMark(obtained: Addr)
      requires Valid() && obtained % REGION_ALIGN == 0
      modifies this
      ensures Valid() && region.Some? && (old(region).Some? ==> region == old(region))
      ensures mark == cursor == old(cursor) && kept == old(kept) + old(live) && live == []
      ensures MarkRaised(old(View()), obtained, View())
    {
      var _ := Base(obtained);
      PackedJoins(kept, live, 0, mark, cursor);
      mark, kept, live := cursor, kept + live, [];
    }

    method Reset()
      requires Valid()
      modifies this
      ensures Valid() && cursor == mark == old(mark) && live == []
      ensures region == old(region) && kept == old(kept)
      ensures Reclaimed(old(View()), View())
    {
      cursor, live := mark, [];
    }

    /** `spurious` is how often the swap fails for no reason. */
    method Alloc(layout: Layout, obtained: Addr, spurious: nat) returns (r: Option<Addr>)
      requires Valid() && layout.Valid() && obtained % REGION_ALIGN == 0
      modifies this
      ensures Valid() && region.Some? && (old(region).Some? ==> region == old(region))
      ensures mark == old(mark) && kept == old(kept)
      ensures var b := Carve(region.value, old(cursor), layout);
        if b.End() > REGION then r == None && cursor == old(cursor) && live == old(live)
        else r == Some(b.Address()) && cursor == b.End() && live == old(live) + [b] && Sound(b, region.value)
      ensures Serves(old(View()), layout, obtained, View())
    {
      var base := Base(obtained);
      CarveIs(base, cursor, layout);
      var failures := spurious;
      while true
        invariant Valid() && region == Some(base) && (old(region).Some? ==> region == old(region))
        invariant mark == old(mark) && kept == old(kept) && cursor == old(cursor) && live == old(live)
        decreases failures
      {
        var cur := cursor;
        var b := Carve(base, cur, layout);
        if b.End() > REGION {
          return None;
        }
        if failures == 0 {
          PackedExtends(live, mark, cursor, b);
          if layout.align <= REGION_ALIGN { AddressAligned(b); }
          cursor, live := b.End(), live + [b];
          return Some(b.Address());
        }
        failures := failures - 1;
      }
    }
  }
}
