/** The two trees of bench/examples/arena_spike.rs: one box a node, and nodes in one growing region that
    name their children by 32-bit index. */
module Arena {
  import opened Bits

  // ----- Nodes -----

  datatype Meta = Meta(spanStart: U32, spanEnd: U32, nodeId: nat)

  /** `i | 1` sets the low bit. */
  function NewMeta(i: U32): Meta { Meta(i, After(i, 1), if i % 2 == 0 then i + 1 else i) }

  /** `as u32`: n modulo 2^32. */
  function Low32(n: nat): U32 { if n < U32_MODULUS then n else Low32(n - U32_MODULUS) }

  /** `wrapping_add` on 32 bits. */
  function After(c: U32, n: nat): U32 { Low32(c + n) }

  /** The fields shifted apart and exclusive-ored. The sums below hold of it as of any way to fold a node's data. */
  function Fold(m: Meta): nat {
    Bitwise(Xor, Bitwise(Xor, m.spanStart, m.spanEnd * 0x1_0000), m.nodeId * U32_MODULUS)
  }

  datatype BoxNode = Leaf(value: nat, meta: Meta) | Binary(left: BoxNode, right: BoxNode, op: nat, meta: Meta)
  datatype ArenaNode = ALeaf(value: nat, meta: Meta) | ABinary(left: U32, right: U32, op: nat, meta: Meta)

  /** `id & 0xff` keeps the low byte. */
  function OpByte(id: U32): nat { id % 0x100 }

  function Plus64(a: nat, b: nat): nat { (a + b) % U64_MODULUS }

  function SumBoxed(t: BoxNode, fold: Meta -> nat): nat {
    match t
    case Leaf(value, meta) => Plus64(value, fold(meta))
    case Binary(l, r, op, meta) => Plus64(Plus64(Plus64(SumBoxed(l, fold), SumBoxed(r, fold)), op), fold(meta))
  }

  function Size(t: BoxNode): (n: nat)
    ensures n > 0
  {
    match t
    case Leaf(_, _) => 1
    case Binary(l, r, _, _) => Size(l) + Size(r) + 1
  }

  function NodeCount(depth: nat): nat { Pow2(depth + 1) - 1 }

  // ----- The boxed tree -----

  class Counter {
    var value: U32

    constructor (value: U32)
      ensures this.value == value
    {
      this.value := value;
    }
  }

  /** The balanced tree whose nodes are numbered on from c in pre-order. */
  function Balanced(depth: nat, c: U32): BoxNode {
    var id := After(c, 1);
    if depth == 0 then Leaf(id, NewMeta(id))
    else
      Binary(Balanced(depth - 1, id), Balanced(depth - 1, After(id, NodeCount(depth - 1))), OpByte(id), NewMeta(id))
  }

  method BuildBoxed(depth: nat, counter: Counter) returns (t: BoxNode)
    modifies counter
    ensures t == Balanced(depth, old(counter.value))
    ensures counter.value == After(old(counter.value), NodeCount(depth))
    decreases depth
  {
    ghost var start := counter.value;
    counter.value := After(counter.value, 1);
    var id := counter.value;
    if depth == 0 {
      t := Leaf(id, NewMeta(id));
    } else {
      var left := BuildBoxed(depth - 1, counter);
      var right := BuildBoxed(depth - 1, counter);
      t := Binary(left, right, OpByte(id), NewMeta(id));
      CountsOn(start, depth);
    }
  }

  lemma CountsOn(c: U32, depth: nat)
    requires depth > 0
    ensures var n := NodeCount(depth - 1);
      NodeCount(depth) == 2 * n + 1 && After(After(After(c, 1), n), n) == After(c, NodeCount(depth))
  {
    var n := NodeCount(depth - 1);
    AfterAfter(c, 1, n);
    AfterAfter(c, 1 + n, n);
  }

  lemma AfterAfter(c: U32, m: nat, n: nat)
    ensures After(After(c, m), n) == After(c, m + n)
  {
    Low32Adds(c + m, n);
  }

  lemma {:induction false} Low32Adds(a: nat, b: nat)
    ensures Low32(Low32(a) + b) == Low32(a + b)
    decreases a
  {
    if a >= U32_MODULUS { Low32Adds(a - U32_MODULUS, b); }
  }

  lemma {:induction false} BalancedSize(depth: nat, c: U32)
    ensures Size(Balanced(depth, c)) == NodeCount(depth)
    decreases depth
  {
    if depth > 0 {
      var t := Balanced(depth, c);
      BalancedSize(depth - 1, After(c, 1));
      BalancedSize(depth - 1, After(After(c, 1), NodeCount(depth - 1)));
      assert Size(t) == Size(t.left) + Size(t.right) + 1;
    }
  }

  /** The node numbers in pre-order. */
  function Ids(t: BoxNode): seq<nat> {
    match t
    case Leaf(_, meta) => [meta.spanStart]
    case Binary(l, r, _, meta) => [meta.spanStart] + Ids(l) + Ids(r)
  }

  lemma {:induction false} IdsCount(t: BoxNode)
    ensures |Ids(t)| == Size(t)
  {
    if t.Binary? { IdsCount(t.left); IdsCount(t.right); }
  }

  lemma IdsAt(t: BoxNode, k: nat)
    requires t.Binary? && 0 < k < Size(t)
    ensures |Ids(t)| == Size(t) && |Ids(t.left)| == Size(t.left) && |Ids(t.right)| == Size(t.right)
    ensures Ids(t)[k] == if k <= Size(t.left) then Ids(t.left)[k - 1] else Ids(t.right)[k - 1 - Size(t.left)]
  {
    IdsCount(t.left);
    IdsCount(t.right);
  }

  /** The nodes count up from c, modulo 2^32, in pre-order. */
  ghost predicate Numbered(t: BoxNode, c: U32) {
    |Ids(t)| == Size(t) && forall k :: 0 <= k < Size(t) ==> Ids(t)[k] == After(c, k + 1)
  }

  lemma NumberedOn(t: BoxNode, c: U32)
    requires t.Binary? && t.meta.spanStart == After(c, 1)
    requires Numbered(t.left, After(c, 1)) && Numbered(t.right, After(After(c, 1), Size(t.left)))
    ensures Numbered(t, c)
  {
    IdsCount(t);
    forall k | 0 < k < Size(t) ensures Ids(t)[k] == After(c, k + 1) {
      IdsAt(t, k);
      if k <= Size(t.left) {
        AfterAfter(c, 1, k);
      } else {
        AfterAfter(c, 1, Size(t.left));
        AfterAfter(c, 1 + Size(t.left), k - Size(t.left));
      }
    }
  }

  lemma {:induction false} NumberedInPreOrder(depth: nat, c: U32)
    ensures Numbered(Balanced(depth, c), c)
    decreases depth
  {
    if depth > 0 {
      var t, id := Balanced(depth, c), After(c, 1);
      BalancedSize(depth - 1, id);
      NumberedInPreOrder(depth - 1, id);
      NumberedInPreOrder(depth - 1, After(id, NodeCount(depth - 1)));
      NumberedOn(t, c);
    }
  }

  // ----- The arena -----

  class Region {
    var nodes: seq<ArenaNode>

    constructor ()
      ensures nodes == []
    {
      nodes := [];
    }
  }

  /** A tree's nodes stand in post-order and end at idx: its left ones, its right ones and its root, which
      names its children by index. */
  ghost predicate Laid(arena: seq<ArenaNode>, idx: int, t: BoxNode)
    decreases t
  {
    && 0 <= idx < |arena| && arena[idx].meta == t.meta
    && match t
       case Leaf(value, _) => arena[idx].ALeaf? && arena[idx].value == value
       case Binary(l, r, op, _) =>
         && arena[idx].ABinary? && arena[idx].op == op
         && arena[idx].left == idx - 1 - Size(r) && arena[idx].right == idx - 1
         && Laid(arena, idx - 1 - Size(r), l) && Laid(arena, idx - 1, r)
  }

  lemma {:induction false} LaidGrows(arena: seq<ArenaNode>, more: seq<ArenaNode>, idx: int, t: BoxNode)
    requires arena <= more && Laid(arena, idx, t)
    ensures Laid(more, idx, t)
    decreases t
  {
    assert more[idx] == arena[idx];
    if t.Binary? {
      LaidGrows(arena, more, idx - 1 - Size(t.right), t.left);
      LaidGrows(arena, more, idx - 1, t.right);
    }
  }

  /** Children stand before their parents. */
  ghost predicate Backward(arena: seq<ArenaNode>) {
    forall i :: 0 <= i < |arena| && arena[i].ABinary? ==> arena[i].left < i && arena[i].right < i
  }

  function SumArena(arena: seq<ArenaNode>, idx: nat, fold: Meta -> nat): nat
    requires Backward(arena) && idx < |arena|
    decreases idx
  {
    match arena[idx]
    case ALeaf(value, meta) => Plus64(value, fold(meta))
    case ABinary(l, r, op, meta) =>
      Plus64(Plus64(Plus64(SumArena(arena, l, fold), SumArena(arena, r, fold)), op), fold(meta))
  }

  /** The tree an index stands for. */
  function Decode(arena: seq<ArenaNode>, idx: nat): BoxNode
    requires Backward(arena) && idx < |arena|
    decreases idx
  {
    match arena[idx]
    case ALeaf(value, meta) => Leaf(value, meta)
    case ABinary(l, r, op, meta) => Binary(Decode(arena, l), Decode(arena, r), op, meta)
  }

  /** Building leaves what was there and appends 2^(depth + 1) - 1 nodes; the returned index is the last one's
      in 32 bits, and while that is no different the nodes are the boxed tree's, in post-order. */
  method BuildArena(depth: nat, arena: Region, counter: Counter) returns (idx: U32)
    modifies arena, counter
    ensures old(arena.nodes) <= arena.nodes && |arena.nodes| == |old(arena.nodes)| + NodeCount(depth)
    ensures idx == Low32(|arena.nodes| - 1)
    ensures counter.value == After(old(counter.value), NodeCount(depth))
    ensures |arena.nodes| <= U32_MODULUS ==> Laid(arena.nodes, idx, Balanced(depth, old(counter.value)))
    ensures |arena.nodes| <= U32_MODULUS && Backward(old(arena.nodes)) ==> Backward(arena.nodes)
    decreases depth
  {
    ghost var start, before := counter.value, arena.nodes;
    counter.value := After(counter.value, 1);
    var id := counter.value;
    if depth == 0 {
      idx := Low32(|arena.nodes|);
      arena.nodes := arena.nodes + [ALeaf(id, NewMeta(id))];
      LeafBuilt(start, before);
    } else {
      var left := BuildArena(depth - 1, arena, counter);
      ghost var mid := arena.nodes;
      var right := BuildArena(depth - 1, arena, counter);
      ghost var inner := arena.nodes;
      CountsOn(start, depth);
      idx := Low32(|arena.nodes|);
      arena.nodes := arena.nodes + [ABinary(left, right, OpByte(id), NewMeta(id))];
      BuiltOn(depth, start, mid, inner, left, right);
    }
  }

  lemma LeafBuilt(start: U32, before: seq<ArenaNode>)
    ensures var id := After(start, 1);
      var all := before + [ALeaf(id, NewMeta(id))];
      && NodeCount(0) == 1
      && (|all| <= U32_MODULUS ==> Laid(all, |before|, Balanced(0, start)))
      && (|all| <= U32_MODULUS && Backward(before) ==> Backward(all))
  {}

  lemma BuiltOn(depth: nat, start: U32, mid: seq<ArenaNode>, inner: seq<ArenaNode>, left: U32, right: U32)
    requires depth > 0 && mid <= inner && |inner| == |mid| + NodeCount(depth - 1) && |mid| >= NodeCount(depth - 1)
    requires left == Low32(|mid| - 1) && right == Low32(|inner| - 1)
    requires |mid| <= U32_MODULUS ==> Laid(mid, left, Balanced(depth - 1, After(start, 1)))
    requires |inner| <= U32_MODULUS ==>
      Laid(inner, right, Balanced(depth - 1, After(After(start, 1), NodeCount(depth - 1))))
    ensures var id := After(start, 1);
      var all := inner + [ABinary(left, right, OpByte(id), NewMeta(id))];
      && (|all| <= U32_MODULUS ==> Laid(all, |inner|, Balanced(depth, start)))
      && (|all| <= U32_MODULUS && Backward(inner) ==> Backward(all))
  {
    var t := Balanced(depth, start);
    BalancedSize(depth - 1, After(After(start, 1), NodeCount(depth - 1)));
    if |inner| < U32_MODULUS { RootLaid(mid, inner, t, left, right); }
  }

  lemma RootLaid(mid: seq<ArenaNode>, inner: seq<ArenaNode>, t: BoxNode, left: U32, right: U32)
    requires t.Binary? && mid <= inner && |inner| == |mid| + Size(t.right)
    requires left == |mid| - 1 && Laid(mid, left, t.left) && right == |inner| - 1 && Laid(inner, right, t.right)
    ensures Laid(inner + [ABinary(left, right, t.op, t.meta)], |inner|, t)
  {
    var all := inner + [ABinary(left, right, t.op, t.meta)];
    assert mid <= all && inner <= all;
    LaidGrows(mid, all, left, t.left);
    LaidGrows(inner, all, right, t.right);
  }

  lemma {:induction false} SumsAgree(arena: seq<ArenaNode>, idx: nat, fold: Meta -> nat)
    requires Backward(arena) && idx < |arena|
    ensures SumArena(arena, idx, fold) == SumBoxed(Decode(arena, idx), fold)
    decreases idx
  {
    if arena[idx].ABinary? {
      SumsAgree(arena, arena[idx].left, fold);
      SumsAgree(arena, arena[idx].right, fold);
    }
  }

  /** From nodes so laid the root's index decodes to the boxed tree, and sums to its sum. */
  lemma {:induction false} LaidDecodes(arena: seq<ArenaNode>, idx: nat, t: BoxNode)
    requires Backward(arena) && Laid(arena, idx, t)
    ensures Decode(arena, idx) == t
    decreases t
  {
    if t.Binary? {
      LaidDecodes(arena, idx - 1 - Size(t.right), t.left);
      LaidDecodes(arena, idx - 1, t.right);
    }
  }

  lemma {:induction false} LaidSums(arena: seq<ArenaNode>, idx: nat, t: BoxNode, fold: Meta -> nat)
    requires Backward(arena) && Laid(arena, idx, t)
    ensures SumArena(arena, idx, fold) == SumBoxed(t, fold)
  {
    LaidDecodes(arena, idx, t);
    SumsAgree(arena, idx, fold);
  }

  // ----- What the sums add up -----

  function Weight(node: ArenaNode, fold: Meta -> nat): nat {
    fold(node.meta) + if node.ALeaf? then node.value else node.op
  }

  /** The nodes' values or operators and folded metadata, one after the other. */
  function Total(nodes: seq<ArenaNode>, fold: Meta -> nat): nat {
    if nodes == [] then 0 else Total(nodes[..|nodes| - 1], fold) + Weight(nodes[|nodes| - 1], fold)
  }

  lemma {:induction false} TotalAppends(a: seq<ArenaNode>, b: seq<ArenaNode>, fold: Meta -> nat)
    ensures Total(a + b, fold) == Total(a, fold) + Total(b, fold)
  {
    if b == [] {
      assert a + b == a;
    } else {
      TotalAppends(a, b[..|b| - 1], fold);
      assert (a + b)[..|a + b| - 1] == a + b[..|b| - 1];
    }
  }

  lemma {:induction false} TotalOfOne(node: ArenaNode, fold: Meta -> nat)
    ensures Total([node], fold) == Weight(node, fold)
  {
    assert [node][..0] == [];
  }

  /** A node's two sums and its own part, wrapped one by one or all at once. */
  lemma Wraps(l: nat, r: nat, x: nat, y: nat)
    ensures Plus64(Plus64(Plus64(l % U64_MODULUS, r % U64_MODULUS), x), y) == (l + r + (y + x)) % U64_MODULUS
  {
    WrapsBoth(l, r);
    WrapsLeft(l + r, x);
    WrapsLeft(l + r + x, y);
    assert l + r + x + y == l + r + (y + x);
  }

  lemma WrapsLeft(a: nat, b: nat)
    ensures Plus64(a % U64_MODULUS, b) == (a + b) % U64_MODULUS
  {
    assert (a % 0x1_0000_0000_0000_0000 + b) % 0x1_0000_0000_0000_0000 == (a + b) % 0x1_0000_0000_0000_0000;
  }

  lemma WrapsBoth(a: nat, b: nat)
    ensures Plus64(a % U64_MODULUS, b % U64_MODULUS) == (a + b) % U64_MODULUS
  {
    WrapsLeft(a, b % U64_MODULUS);
    WrapsLeft(b, a);
    assert a + b % U64_MODULUS == b % U64_MODULUS + a && a + b == b + a;
  }

  lemma {:induction false} LaidSegment(arena: seq<ArenaNode>, idx: nat, t: BoxNode)
    requires Laid(arena, idx, t)
    ensures Size(t) <= idx + 1
    decreases t
  {
    if t.Binary? { LaidSegment(arena, idx - 1 - Size(t.right), t.left); }
  }

  /** The sum from idx is the total over [lo, idx], wrapped. */
  ghost predicate SumsUp(arena: seq<ArenaNode>, lo: nat, idx: nat, fold: Meta -> nat)
    requires Backward(arena) && lo <= idx < |arena|
  {
    SumArena(arena, idx, fold) == Total(arena[lo..idx + 1], fold) % U64_MODULUS
  }

  lemma {:induction false} StretchTotal(arena: seq<ArenaNode>, lo: nat, idx: nat, t: BoxNode, fold: Meta -> nat)
    requires Backward(arena) && Laid(arena, idx, t) && lo + Size(t) == idx + 1
    ensures SumsUp(arena, lo, idx, fold)
    decreases t
  {
    if t.Leaf? {
      LeafTotal(arena, idx, fold);
    } else {
      var middle := LaidParts(arena, lo, idx, t);
      StretchTotal(arena, lo, middle - 1, t.left, fold);
      StretchTotal(arena, middle, idx - 1, t.right, fold);
      BinaryTotal(arena, lo, middle, idx, fold);
    }
  }

  /** Where the stretches of a laid tree's operands begin. */
  lemma {:induction false} LaidParts(arena: seq<ArenaNode>, lo: nat, idx: nat, t: BoxNode) returns (middle: nat)
    requires t.Binary? && Laid(arena, idx, t) && lo + Size(t) == idx + 1
    ensures lo + Size(t.left) == middle && middle + Size(t.right) == idx && lo < middle < idx
    ensures Laid(arena, middle - 1, t.left) && Laid(arena, idx - 1, t.right)
    ensures arena[idx].ABinary? && arena[idx].left == middle - 1 && arena[idx].right == idx - 1
  {
    middle := idx - Size(t.right);
  }

  lemma {:induction false} LeafTotal(arena: seq<ArenaNode>, idx: nat, fold: Meta -> nat)
    requires Backward(arena) && idx < |arena| && arena[idx].ALeaf?
    ensures SumsUp(arena, idx, idx, fold)
  {
    assert arena[idx..idx + 1] == [arena[idx]];
    TotalOfOne(arena[idx], fold);
  }

  lemma {:induction false} BinaryTotal(arena: seq<ArenaNode>, lo: nat, middle: nat, idx: nat, fold: Meta -> nat)
    requires Backward(arena) && lo < middle < idx < |arena| && arena[idx].ABinary?
    requires arena[idx].left == middle - 1 && arena[idx].right == idx - 1
    requires SumsUp(arena, lo, middle - 1, fold) && SumsUp(arena, middle, idx - 1, fold)
    ensures SumsUp(arena, lo, idx, fold)
  {
    var l, r := Total(arena[lo..middle], fold), Total(arena[middle..idx], fold);
    ThreeStretches(arena, lo, middle, idx, fold);
    Wraps(l, r, arena[idx].op, fold(arena[idx].meta));
    assert Total(arena[lo..idx + 1], fold) == l + r + (fold(arena[idx].meta) + arena[idx].op);
  }

  lemma {:induction false} ThreeStretches(arena: seq<ArenaNode>, lo: nat, middle: nat, hi: nat, fold: Meta -> nat)
    requires lo <= middle <= hi < |arena|
    ensures Total(arena[lo..hi + 1], fold)
      == Total(arena[lo..middle], fold) + Total(arena[middle..hi], fold) + Weight(arena[hi], fold)
  {
    assert arena[lo..hi + 1] == arena[lo..middle] + arena[middle..hi] + [arena[hi]];
    TotalAppends(arena[lo..middle], arena[middle..hi], fold);
    TotalAppends(arena[lo..middle] + arena[middle..hi], [arena[hi]], fold);
    TotalOfOne(arena[hi], fold);
  }

  /** The arena's sum from a laid tree's root is the total over the nodes of its stretch, modulo 2^64. */
  lemma {:induction false} ArenaTotal(arena: seq<ArenaNode>, idx: nat, t: BoxNode, fold: Meta -> nat)
    requires Backward(arena) && Laid(arena, idx, t)
    ensures Size(t) <= idx + 1 && SumArena(arena, idx, fold) == Total(arena[idx + 1 - Size(t)..idx + 1], fold) % U64_MODULUS
  {
    LaidSegment(arena, idx, t);
    StretchTotal(arena, idx + 1 - Size(t), idx, t, fold);
  }

  /** On an arena that holds one tree alone that is every node's. */
  lemma {:induction false} WholeArenaTotal(arena: seq<ArenaNode>, t: BoxNode, fold: Meta -> nat)
    requires Backward(arena) && |arena| == Size(t) && Laid(arena, |arena| - 1, t)
    ensures SumArena(arena, |arena| - 1, fold) == Total(arena, fold) % U64_MODULUS
  {
    ArenaTotal(arena, |arena| - 1, t, fold);
    assert arena[0..|arena|] == arena;
  }

  /** A boxed tree's nodes in pre-order, without their children. */
  function Nodes(t: BoxNode): seq<ArenaNode> {
    match t
    case Leaf(value, meta) => [ALeaf(value, meta)]
    case Binary(l, r, op, meta) => [ABinary(0, 0, op, meta)] + (Nodes(l) + Nodes(r))
  }

  lemma {:induction false} BoxedTotal(t: BoxNode, fold: Meta -> nat)
    ensures |Nodes(t)| == Size(t) && SumBoxed(t, fold) == Total(Nodes(t), fold) % U64_MODULUS
  {
    if t.Leaf? {
      TotalOfOne(ALeaf(t.value, t.meta), fold);
    } else {
      BoxedTotal(t.left, fold);
      BoxedTotal(t.right, fold);
      TotalOfOne(ABinary(0, 0, t.op, t.meta), fold);
      TotalAppends(Nodes(t.left), Nodes(t.right), fold);
      TotalAppends([ABinary(0, 0, t.op, t.meta)], Nodes(t.left) + Nodes(t.right), fold);
      Wraps(Total(Nodes(t.left), fold), Total(Nodes(t.right), fold), t.op, fold(t.meta));
    }
  }

  /** A leaf holds its number, and an operator the low byte of its own. A number's span ends at the next one, and its
      identity is the odd one of it and its neighbour. */
  ghost predicate Holds(node: ArenaNode) {
    var m := node.meta;
    && (if node.ALeaf? then node.value == m.spanStart else node.op == m.spanStart % 0x100)
    && m.spanEnd == (if m.spanStart == U32_MODULUS - 1 then 0 else m.spanStart + 1)
    && m.nodeId % 2 == 1 && m.nodeId / 2 == m.spanStart / 2
  }

  lemma NewHolds(id: U32)
    ensures Holds(ALeaf(id, NewMeta(id))) && Holds(ABinary(0, 0, OpByte(id), NewMeta(id)))
  {}

  /** Every node of a balanced tree does. */
  lemma {:induction false} BalancedHolds(depth: nat, c: U32, node: ArenaNode)
    requires node in Nodes(Balanced(depth, c))
    ensures Holds(node)
    decreases depth
  {
    NewHolds(After(c, 1));
    if depth > 0 {
      var t, id := Balanced(depth, c), After(c, 1);
      if node in Nodes(t.left) {
        BalancedHolds(depth - 1, id, node);
      } else if node in Nodes(t.right) {
        BalancedHolds(depth - 1, After(id, NodeCount(depth - 1)), node);
      }
    }
  }

  // ----- What a node's data fold to -----

  lemma {:induction false} XorZero(a: nat)
    ensures Bitwise(Xor, a, 0) == a && Bitwise(Xor, 0, a) == a
  {
    if a > 0 { XorZero(a / 2); }
  }

  function Joined(low: nat, high: nat): nat { low + 0x1_0000 * high }

  lemma XorHalves(low: nat, high: nat, low': nat, high': nat)
    requires low < 0x1_0000 && low' < 0x1_0000
    ensures Bitwise(Xor, low, low') < 0x1_0000
    ensures Bitwise(Xor, Joined(low, high), Joined(low', high')) == Joined(Bitwise(Xor, low, low'), Bitwise(Xor, high, high'))
  {
    Pow2Values();
    Pow2Sum(8, 8);
    BitwiseSplit(Xor, 16, 0x1_0000, Joined(low, high), low, high, Joined(low', high'), low', high');
  }

  lemma XorFirstTwo(s: nat, s': nat, e: nat, e': nat)
    requires s < 0x1_0000 && s' < 0x1_0000 && e < 0x1_0000
    ensures Bitwise(Xor, Joined(s, s'), Joined(0, Joined(e, e'))) == Joined(s, Joined(Bitwise(Xor, s', e), e'))
    ensures Bitwise(Xor, s', e) < 0x1_0000
  {
    XorZero(s);
    XorZero(e');
    assert s' == Joined(s', 0);
    XorHalves(s, s', 0, Joined(e, e'));
    XorHalves(s', 0, e, e');
  }

  lemma XorThird(s: nat, w: nat, e': nat, i: nat, i': nat)
    requires s < 0x1_0000 && w < 0x1_0000 && e' < 0x1_0000 && i < 0x1_0000
    ensures Bitwise(Xor, Joined(s, Joined(w, e')), Joined(0, Joined(0, Joined(i, i'))))
      == Joined(s, Joined(w, Joined(Bitwise(Xor, e', i), i')))
    ensures Bitwise(Xor, e', i) < 0x1_0000
  {
    XorZero(s);
    XorHalves(s, Joined(w, e'), 0, Joined(0, Joined(i, i')));
    XorFirstTwo(w, e', i, i');
  }

  /** The fold's four parts of sixteen bits are the low half of the span's start, its high half against the low half of
      the end, the end's high half against the low half of the identity, and the identity's high half. */
  lemma FoldParts(s: nat, s': nat, e: nat, e': nat, i: nat, i': nat)
    requires s < 0x1_0000 && s' < 0x1_0000 && e < 0x1_0000 && e' < 0x1_0000 && i < 0x1_0000 && i' < 0x1_0000
    ensures Fold(Meta(Joined(s, s'), Joined(e, e'), Joined(i, i')))
      == Joined(s, Joined(Bitwise(Xor, s', e), Joined(Bitwise(Xor, e', i), i')))
    ensures Bitwise(Xor, s', e) < 0x1_0000 && Bitwise(Xor, e', i) < 0x1_0000
  {
    XorFirstTwo(s, s', e, e');
    XorThird(s, Bitwise(Xor, s', e), e', i, i');
    Shifted(Joined(e, e'), Joined(i, i'));
  }

  lemma Shifted(a: nat, b: nat)
    ensures a * 0x1_0000 == Joined(0, a) && b * U32_MODULUS == Joined(0, Joined(0, b))
  {}

  /** No field is lost in it: data that differ in one field alone fold differently. */
  lemma FoldTellsFields(m: Meta, start: U32, end: U32, id: nat)
    ensures start != m.spanStart ==> Fold(m.(spanStart := start)) != Fold(m)
    ensures end != m.spanEnd ==> Fold(m.(spanEnd := end)) != Fold(m)
    ensures id != m.nodeId ==> Fold(m.(nodeId := id)) != Fold(m)
  {
    var high := m.nodeId * U32_MODULUS;
    XorCancels(m.spanStart, start, m.spanEnd * 0x1_0000);
    XorCancels(Bitwise(Xor, m.spanStart, m.spanEnd * 0x1_0000), Bitwise(Xor, start, m.spanEnd * 0x1_0000), high);
    XorCancels(Bitwise(Xor, m.spanStart, m.spanEnd * 0x1_0000), Bitwise(Xor, m.spanStart, end * 0x1_0000), high);
    XorTells(m.spanStart, m.spanEnd * 0x1_0000, end * 0x1_0000);
    XorTells(Bitwise(Xor, m.spanStart, m.spanEnd * 0x1_0000), high, id * U32_MODULUS);
  }

  lemma XorTells(a: nat, b: nat, c: nat)
    ensures Bitwise(Xor, a, b) == Bitwise(Xor, a, c) ==> b == c
  {
    if Bitwise(Xor, a, b) == Bitwise(Xor, a, c) { XorInjective(a, b, c); }
  }

  lemma XorCancels(a: nat, b: nat, c: nat)
    ensures Bitwise(Xor, a, c) == Bitwise(Xor, b, c) ==> a == b
  {
    XorCommutes(a, c);
    XorCommutes(b, c);
    XorTells(c, a, b);
  }
}
