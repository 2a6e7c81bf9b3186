/** The deterministic merge of bench/examples/parallel_compare.rs: trees parsed by workers, each with
    symbols of its own interner, rewritten into one shared interner. */
module Merge {
  import opened Interner
  import opened Wrappers

  /** A part of a node, or a text interned by an attempt the parser gave up, which no tree keeps. */
  datatype Part = TheName | TheRaw | Kid(i: nat) | Tried(text: string)

  /** A syntax tree as the remapper sees it. A node's name is at a site the remapper rewrites; its raw symbol is at
      one it does not, such as a prefix operator's. The children are in the order the walk visits them, and `order`
      is the order in which the parser meets the node's parts and what it tried between them. */
  datatype Tree<+N, +R> = Node(kind: nat, name: Option<N>, raw: Option<R>, kids: seq<Tree<N, R>>, order: seq<Part>)

  /** A tree of symbols, one with its names resolved, and a statement as it is written. */
  type Coded = Tree<Symbol, Symbol>
  type Named = Tree<string, Symbol>
  type Text = Tree<string, string>

  /** What a worker hands over: its frozen resolver and its statements. */
  datatype Parsed = Parsed(resolver: seq<string>, statements: seq<Coded>)

  // ----- Trees of texts -----

  ghost predicate Resolvable(kws: Keywords, resolver: seq<string>, t: Coded) {
    (t.name.Some? ==> Resolve(kws, resolver, t.name.value).Some?)
    && forall i :: 0 <= i < |t.kids| ==> Resolvable(kws, resolver, t.kids[i])
  }

  /** The tree a worker's tree stands for: its symbols replaced by their texts. */
  ghost function Resolved(kws: Keywords, resolver: seq<string>, t: Coded): Named
    requires Resolvable(kws, resolver, t)
  {
    var name := if t.name.Some? then Some(Resolve(kws, resolver, t.name.value).value) else None;
    var kids := seq(|t.kids|, i requires 0 <= i < |t.kids| => Resolved(kws, resolver, t.kids[i]));
    Node(t.kind, name, t.raw, kids, t.order)
  }

  /** A text tree interned into a table that knows its names. */
  ghost predicate Known(kws: Keywords, table: seq<string>, t: Named) {
    (t.name.Some? ==> t.name.value in kws.all + table)
    && forall i :: 0 <= i < |t.kids| ==> Known(kws, table, t.kids[i])
  }

  ghost function Interned(kws: Keywords, table: seq<string>, t: Named): Coded
    requires Known(kws, table, t)
  {
    var name := if t.name.Some? then Some(SymbolOf(kws, table, t.name.value)) else None;
    var kids := seq(|t.kids|, i requires 0 <= i < |t.kids| => Interned(kws, table, t.kids[i]));
    Node(t.kind, name, t.raw, kids, t.order)
  }

  function NameTexts<R>(t: Tree<string, R>): seq<string> { if t.name.Some? then [t.name.value] else [] }

  /** The texts of trees in the order the remapper visits them: a node's name, then its children. */
  function Visited<R>(ts: seq<Tree<string, R>>): seq<string>
    decreases ts
  {
    if ts == [] then []
    else
      var t := ts[|ts| - 1];
      Visited(ts[..|ts| - 1]) + (NameTexts(t) + Visited(t.kids))
  }

  ghost predicate AllResolvable(kws: Keywords, resolver: seq<string>, ts: seq<Coded>) {
    forall i :: 0 <= i < |ts| ==> Resolvable(kws, resolver, ts[i])
  }

  ghost predicate AllKnown(kws: Keywords, table: seq<string>, ts: seq<Named>) {
    forall i :: 0 <= i < |ts| ==> Known(kws, table, ts[i])
  }

  ghost function AllResolved(kws: Keywords, resolver: seq<string>, ts: seq<Coded>): (r: seq<Named>)
    requires AllResolvable(kws, resolver, ts)
    ensures |r| == |ts| && forall i :: 0 <= i < |ts| ==> r[i] == Resolved(kws, resolver, ts[i])
  {
    seq(|ts|, i requires 0 <= i < |ts| => Resolved(kws, resolver, ts[i]))
  }

  ghost function AllInterned(kws: Keywords, table: seq<string>, ts: seq<Named>): (r: seq<Coded>)
    requires AllKnown(kws, table, ts)
    ensures |r| == |ts| && forall i :: 0 <= i < |ts| ==> r[i] == Interned(kws, table, ts[i])
  {
    seq(|ts|, i requires 0 <= i < |ts| => Interned(kws, table, ts[i]))
  }

  // ----- Growing tables -----

  lemma {:induction false} ExtendAppends(kws: Keywords, table: seq<string>, a: seq<string>, b: seq<string>)
    ensures ExtendAll(kws, table, a + b) == ExtendAll(kws, ExtendAll(kws, table, a), b)
  {
    if b == [] {
      assert a + b == a;
    } else {
      ExtendAppends(kws, table, a, b[..|b| - 1]);
      assert (a + b)[..|a + b| - 1] == a + b[..|b| - 1];
    }
  }

  /** A tree interned once keeps its symbols as the table grows. */
  lemma {:induction false} InternedIsStable(kws: Keywords, table: seq<string>, more: seq<string>, t: Named)
    requires table <= more && Known(kws, table, t)
    ensures Known(kws, more, t) && Interned(kws, more, t) == Interned(kws, table, t)
    decreases t
  {
    if t.name.Some? { SymbolsAreStable(kws, table, more, t.name.value, 1); }
    forall i | 0 <= i < |t.kids|
      ensures Known(kws, more, t.kids[i]) && Interned(kws, more, t.kids[i]) == Interned(kws, table, t.kids[i])
    {
      InternedIsStable(kws, table, more, t.kids[i]);
    }
  }

  /** Interning a tree and resolving it gives the tree back. */
  lemma {:induction false} InternedResolves(kws: Keywords, table: seq<string>, t: Named)
    requires Known(kws, table, t)
    ensures Resolvable(kws, table, Interned(kws, table, t)) && Resolved(kws, table, Interned(kws, table, t)) == t
    decreases t
  {
    if t.name.Some? { SymbolResolves(kws, table, t.name.value); }
    forall i | 0 <= i < |t.kids|
      ensures Resolvable(kws, table, Interned(kws, table, t.kids[i]))
      ensures Resolved(kws, table, Interned(kws, table, t.kids[i])) == t.kids[i]
    {
      InternedResolves(kws, table, t.kids[i]);
    }
  }

  // ----- The remapper -----

  class SymbolRemapper {
    const resolver: seq<string>
    const interner: Interner

    constructor (resolver: seq<string>, interner: Interner)
      ensures this.resolver == resolver && this.interner == interner
    {
      this.resolver := resolver;
      this.interner := interner;
    }

    method Remap(sym: Symbol) returns (shared: Symbol)
      requires interner.Valid() && Resolve(interner.kws, resolver, sym).Some?
      requires var s := Resolve(interner.kws, resolver, sym).value;
        Fits(interner.kws, ExtendAll(interner.kws, interner.strings, [s]))
      modifies interner
      ensures interner.Valid()
      ensures var s := Resolve(interner.kws, resolver, sym).value;
        && interner.strings == ExtendAll(interner.kws, old(interner.strings), [s])
        && s in interner.kws.all + interner.strings && shared == SymbolOf(interner.kws, interner.strings, s)
    {
      var text := Resolve(interner.kws, resolver, sym).value;
      ghost var one := [text];
      assert ExtendAll(interner.kws, interner.strings, one[..0]) == interner.strings;
      shared := interner.Intern(text);
    }

    /** Visiting a tree gives its names the shared interner's symbols, in the order of the walk. */
    method VisitTree(t: Coded) returns (r: Coded)
      requires interner.Valid() && Resolvable(interner.kws, resolver, t)
      requires Fits(interner.kws, ExtendAll(interner.kws, interner.strings, Visited([Resolved(interner.kws, resolver, t)])))
      modifies interner
      ensures interner.Valid()
      ensures var s := Resolved(interner.kws, resolver, t);
        && interner.strings == ExtendAll(interner.kws, old(interner.strings), Visited([s]))
        && Known(interner.kws, interner.strings, s) && r == Interned(interner.kws, interner.strings, s)
      decreases t, 1
    {
      ghost var kws, before, s := interner.kws, interner.strings, Resolved(interner.kws, resolver, t);
      VisitsKids(kws, resolver, before, t);
      var name := None;
      if t.name.Some? {
        var shared := Remap(t.name.value);
        name := Some(shared);
      }
      ghost var middle := interner.strings;
      var kids := VisitAll(t.kids);
      r := Node(t.kind, name, t.raw, kids, t.order);
      VisitedTree(kws, middle, interner.strings, s, r);
    }

    method VisitAll(ts: seq<Coded>) returns (rs: seq<Coded>)
      requires interner.Valid() && AllResolvable(interner.kws, resolver, ts)
      requires Fits(interner.kws, ExtendAll(interner.kws, interner.strings, Visited(AllResolved(interner.kws, resolver, ts))))
      modifies interner
      ensures interner.Valid()
      ensures var ss := AllResolved(interner.kws, resolver, ts);
        && interner.strings == ExtendAll(interner.kws, old(interner.strings), Visited(ss))
        && AllKnown(interner.kws, interner.strings, ss) && rs == AllInterned(interner.kws, interner.strings, ss)
      decreases ts, 0
    {
      ghost var kws, before, ss := interner.kws, interner.strings, AllResolved(interner.kws, resolver, ts);
      rs := [];
      for i := 0 to |ts|
        invariant interner.Valid() && VisitedInto(kws, before, ss[..i], interner.strings, rs)
      {
        ghost var table := interner.strings;
        RoomForTree(kws, resolver, before, ts, i, table);
        var r := VisitTree(ts[i]);
        NextVisited(kws, before, ss, i, table, rs, interner.strings, r);
        rs := rs + [r];
      }
      assert ss[..|ts|] == ss;
    }
  }

  lemma {:induction false} VisitedAppends(a: seq<Named>, b: seq<Named>)
    ensures Visited(a + b) == Visited(a) + Visited(b)
    decreases |b|
  {
    if b == [] {
      assert a + b == a;
    } else {
      var init, t := b[..|b| - 1], b[|b| - 1];
      VisitedAppends(a, init);
      assert (a + b)[..|a + b| - 1] == a + init && (a + b)[|a + b| - 1] == t;
      Associates(Visited(a), Visited(init), NameTexts(t) + Visited(t.kids));
    }
  }

  /** Trees visited from one table on are interned in another. */
  ghost predicate VisitedInto(kws: Keywords, before: seq<string>, done: seq<Named>, table: seq<string>, rs: seq<Coded>) {
    && table == ExtendAll(kws, before, Visited(done))
    && AllKnown(kws, table, done) && rs == AllInterned(kws, table, done)
  }

  lemma VisitsOn(kws: Keywords, before: seq<string>, done: seq<Named>, more: seq<Named>,
                 table: seq<string>, rs: seq<Coded>, next: seq<string>, rs': seq<Coded>)
    requires VisitedInto(kws, before, done, table, rs) && VisitedInto(kws, table, more, next, rs')
    ensures VisitedInto(kws, before, done + more, next, rs + rs')
  {
    VisitedAppends(done, more);
    ExtendAppends(kws, before, Visited(done), Visited(more));
    AllStable(kws, table, next, done);
    AllJoined(kws, next, done, more);
  }

  lemma AllJoined(kws: Keywords, table: seq<string>, a: seq<Named>, b: seq<Named>)
    requires AllKnown(kws, table, a) && AllKnown(kws, table, b)
    ensures AllKnown(kws, table, a + b)
    ensures AllInterned(kws, table, a + b) == AllInterned(kws, table, a) + AllInterned(kws, table, b)
  {
    forall i | 0 <= i < |a + b| ensures Known(kws, table, (a + b)[i]) {
      assert (a + b)[i] == if i < |a| then a[i] else b[i - |a|];
    }
    assert AllInterned(kws, table, a + b) == AllInterned(kws, table, a) + AllInterned(kws, table, b);
  }

  lemma NextVisited(kws: Keywords, before: seq<string>, ss: seq<Named>, i: nat,
                    table: seq<string>, rs: seq<Coded>, next: seq<string>, r: Coded)
    requires i < |ss| && VisitedInto(kws, before, ss[..i], table, rs)
    requires next == ExtendAll(kws, table, Visited([ss[i]])) && Known(kws, next, ss[i]) && r == Interned(kws, next, ss[i])
    ensures VisitedInto(kws, before, ss[..i + 1], next, rs + [r])
  {
    OneVisited(kws, table, ss[i], next, r);
    VisitsOn(kws, before, ss[..i], [ss[i]], table, rs, next, [r]);
    OneMore(ss, i);
  }

  lemma OneMore<T>(ss: seq<T>, i: nat)
    requires i < |ss|
    ensures ss[..i + 1] == ss[..i] + [ss[i]]
  {}

  lemma OneVisited(kws: Keywords, table: seq<string>, t: Named, next: seq<string>, r: Coded)
    requires next == ExtendAll(kws, table, Visited([t])) && Known(kws, next, t) && r == Interned(kws, next, t)
    ensures VisitedInto(kws, table, [t], next, [r])
  {}

  /** Visiting a tree is visiting its name, then its children. */
  lemma VisitsKids(kws: Keywords, resolver: seq<string>, table: seq<string>, t: Coded)
    requires Resolvable(kws, resolver, t)
    ensures var s := Resolved(kws, resolver, t);
      && AllResolvable(kws, resolver, t.kids) && AllResolved(kws, resolver, t.kids) == s.kids
      && ExtendAll(kws, table, Visited([s])) == ExtendAll(kws, ExtendAll(kws, table, NameTexts(s)), Visited(s.kids))
      && (s.name.None? ==> ExtendAll(kws, table, NameTexts(s)) == table)
  {
    var s := Resolved(kws, resolver, t);
    assert AllResolved(kws, resolver, t.kids) == s.kids;
    VisitedOne(s);
    ExtendAppends(kws, table, NameTexts(s), Visited(s.kids));
  }

  lemma VisitedTree(kws: Keywords, middle: seq<string>, after: seq<string>, s: Named, r: Coded)
    requires middle <= after && AllKnown(kws, after, s.kids) && r.kids == AllInterned(kws, after, s.kids)
    requires r.kind == s.kind && r.raw == s.raw && r.order == s.order && (r.name.Some? <==> s.name.Some?)
    requires s.name.Some? ==> s.name.value in kws.all + middle && r.name.value == SymbolOf(kws, middle, s.name.value)
    ensures Known(kws, after, s) && r == Interned(kws, after, s)
  {
    if s.name.Some? { SymbolsAreStable(kws, middle, after, s.name.value, 1); }
    assert r.kids == Interned(kws, after, s).kids;
  }

  lemma VisitedOne(t: Named)
    ensures Visited([t]) == NameTexts(t) + Visited(t.kids)
  {
    var none: seq<Named> := [];
    assert [t][..0] == none && Visited(none) == [];
  }

  /** The table after i + 1 trees is the table after i, extended by the next. */
  lemma VisitedSplits(kws: Keywords, table: seq<string>, ts: seq<Named>, i: nat)
    requires i < |ts|
    ensures ExtendAll(kws, table, Visited(ts[..i + 1])) == ExtendAll(kws, ExtendAll(kws, table, Visited(ts[..i])), Visited([ts[i]]))
    ensures ExtendAll(kws, table, Visited(ts[..i + 1])) <= ExtendAll(kws, table, Visited(ts))
    decreases |ts| - i
  {
    assert ts[..i + 1][..i] == ts[..i];
    VisitedOne(ts[i]);
    ExtendAppends(kws, table, Visited(ts[..i]), Visited([ts[i]]));
    if i + 1 < |ts| { VisitedSplits(kws, table, ts, i + 1); } else { assert ts[..i + 1] == ts; }
  }

  /** There is room for the next tree's names when there is for all. */
  lemma {:induction false} RoomForTree(kws: Keywords, resolver: seq<string>, before: seq<string>, ts: seq<Coded>, i: nat, table: seq<string>)
    requires AllResolvable(kws, resolver, ts) && i < |ts|
    requires table == ExtendAll(kws, before, Visited(AllResolved(kws, resolver, ts)[..i]))
    requires Fits(kws, ExtendAll(kws, before, Visited(AllResolved(kws, resolver, ts))))
    ensures Resolvable(kws, resolver, ts[i]) && Resolved(kws, resolver, ts[i]) == AllResolved(kws, resolver, ts)[i]
    ensures Fits(kws, ExtendAll(kws, table, Visited([Resolved(kws, resolver, ts[i])])))
  {
    VisitedSplits(kws, before, AllResolved(kws, resolver, ts), i);
  }

  lemma AllStable(kws: Keywords, table: seq<string>, more: seq<string>, ts: seq<Named>)
    requires table <= more && AllKnown(kws, table, ts)
    ensures AllKnown(kws, more, ts) && AllInterned(kws, more, ts) == AllInterned(kws, table, ts)
  {
    forall i | 0 <= i < |ts| ensures Known(kws, more, ts[i]) && Interned(kws, more, ts[i]) == Interned(kws, table, ts[i]) {
      InternedIsStable(kws, table, more, ts[i]);
    }
  }

  // ----- Merging a batch -----

  ghost predicate Handed(kws: Keywords, parseds: seq<Parsed>) {
    forall p :: 0 <= p < |parseds| ==> AllResolvable(kws, parseds[p].resolver, parseds[p].statements)
  }

  /** The statements the workers' trees stand for, in source order. */
  ghost function Sources(kws: Keywords, parseds: seq<Parsed>): seq<Named>
    requires Handed(kws, parseds)
  {
    if parseds == [] then []
    else
      var last := parseds[|parseds| - 1];
      Sources(kws, parseds[..|parseds| - 1]) + AllResolved(kws, last.resolver, last.statements)
  }

  /** There is room for the next worker's names when there is for everyone's. */
  lemma {:induction false} RoomForNext(kws: Keywords, parseds: seq<Parsed>, p: nat)
    requires Handed(kws, parseds) && p < |parseds|
    ensures var done := Sources(kws, parseds[..p]);
      var more := AllResolved(kws, parseds[p].resolver, parseds[p].statements);
      && Sources(kws, parseds[..p + 1]) == done + more
      && ExtendAll(kws, ExtendAll(kws, [], Visited(done)), Visited(more)) <= ExtendAll(kws, [], Visited(Sources(kws, parseds)))
    decreases |parseds| - p
  {
    SourcesNext(kws, parseds, p);
    if p + 1 < |parseds| { RoomForNext(kws, parseds, p + 1); } else { assert parseds[..p + 1] == parseds; }
  }

  lemma {:induction false} SourcesNext(kws: Keywords, parseds: seq<Parsed>, p: nat)
    requires Handed(kws, parseds) && p < |parseds|
    ensures var done := Sources(kws, parseds[..p]);
      var more := AllResolved(kws, parseds[p].resolver, parseds[p].statements);
      && Sources(kws, parseds[..p + 1]) == done + more
      && ExtendAll(kws, ExtendAll(kws, [], Visited(done)), Visited(more)) == ExtendAll(kws, [], Visited(Sources(kws, parseds[..p + 1])))
  {
    var done := Sources(kws, parseds[..p]);
    var more := AllResolved(kws, parseds[p].resolver, parseds[p].statements);
    assert parseds[..p + 1][..p] == parseds[..p];
    VisitedAppends(done, more);
    ExtendAppends(kws, [], Visited(done), Visited(more));
  }

  /** The shared table and the merged statements: those of one fresh interner given the source statements'
      texts in the order of the walk, whatever symbols the workers used and however they shared the work. */
  method MergeBatch(kws: Keywords, parseds: seq<Parsed>) returns (merged: seq<Coded>, resolver: seq<string>)
    requires kws.Valid() && Handed(kws, parseds) && Fits(kws, Firsts(kws, Visited(Sources(kws, parseds))))
    ensures var sources := Sources(kws, parseds);
      && resolver == Firsts(kws, Visited(sources)) && merged == MergedTrees(kws, sources)
      && AllKnown(kws, resolver, sources) && merged == AllInterned(kws, resolver, sources)
  {
    TableIsFirsts(kws, Visited(Sources(kws, parseds)));
    var interner := new Interner(kws);
    merged := [];
    for p := 0 to |parseds|
      invariant fresh(interner) && interner.kws == kws && interner.Valid()
      invariant VisitedInto(kws, [], Sources(kws, parseds[..p]), interner.strings, merged)
    {
      RoomForNext(kws, parseds, p);
      ghost var done, table := Sources(kws, parseds[..p]), interner.strings;
      var remapper := new SymbolRemapper(parseds[p].resolver, interner);
      var rs := remapper.VisitAll(parseds[p].statements);
      VisitsOn(kws, [], done, AllResolved(kws, parseds[p].resolver, parseds[p].statements), table, merged, interner.strings, rs);
      merged := merged + rs;
    }
    assert parseds[..|parseds|] == parseds;
    resolver := interner.Freeze();
  }

  /** A merged batch stands for the statements it was merged from, */
  lemma MergedResolves(kws: Keywords, resolver: seq<string>, sources: seq<Named>)
    requires AllKnown(kws, resolver, sources)
    ensures var merged := AllInterned(kws, resolver, sources);
      AllResolvable(kws, resolver, merged) && AllResolved(kws, resolver, merged) == sources
  {
    forall i | 0 <= i < |sources|
      ensures Resolvable(kws, resolver, Interned(kws, resolver, sources[i]))
      ensures Resolved(kws, resolver, Interned(kws, resolver, sources[i])) == sources[i]
    {
      InternedResolves(kws, resolver, sources[i]);
    }
  }

  /** Statements parsed one by one, each into a table of its own. */
  ghost function ParsedAlone(kws: Keywords, tables: seq<seq<string>>, sources: seq<Named>): (r: seq<Parsed>)
    requires |tables| == |sources| && forall i :: 0 <= i < |sources| ==> Known(kws, tables[i], sources[i])
    ensures |r| == |sources|
    ensures forall i :: 0 <= i < |r| ==> r[i] == Parsed(tables[i], [Interned(kws, tables[i], sources[i])])
  {
    seq(|sources|, i requires 0 <= i < |sources| => Parsed(tables[i], [Interned(kws, tables[i], sources[i])]))
  }

  /** Trees handed over by workers that interned them into any tables of their own stand for their statements. */
  lemma {:induction false} WorkersHandOver(kws: Keywords, tables: seq<seq<string>>, sources: seq<Named>)
    requires |tables| == |sources| && forall i :: 0 <= i < |sources| ==> Known(kws, tables[i], sources[i])
    ensures var parseds := ParsedAlone(kws, tables, sources); Handed(kws, parseds) && Sources(kws, parseds) == sources
  {
    var parseds := ParsedAlone(kws, tables, sources);
    forall i | 0 <= i < |sources|
      ensures AllResolvable(kws, parseds[i].resolver, parseds[i].statements)
      ensures AllResolved(kws, parseds[i].resolver, parseds[i].statements) == [sources[i]]
    {
      InternedResolves(kws, tables[i], sources[i]);
    }
    FirstHandOver(kws, parseds, sources, |sources|);
    assert parseds[..|sources|] == parseds && sources[..|sources|] == sources;
  }

  lemma {:induction false} FirstHandOver(kws: Keywords, parseds: seq<Parsed>, sources: seq<Named>, n: nat)
    requires Handed(kws, parseds) && n <= |parseds| == |sources|
    requires forall i :: 0 <= i < |sources| ==> AllResolved(kws, parseds[i].resolver, parseds[i].statements) == [sources[i]]
    ensures Sources(kws, parseds[..n]) == sources[..n]
    decreases n
  {
    if n > 0 {
      FirstHandOver(kws, parseds, sources, n - 1);
      assert parseds[..n][..n - 1] == parseds[..n - 1];
      assert sources[..n] == sources[..n - 1] + [sources[n - 1]];
    }
  }

  // ----- What the remapper leaves alone -----

  /** What a tree says through a resolver: a raw symbol says the text at its key, if there is one. */
  ghost function RawRead(kws: Keywords, resolver: seq<string>, t: Named): Tree<string, Option<string>> {
    var raw := if t.raw.Some? then Some(Resolve(kws, resolver, t.raw.value)) else None;
    var kids := seq(|t.kids|, i requires 0 <= i < |t.kids| => RawRead(kws, resolver, t.kids[i]));
    Node(t.kind, t.name, raw, kids, t.order)
  }

  ghost function Meaning(kws: Keywords, resolver: seq<string>, t: Coded): Tree<string, Option<string>>
    requires Resolvable(kws, resolver, t)
  {
    RawRead(kws, resolver, Resolved(kws, resolver, t))
  }

  /** Every raw symbol of a tree says the same through two resolvers. */
  ghost predicate RawsAlike<N>(kws: Keywords, a: seq<string>, b: seq<string>, t: Tree<N, Symbol>) {
    (t.raw.Some? ==> Resolve(kws, a, t.raw.value) == Resolve(kws, b, t.raw.value))
    && forall i :: 0 <= i < |t.kids| ==> RawsAlike(kws, a, b, t.kids[i])
  }

  lemma {:induction false} ReadsAlike(kws: Keywords, a: seq<string>, b: seq<string>, t: Named)
    ensures RawRead(kws, a, t) == RawRead(kws, b, t) <==> RawsAlike(kws, a, b, t)
    decreases t
  {
    forall i | 0 <= i < |t.kids|
      ensures RawRead(kws, a, t.kids[i]) == RawRead(kws, b, t.kids[i]) <==> RawsAlike(kws, a, b, t.kids[i])
    {
      ReadsAlike(kws, a, b, t.kids[i]);
    }
    var x, y := RawRead(kws, a, t), RawRead(kws, b, t);
    assert forall i :: 0 <= i < |t.kids| ==> x.kids[i] == RawRead(kws, a, t.kids[i]) && y.kids[i] == RawRead(kws, b, t.kids[i]);
    if RawsAlike(kws, a, b, t) { assert x.kids == y.kids; }
  }

  lemma {:induction false} ResolvedKeepsRaws(kws: Keywords, a: seq<string>, b: seq<string>, t: Coded)
    requires Resolvable(kws, a, t)
    ensures RawsAlike(kws, a, b, Resolved(kws, a, t)) <==> RawsAlike(kws, a, b, t)
    decreases t
  {
    var s := Resolved(kws, a, t);
    forall i | 0 <= i < |t.kids|
      ensures RawsAlike(kws, a, b, s.kids[i]) <==> RawsAlike(kws, a, b, t.kids[i])
    {
      ResolvedKeepsRaws(kws, a, b, t.kids[i]);
    }
  }

  /** A worker's tree merged into a shared table says what it said exactly when each of its raw symbols says the same
      through the worker's table and through the shared one. */
  lemma MergeKeepsMeaning(kws: Keywords, worker: seq<string>, shared: seq<string>, t: Coded)
    requires Resolvable(kws, worker, t) && Known(kws, shared, Resolved(kws, worker, t))
    ensures var merged := Interned(kws, shared, Resolved(kws, worker, t));
      && Resolvable(kws, shared, merged)
      && (Meaning(kws, shared, merged) == Meaning(kws, worker, t) <==> RawsAlike(kws, worker, shared, t))
  {
    var s := Resolved(kws, worker, t);
    InternedResolves(kws, shared, s);
    ReadsAlike(kws, shared, worker, s);
    AlikeBothWays(kws, worker, shared, s);
    ResolvedKeepsRaws(kws, worker, shared, t);
  }

  lemma {:induction false} AlikeBothWays(kws: Keywords, a: seq<string>, b: seq<string>, t: Named)
    ensures RawsAlike(kws, a, b, t) <==> RawsAlike(kws, b, a, t)
    decreases t
  {
    forall i | 0 <= i < |t.kids| ensures RawsAlike(kws, a, b, t.kids[i]) <==> RawsAlike(kws, b, a, t.kids[i]) {
      AlikeBothWays(kws, a, b, t.kids[i]);
    }
  }

  // ----- Statements as they are written -----

  /** The texts of a statement, names and raw symbols, are all known to a table. */
  ghost predicate TextKnown(kws: Keywords, table: seq<string>, t: Text) {
    (t.name.Some? ==> t.name.value in kws.all + table) && (t.raw.Some? ==> t.raw.value in kws.all + table)
    && forall i :: 0 <= i < |t.kids| ==> TextKnown(kws, table, t.kids[i])
  }

  /** A statement with its raw symbols interned. */
  ghost function RawInterned(kws: Keywords, table: seq<string>, t: Text): Named
    requires TextKnown(kws, table, t)
  {
    var raw := if t.raw.Some? then Some(SymbolOf(kws, table, t.raw.value)) else None;
    var kids := seq(|t.kids|, i requires 0 <= i < |t.kids| => RawInterned(kws, table, t.kids[i]));
    Node(t.kind, t.name, raw, kids, t.order)
  }

  /** What a statement says. */
  ghost function Said(t: Text): Tree<string, Option<string>> {
    var raw := if t.raw.Some? then Some(Some(t.raw.value)) else None;
    Node(t.kind, t.name, raw, seq(|t.kids|, i requires 0 <= i < |t.kids| => Said(t.kids[i])), t.order)
  }

  lemma {:induction false} WorkerSays(kws: Keywords, table: seq<string>, t: Text)
    requires TextKnown(kws, table, t)
    ensures Known(kws, table, RawInterned(kws, table, t)) && RawRead(kws, table, RawInterned(kws, table, t)) == Said(t)
    decreases t
  {
    if t.raw.Some? { SymbolResolves(kws, table, t.raw.value); }
    forall i | 0 <= i < |t.kids|
      ensures Known(kws, table, RawInterned(kws, table, t.kids[i]))
      ensures RawRead(kws, table, RawInterned(kws, table, t.kids[i])) == Said(t.kids[i])
    {
      WorkerSays(kws, table, t.kids[i]);
    }
    assert RawRead(kws, table, RawInterned(kws, table, t)).kids == Said(t).kids;
  }

  lemma {:induction false} VisitedNext<R>(ts: seq<Tree<string, R>>, n: nat)
    requires 0 < n <= |ts|
    ensures Visited(ts[..n]) == Visited(ts[..n - 1]) + (NameTexts(ts[n - 1]) + Visited(ts[n - 1].kids))
  {
    assert ts[..n][..n - 1] == ts[..n - 1];
  }

  lemma {:induction false} VisitedAsWritten(kws: Keywords, table: seq<string>, t: Text)
    requires TextKnown(kws, table, t)
    ensures NameTexts(RawInterned(kws, table, t)) + Visited(RawInterned(kws, table, t).kids) == NameTexts(t) + Visited(t.kids)
    decreases t
  {
    KidsVisitedAsWritten(kws, table, t, |t.kids|);
    var s := RawInterned(kws, table, t);
    assert s.kids[..|t.kids|] == s.kids && t.kids[..|t.kids|] == t.kids;
  }

  lemma {:induction false} KidsVisitedAsWritten(kws: Keywords, table: seq<string>, t: Text, n: nat)
    requires TextKnown(kws, table, t) && n <= |t.kids|
    ensures Visited(RawInterned(kws, table, t).kids[..n]) == Visited(t.kids[..n])
    decreases t, n
  {
    if n > 0 {
      var s := RawInterned(kws, table, t);
      KidsVisitedAsWritten(kws, table, t, n - 1);
      VisitedAsWritten(kws, table, t.kids[n - 1]);
      VisitedNext(s.kids, n);
      VisitedNext(t.kids, n);
    }
  }

  /** The statements as the workers hand them over, each worker's raw symbols being its own. */
  ghost predicate WorkersKnow(kws: Keywords, tables: seq<seq<string>>, texts: seq<Text>) {
    |tables| == |texts| && forall i :: 0 <= i < |texts| ==> TextKnown(kws, tables[i], texts[i])
  }

  ghost function HandedOver(kws: Keywords, tables: seq<seq<string>>, texts: seq<Text>): (r: seq<Named>)
    requires WorkersKnow(kws, tables, texts)
    ensures |r| == |texts| && forall i :: 0 <= i < |texts| ==> r[i] == RawInterned(kws, tables[i], texts[i])
  {
    seq(|texts|, i requires 0 <= i < |texts| => RawInterned(kws, tables[i], texts[i]))
  }

  /** The walk meets the same names whatever the raw symbols are. */
  lemma {:induction false} HandedOverVisited(kws: Keywords, tables: seq<seq<string>>, texts: seq<Text>)
    requires WorkersKnow(kws, tables, texts)
    ensures Visited(HandedOver(kws, tables, texts)) == Visited(texts)
  {
    FirstHandedOverVisited(kws, tables, texts, |texts|);
    assert HandedOver(kws, tables, texts)[..|texts|] == HandedOver(kws, tables, texts) && texts[..|texts|] == texts;
  }

  lemma {:induction false} FirstHandedOverVisited(kws: Keywords, tables: seq<seq<string>>, texts: seq<Text>, n: nat)
    requires WorkersKnow(kws, tables, texts) && n <= |texts|
    ensures Visited(HandedOver(kws, tables, texts)[..n]) == Visited(texts[..n])
    decreases n
  {
    if n > 0 {
      FirstHandedOverVisited(kws, tables, texts, n - 1);
      VisitedNext(HandedOver(kws, tables, texts), n);
      VisitedNext(texts, n);
      VisitedAsWritten(kws, tables[n - 1], texts[n - 1]);
    }
  }

  /** A table knows the names of trees when it knows the texts the walk meets. */
  lemma {:induction false} NamesKnown(kws: Keywords, table: seq<string>, ts: seq<Named>)
    requires forall s :: s in Visited(ts) ==> s in kws.all + table
    ensures AllKnown(kws, table, ts)
    decreases ts
  {
    if ts != [] {
      var t := ts[|ts| - 1];
      NamesKnown(kws, table, ts[..|ts| - 1]);
      assert t.name.Some? ==> t.name.value in NameTexts(t) && t.name.value in Visited(ts);
      NamesKnown(kws, table, t.kids);
      assert Known(kws, table, t);
      assert forall i :: 0 <= i < |ts| - 1 ==> ts[..|ts| - 1][i] == ts[i];
    }
  }

  lemma WalkKnown(kws: Keywords, sources: seq<Named>)
    ensures AllKnown(kws, Firsts(kws, Visited(sources)), sources)
  {
    FirstsHold(kws.Known(), Visited(sources));
    NamesKnown(kws, Firsts(kws, Visited(sources)), sources);
  }

  /** What `MergeBatch` makes of the trees handed over. */
  ghost function MergedTrees(kws: Keywords, sources: seq<Named>): seq<Coded> {
    WalkKnown(kws, sources);
    AllInterned(kws, Firsts(kws, Visited(sources)), sources)
  }

  ghost function Merged(kws: Keywords, tables: seq<seq<string>>, texts: seq<Text>): (r: seq<Coded>)
    requires WorkersKnow(kws, tables, texts)
    ensures |r| == |texts|
  {
    MergedTrees(kws, HandedOver(kws, tables, texts))
  }

  /** These are the trees of workers that each parsed a statement into a table of their own. */
  lemma WorkersParse(kws: Keywords, tables: seq<seq<string>>, texts: seq<Text>)
    requires WorkersKnow(kws, tables, texts)
    ensures var parseds := seq(|texts|, i requires 0 <= i < |texts| => Parsed(tables[i], [Parse(kws, tables[i], texts[i])]));
      && Handed(kws, parseds) && Sources(kws, parseds) == HandedOver(kws, tables, texts)
      && Merged(kws, tables, texts) == MergedTrees(kws, Sources(kws, parseds))
  {
    var sources := HandedOver(kws, tables, texts);
    forall i | 0 <= i < |texts| ensures Known(kws, tables[i], sources[i]) { WorkerSays(kws, tables[i], texts[i]); }
    WorkersHandOver(kws, tables, sources);
    var parseds := seq(|texts|, i requires 0 <= i < |texts| => Parsed(tables[i], [Parse(kws, tables[i], texts[i])]));
    assert parseds == ParsedAlone(kws, tables, sources);
  }

  /** Each statement of a merged batch says what was written exactly when its worker's raw symbols say the same
      through the shared table. */
  lemma MergedReads(kws: Keywords, tables: seq<seq<string>>, texts: seq<Text>, i: nat)
    requires WorkersKnow(kws, tables, texts) && i < |texts|
    ensures var shared := Firsts(kws, Visited(texts));
      var merged := Merged(kws, tables, texts)[i];
      && Resolvable(kws, shared, merged)
      && (Meaning(kws, shared, merged) == Said(texts[i])
        <==> RawsAlike(kws, tables[i], shared, RawInterned(kws, tables[i], texts[i])))
  {
    var shared, s := Firsts(kws, Visited(texts)), RawInterned(kws, tables[i], texts[i]);
    HandedOverVisited(kws, tables, texts);
    WalkKnown(kws, HandedOver(kws, tables, texts));
    assert HandedOver(kws, tables, texts)[i] == s;
    InternedResolves(kws, shared, s);
    WorkerSays(kws, tables[i], texts[i]);
    ReadsAlike(kws, shared, tables[i], s);
    AlikeBothWays(kws, tables[i], shared, s);
  }

  /** A merge gives the same table and trees for two batches exactly when the trees handed over name the same texts and
      hold the same raw keys. */
  lemma MergeTellsSources(kws: Keywords, a: seq<Named>, b: seq<Named>)
    ensures Firsts(kws, Visited(a)) == Firsts(kws, Visited(b)) && MergedTrees(kws, a) == MergedTrees(kws, b) <==> a == b
  {
    WalkKnown(kws, a);
    WalkKnown(kws, b);
    MergedResolves(kws, Firsts(kws, Visited(a)), a);
    MergedResolves(kws, Firsts(kws, Visited(b)), b);
  }

  // ----- Against the sequential parse -----

  function RawTexts(t: Text): seq<string> { if t.raw.Some? then [t.raw.value] else [] }

  /** The texts of a statement in the order the parser meets them, through the first n parts of its root. */
  function MetParts(t: Text, n: nat): seq<string>
    requires n <= |t.order|
    decreases t, n
  {
    if n == 0 then []
    else
      var part := t.order[n - 1];
      MetParts(t, n - 1) +
      if part.TheName? then NameTexts(t)
      else if part.TheRaw? then RawTexts(t)
      else if part.Tried? then [part.text]
      else if part.i < |t.kids| then MetParts(t.kids[part.i], |t.kids[part.i].order|)
      else []
  }

  function Met(ts: seq<Text>): seq<string> {
    if ts == [] then []
    else Met(ts[..|ts| - 1]) + MetParts(ts[|ts| - 1], |ts[|ts| - 1].order|)
  }

  /** Every part a node has stands somewhere in its order. */
  ghost predicate Ordered(t: Text) {
    && (t.name.Some? ==> TheName in t.order) && (t.raw.Some? ==> TheRaw in t.order)
    && forall i :: 0 <= i < |t.kids| ==> Kid(i) in t.order && Ordered(t.kids[i])
  }

  ghost predicate AllOrdered(ts: seq<Text>) { forall i :: 0 <= i < |ts| ==> Ordered(ts[i]) }

  lemma {:induction false} MetHolds(t: Text, n: nat, k: nat, s: string)
    requires k < n <= |t.order|
    requires MeetsPart(t, t.order[k], s)
    ensures s in MetParts(t, n)
    decreases n
  {
    if k < n - 1 {
      MetHolds(t, n - 1, k, s);
      MetGrows(t, n, s);
    } else {
      MetLast(t, n, s);
    }
  }

  ghost predicate MeetsPart(t: Text, part: Part, s: string) {
    || (part.TheName? && s in NameTexts(t)) || (part.TheRaw? && s in RawTexts(t))
    || (part.Kid? && part.i < |t.kids| && s in MetParts(t.kids[part.i], |t.kids[part.i].order|))
  }

  lemma {:induction false} MetGrows(t: Text, n: nat, s: string)
    requires 0 < n <= |t.order| && s in MetParts(t, n - 1)
    ensures s in MetParts(t, n)
  {}

  lemma {:induction false} MetLast(t: Text, n: nat, s: string)
    requires 0 < n <= |t.order| && MeetsPart(t, t.order[n - 1], s)
    ensures s in MetParts(t, n)
  {}

  /** A table that knows what the parser meets knows the statement. */
  lemma {:induction false} MetKnown(kws: Keywords, table: seq<string>, t: Text)
    requires Ordered(t) && forall s :: s in MetParts(t, |t.order|) ==> s in kws.all + table
    ensures TextKnown(kws, table, t)
    decreases t
  {
    if t.name.Some? {
      var k :| 0 <= k < |t.order| && t.order[k] == TheName;
      MetHolds(t, |t.order|, k, t.name.value);
    }
    if t.raw.Some? {
      var k :| 0 <= k < |t.order| && t.order[k] == TheRaw;
      MetHolds(t, |t.order|, k, t.raw.value);
    }
    forall i | 0 <= i < |t.kids| ensures TextKnown(kws, table, t.kids[i]) {
      assert Kid(i) in t.order && Ordered(t.kids[i]);
      var k :| 0 <= k < |t.order| && t.order[k] == Kid(i);
      forall s | s in MetParts(t.kids[i], |t.kids[i].order|) ensures s in kws.all + table { MetHolds(t, |t.order|, k, s); }
      MetKnown(kws, table, t.kids[i]);
    }
  }

  ghost predicate AllTextKnown(kws: Keywords, table: seq<string>, ts: seq<Text>) {
    forall i :: 0 <= i < |ts| ==> TextKnown(kws, table, ts[i])
  }

  lemma {:induction false} AllMet(ts: seq<Text>, i: nat, s: string)
    requires i < |ts| && s in MetParts(ts[i], |ts[i].order|)
    ensures s in Met(ts)
    decreases |ts|
  {
    if i < |ts| - 1 { AllMet(ts[..|ts| - 1], i, s); }
  }

  lemma ParserKnows(kws: Keywords, texts: seq<Text>)
    requires AllOrdered(texts)
    ensures AllTextKnown(kws, Firsts(kws, Met(texts)), texts)
  {
    var table := Firsts(kws, Met(texts));
    FirstsHold(kws.Known(), Met(texts));
    forall i | 0 <= i < |texts| ensures TextKnown(kws, table, texts[i]) {
      forall s | s in MetParts(texts[i], |texts[i].order|) ensures s in kws.all + table { AllMet(texts, i, s); }
      MetKnown(kws, table, texts[i]);
    }
  }

  /** A statement parsed into a table: all its symbols are that table's. */
  ghost function Parse(kws: Keywords, table: seq<string>, t: Text): Coded
    requires TextKnown(kws, table, t)
  {
    WorkerSays(kws, table, t);
    Interned(kws, table, RawInterned(kws, table, t))
  }

  /** What a single parse of the whole batch gives: one interner fed in the parser's order. */
  ghost function Sequential(kws: Keywords, texts: seq<Text>): (r: seq<Coded>)
    requires AllOrdered(texts)
    ensures |r| == |texts|
  {
    ParserKnows(kws, texts);
    seq(|texts|, i requires 0 <= i < |texts| => Parse(kws, Firsts(kws, Met(texts)), texts[i]))
  }

  // ----- Two orders of meeting texts -----

  /** First occurrences keep the order in which the texts first occur. */
  lemma {:induction false} FirstsKeepOrder(known: set<string>, texts: seq<string>, s: string, t: string)
    requires s in FirstsOutside(known, texts) && t in FirstsOutside(known, texts)
    ensures s in texts && t in texts
    ensures IndexOf(FirstsOutside(known, texts), s) < IndexOf(FirstsOutside(known, texts), t)
      <==> IndexOf(texts, s) < IndexOf(texts, t)
  {
    var before, last := texts[..|texts| - 1], texts[|texts| - 1];
    var firsts := FirstsOutside(known, before);
    FirstsHold(known, texts);
    FirstsHold(known, before);
    assert texts == before + [last];
    if s in firsts { KeepsIndex(known, before, last, s); } else { TakesIndex(known, before, last); }
    if t in firsts { KeepsIndex(known, before, last, t); } else { TakesIndex(known, before, last); }
    if s in firsts && t in firsts { FirstsKeepOrder(known, before, s, t); }
  }

  lemma KeepsIndex(known: set<string>, before: seq<string>, last: string, s: string)
    requires s in before && s in FirstsOutside(known, before)
    ensures s in FirstsOutside(known, before + [last])
    ensures IndexOf(before + [last], s) == IndexOf(before, s)
    ensures IndexOf(FirstsOutside(known, before + [last]), s) == IndexOf(FirstsOutside(known, before), s)
  {
    assert (before + [last])[..|before|] == before;
    IndexGrows(before, before + [last], s);
    IndexGrows(FirstsOutside(known, before), FirstsOutside(known, before + [last]), s);
  }

  lemma TakesIndex(known: set<string>, before: seq<string>, last: string)
    requires last !in known && last !in before
    ensures last in FirstsOutside(known, before + [last]) && last in before + [last]
    ensures IndexOf(before + [last], last) == |before|
    ensures IndexOf(FirstsOutside(known, before + [last]), last) == |FirstsOutside(known, before)|
  {
    var firsts := FirstsOutside(known, before);
    FirstsHold(known, before);
    assert (before + [last])[..|before|] == before;
    IndexIs(before + [last], last, |before|);
    assert FirstsOutside(known, before + [last]) == firsts + [last] && (firsts + [last])[..|firsts|] == firsts;
    IndexIs(firsts + [last], last, |firsts|);
  }

  /** Whatever the parser meets before a name that is no keyword, the walk meets before it too. */
  ghost predicate MeetAlike(kws: Keywords, walk: seq<string>, met: seq<string>) {
    forall s, t :: MeetsBefore(kws, met, t, s) && s in walk ==> MeetsBefore(kws, walk, t, s)
  }

  ghost predicate MeetsBefore(kws: Keywords, texts: seq<string>, t: string, s: string) {
    t in texts && s in texts && !kws.Canonical(t) && !kws.Canonical(s) && IndexOf(texts, t) < IndexOf(texts, s)
  }

  lemma FirstsMeet(kws: Keywords, texts: seq<string>, t: string, s: string)
    ensures MeetsBefore(kws, texts, t, s) <==>
      t in Firsts(kws, texts) && s in Firsts(kws, texts) && IndexOf(Firsts(kws, texts), t) < IndexOf(Firsts(kws, texts), s)
  {
    FirstsHold(kws.Known(), texts);
    if t in Firsts(kws, texts) && s in Firsts(kws, texts) { FirstsKeepOrder(kws.Known(), texts, t, s); }
  }

  lemma DistinctIndex(table: seq<string>, i: nat)
    requires Distinct(table) && i < |table|
    ensures IndexOf(table, table[i]) == i
  {
    IndexIs(table, table[i], i);
  }

  /** The walk's table is the first part of the parser's exactly when they meet alike. */
  lemma PrefixIffAlike(kws: Keywords, walk: seq<string>, met: seq<string>)
    requires forall s :: s in walk ==> s in met
    ensures Firsts(kws, walk) <= Firsts(kws, met) <==> MeetAlike(kws, walk, met)
  {
    if Firsts(kws, walk) <= Firsts(kws, met) {
      forall s, t | MeetsBefore(kws, met, t, s) && s in walk ensures MeetsBefore(kws, walk, t, s) {
        PrefixMeets(kws, walk, met, t, s);
      }
    }
    if MeetAlike(kws, walk, met) { AlikePrefix(kws, walk, met, |Firsts(kws, walk)|); }
  }

  lemma PrefixMeets(kws: Keywords, walk: seq<string>, met: seq<string>, t: string, s: string)
    requires Firsts(kws, walk) <= Firsts(kws, met) && MeetsBefore(kws, met, t, s) && s in walk
    ensures MeetsBefore(kws, walk, t, s)
  {
    var a, b := Firsts(kws, walk), Firsts(kws, met);
    FirstsMeet(kws, met, t, s);
    FirstsHold(kws.Known(), walk);
    FirstsHold(kws.Known(), met);
    IndexGrows(a, b, s);
    var k := IndexOf(b, t);
    assert a[k] == t;
    DistinctIndex(a, k);
    FirstsMeet(kws, walk, t, s);
  }

  lemma {:induction false} AlikePrefix(kws: Keywords, walk: seq<string>, met: seq<string>, n: nat)
    requires (forall s :: s in walk ==> s in met) && MeetAlike(kws, walk, met) && n <= |Firsts(kws, walk)|
    ensures n <= |Firsts(kws, met)| && Firsts(kws, walk)[..n] == Firsts(kws, met)[..n]
    decreases n
  {
    if n > 0 {
      AlikePrefix(kws, walk, met, n - 1);
      AlikeNext(kws, walk, met, n - 1);
      var a, b := Firsts(kws, walk), Firsts(kws, met);
      assert a[..n] == a[..n - 1] + [a[n - 1]] && b[..n] == b[..n - 1] + [b[n - 1]];
    }
  }

  lemma AlikeNext(kws: Keywords, walk: seq<string>, met: seq<string>, i: nat)
    requires (forall s :: s in walk ==> s in met) && MeetAlike(kws, walk, met) && i < |Firsts(kws, walk)|
    requires i <= |Firsts(kws, met)| && Firsts(kws, walk)[..i] == Firsts(kws, met)[..i]
    ensures i < |Firsts(kws, met)| && Firsts(kws, walk)[i] == Firsts(kws, met)[i]
  {
    var a, b := Firsts(kws, walk), Firsts(kws, met);
    FirstsHold(kws.Known(), walk);
    FirstsHold(kws.Known(), met);
    var s := a[i];
    assert s in a && s in b;
    var k := IndexOf(b, s);
    DistinctIndex(a, i);
    if k < i {
      SharedIndex(b, a, i, s);
    } else if k > i {
      var t := b[i];
      DistinctIndex(b, i);
      FirstsMeet(kws, met, t, s);
      FirstsMeet(kws, walk, t, s);
      SharedIndex(a, b, i, t);
    }
  }

  lemma SharedIndex(a: seq<string>, b: seq<string>, n: nat, s: string)
    requires n <= |a| && n <= |b| && a[..n] == b[..n] && s in a && IndexOf(a, s) < n
    ensures s in b && IndexOf(b, s) == IndexOf(a, s)
  {
    var i := IndexOf(a, s);
    assert b[i] == b[..n][i] == a[..n][i] == a[i];
    assert b[..i] == b[..n][..i] == a[..n][..i] == a[..i];
    IndexIs(b, s, i);
  }

  // ----- The same symbols -----

  /** A text has the same key in two tables. */
  ghost predicate SameSymbol(kws: Keywords, a: seq<string>, b: seq<string>, s: string) {
    s in kws.all + a && s in kws.all + b && SymbolOf(kws, a, s) == SymbolOf(kws, b, s)
  }

  /** Every name of a statement has. */
  ghost predicate NamesSame(kws: Keywords, a: seq<string>, b: seq<string>, t: Text) {
    (t.name.Some? ==> SameSymbol(kws, a, b, t.name.value))
    && forall i :: 0 <= i < |t.kids| ==> NamesSame(kws, a, b, t.kids[i])
  }

  /** So has every raw symbol. */
  ghost predicate RawsSame(kws: Keywords, a: seq<string>, b: seq<string>, t: Text) {
    (t.raw.Some? ==> SameSymbol(kws, a, b, t.raw.value))
    && forall i :: 0 <= i < |t.kids| ==> RawsSame(kws, a, b, t.kids[i])
  }

  /** A statement whose raw symbols came from a worker and whose names were remapped is as parsed into one table
      exactly when its names and its raw symbols have that table's keys. */
  lemma {:induction false} SameTree(kws: Keywords, worker: seq<string>, shared: seq<string>, table: seq<string>, t: Text)
    requires TextKnown(kws, worker, t) && TextKnown(kws, table, t) && Known(kws, shared, RawInterned(kws, worker, t))
    ensures Interned(kws, shared, RawInterned(kws, worker, t)) == Parse(kws, table, t)
      <==> NamesSame(kws, shared, table, t) && RawsSame(kws, worker, table, t)
    decreases t
  {
    var s := RawInterned(kws, worker, t);
    var x, y := Interned(kws, shared, s), Parse(kws, table, t);
    forall i | 0 <= i < |t.kids|
      ensures x.kids[i] == y.kids[i] <==> NamesSame(kws, shared, table, t.kids[i]) && RawsSame(kws, worker, table, t.kids[i])
    {
      assert s.kids[i] == RawInterned(kws, worker, t.kids[i]);
      SameTree(kws, worker, shared, table, t.kids[i]);
      assert x.kids[i] == Interned(kws, shared, RawInterned(kws, worker, t.kids[i]));
      assert y.kids[i] == Parse(kws, table, t.kids[i]);
    }
    assert |x.kids| == |y.kids| == |t.kids|;
    assert x.kids == y.kids <==> forall i :: 0 <= i < |t.kids| ==> x.kids[i] == y.kids[i];
  }

  ghost predicate TextsSame(kws: Keywords, a: seq<string>, b: seq<string>, texts: seq<string>) {
    forall s :: s in texts ==> SameSymbol(kws, a, b, s)
  }

  ghost predicate AllNamesSame(kws: Keywords, a: seq<string>, b: seq<string>, ts: seq<Text>) {
    forall i :: 0 <= i < |ts| ==> NamesSame(kws, a, b, ts[i])
  }

  /** The names are the texts the walk meets. */
  lemma {:induction false} SameNames(kws: Keywords, a: seq<string>, b: seq<string>, ts: seq<Text>)
    ensures AllNamesSame(kws, a, b, ts) <==> TextsSame(kws, a, b, Visited(ts))
    decreases ts
  {
    if ts != [] {
      var n := |ts| - 1;
      var init, t := ts[..n], ts[n];
      SameNames(kws, a, b, init);
      SameNames(kws, a, b, t.kids);
      assert AllNamesSame(kws, a, b, ts) <==> AllNamesSame(kws, a, b, init) && NamesSame(kws, a, b, t) by {
        assert forall i :: 0 <= i < n ==> init[i] == ts[i];
      }
      assert t.name.Some? ==> t.name.value in NameTexts(t);
      assert NamesSame(kws, a, b, t) <==> TextsSame(kws, a, b, NameTexts(t)) && AllNamesSame(kws, a, b, t.kids);
      SameAppended(kws, a, b, NameTexts(t), Visited(t.kids));
      SameAppended(kws, a, b, Visited(init), NameTexts(t) + Visited(t.kids));
    }
  }

  lemma SameAppended(kws: Keywords, a: seq<string>, b: seq<string>, x: seq<string>, y: seq<string>)
    ensures TextsSame(kws, a, b, x + y) <==> TextsSame(kws, a, b, x) && TextsSame(kws, a, b, y)
  {
    if TextsSame(kws, a, b, x + y) {
      forall s | s in x || s in y ensures SameSymbol(kws, a, b, s) { assert s in x + y; }
    }
  }

  /** The texts met in one order have the same keys in both tables exactly when the other table starts as theirs does. */
  lemma SameIffPrefix(kws: Keywords, walk: seq<string>, b: seq<string>)
    ensures TextsSame(kws, Firsts(kws, walk), b, walk) <==> Firsts(kws, walk) <= b
  {
    var a := Firsts(kws, walk);
    FirstsHold(kws.Known(), walk);
    TableIsFirsts(kws, walk);
    if TextsSame(kws, a, b, walk) { PrefixBySymbols(kws, a, b); }
    if a <= b {
      forall s | s in walk ensures SameSymbol(kws, a, b, s) { SymbolsAreStable(kws, a, b, s, 1); }
    }
  }

  /** A table whose texts have the same keys in another is a prefix of it. */
  lemma PrefixBySymbols(kws: Keywords, a: seq<string>, b: seq<string>)
    requires Fresh(kws, a)
    requires forall s :: s in a ==> SameSymbol(kws, a, b, s)
    ensures a <= b
  {
    forall i | 0 <= i < |a| ensures i < |b| && b[i] == a[i] { SameKey(kws, a, b, i); }
    if a != [] { SameKey(kws, a, b, |a| - 1); }
    assert |a| <= |b| && a == b[..|a|];
  }

  lemma SameKey(kws: Keywords, a: seq<string>, b: seq<string>, i: nat)
    requires Fresh(kws, a) && i < |a|
    requires SameSymbol(kws, a, b, a[i])
    ensures i < |b| && b[i] == a[i]
  {
    TableSymbol(kws, a, i);
    assert (kws.all + b)[|kws.all| + i] == a[i];
  }

  /** What the walk meets the parser meets too. */
  lemma {:induction false} WalkIsMet(ts: seq<Text>, s: string)
    requires AllOrdered(ts) && s in Visited(ts)
    ensures s in Met(ts)
    decreases ts
  {
    var n := |ts| - 1;
    var init, t := ts[..n], ts[n];
    if s in Visited(init) {
      WalkIsMet(init, s);
    } else if s in NameTexts(t) {
      var k :| 0 <= k < |t.order| && t.order[k] == TheName;
      MetHolds(t, |t.order|, k, s);
    } else {
      WalkIsMet(t.kids, s);
      var i := MetBy(t.kids, s);
      assert Kid(i) in t.order;
      var k :| 0 <= k < |t.order| && t.order[k] == Kid(i);
      MetHolds(t, |t.order|, k, s);
    }
  }

  lemma {:induction false} MetBy(ts: seq<Text>, s: string) returns (i: nat)
    requires s in Met(ts)
    ensures i < |ts| && s in MetParts(ts[i], |ts[i].order|)
    decreases |ts|
  {
    var n := |ts| - 1;
    if s in MetParts(ts[n], |ts[n].order|) { i := n; } else { i := MetBy(ts[..n], s); }
  }

  ghost predicate AllRawsSame(kws: Keywords, tables: seq<seq<string>>, table: seq<string>, ts: seq<Text>)
    requires |tables| == |ts|
  {
    forall i :: 0 <= i < |ts| ==> RawsSame(kws, tables[i], table, ts[i])
  }

  /** The merge reproduces the sequential parse's symbols exactly when the walk meets whatever the parser meets before a
      name, and meets it before that name too, and every raw symbol's private key is the sequential one; */
  lemma MergeIsSequential(kws: Keywords, tables: seq<seq<string>>, texts: seq<Text>)
    requires WorkersKnow(kws, tables, texts) && AllOrdered(texts)
    ensures Merged(kws, tables, texts) == Sequential(kws, texts)
      <==> MeetAlike(kws, Visited(texts), Met(texts)) && AllRawsSame(kws, tables, Firsts(kws, Met(texts)), texts)
  {
    var walk, met := Visited(texts), Met(texts);
    var shared, table := Firsts(kws, walk), Firsts(kws, met);
    forall s | s in walk ensures s in met { WalkIsMet(texts, s); }
    PrefixIffAlike(kws, walk, met);
    SameIffPrefix(kws, walk, table);
    SameNames(kws, shared, table, texts);
    HandedOverVisited(kws, tables, texts);
    WalkKnown(kws, HandedOver(kws, tables, texts));
    ParserKnows(kws, texts);
    SameTrees(kws, tables, shared, table, texts);
    assert Merged(kws, tables, texts) == AllInterned(kws, shared, HandedOver(kws, tables, texts));
  }

  lemma SameTrees(kws: Keywords, tables: seq<seq<string>>, shared: seq<string>, table: seq<string>, texts: seq<Text>)
    requires WorkersKnow(kws, tables, texts) && AllTextKnown(kws, table, texts)
    requires AllKnown(kws, shared, HandedOver(kws, tables, texts))
    ensures AllInterned(kws, shared, HandedOver(kws, tables, texts))
        == seq(|texts|, i requires 0 <= i < |texts| => Parse(kws, table, texts[i]))
      <==> AllNamesSame(kws, shared, table, texts) && AllRawsSame(kws, tables, table, texts)
  {
    var a := AllInterned(kws, shared, HandedOver(kws, tables, texts));
    var b := seq(|texts|, i requires 0 <= i < |texts| => Parse(kws, table, texts[i]));
    forall i | 0 <= i < |texts|
      ensures a[i] == b[i] <==> NamesSame(kws, shared, table, texts[i]) && RawsSame(kws, tables[i], table, texts[i])
    {
      assert HandedOver(kws, tables, texts)[i] == RawInterned(kws, tables[i], texts[i]);
      SameTree(kws, tables[i], shared, table, texts[i]);
    }
    assert a == b <==> forall i :: 0 <= i < |texts| ==> a[i] == b[i];
  }

  /** A node's name, then its children: the order of the walk. */
  function WalkOrder(n: nat): (order: seq<Part>)
    ensures |order| == n + 1 && order[0] == TheName && forall i :: 0 <= i < n ==> order[i + 1] == Kid(i)
  {
    if n == 0 then [TheName] else WalkOrder(n - 1) + [Kid(n - 1)]
  }

  /** Nothing is left alone or tried in vain, names lead, and children stand in the order they are visited. */
  ghost predicate InWalkOrder(t: Text) {
    t.raw.None? && t.order == WalkOrder(|t.kids|) && forall i :: 0 <= i < |t.kids| ==> InWalkOrder(t.kids[i])
  }

  ghost predicate AllInWalkOrder(ts: seq<Text>) { forall i :: 0 <= i < |ts| ==> InWalkOrder(ts[i]) }

  /** Then the two agree, */
  lemma NamesLeadInOrder(kws: Keywords, tables: seq<seq<string>>, texts: seq<Text>)
    requires WorkersKnow(kws, tables, texts) && AllInWalkOrder(texts)
    ensures AllOrdered(texts) && Merged(kws, tables, texts) == Sequential(kws, texts)
  {
    var table := Firsts(kws, Met(texts));
    forall i | 0 <= i < |texts| ensures Ordered(texts[i]) && RawsSame(kws, tables[i], table, texts[i]) {
      InOrder(kws, tables[i], table, texts[i]);
    }
    MetInOrder(texts);
    MergeIsSequential(kws, tables, texts);
  }

  lemma {:induction false} InOrder(kws: Keywords, a: seq<string>, b: seq<string>, t: Text)
    requires InWalkOrder(t)
    ensures Ordered(t) && RawsSame(kws, a, b, t)
    decreases t
  {
    forall i | 0 <= i < |t.kids| ensures Kid(i) in t.order && Ordered(t.kids[i]) && RawsSame(kws, a, b, t.kids[i]) {
      assert t.order[i + 1] == Kid(i);
      InOrder(kws, a, b, t.kids[i]);
    }
    assert t.order[0] == TheName;
  }

  lemma {:induction false} MetInOrder(ts: seq<Text>)
    requires AllInWalkOrder(ts)
    ensures Met(ts) == Visited(ts)
    decreases |ts|
  {
    if ts != [] {
      var t := ts[|ts| - 1];
      MetInOrder(ts[..|ts| - 1]);
      PartsInOrder(t, |t.kids|);
      assert t.kids[..|t.kids|] == t.kids;
    }
  }

  lemma {:induction false} PartsInOrder(t: Text, n: nat)
    requires InWalkOrder(t) && n <= |t.kids|
    ensures MetParts(t, n + 1) == NameTexts(t) + Visited(t.kids[..n])
    decreases t, n
  {
    if n == 0 {
      NameFirst(t);
    } else {
      var kid := t.kids[n - 1];
      PartsInOrder(t, n - 1);
      PartsInOrder(kid, |kid.kids|);
      assert kid.kids[..|kid.kids|] == kid.kids;
      KidNext(t, n);
      VisitedNext(t.kids, n);
      Associates(NameTexts(t), Visited(t.kids[..n - 1]), NameTexts(kid) + Visited(kid.kids));
    }
  }

  lemma {:induction false} NameFirst(t: Text)
    requires t.order == WalkOrder(|t.kids|)
    ensures MetParts(t, 1) == NameTexts(t) + Visited(t.kids[..0])
  {
    assert MetParts(t, 0) == [];
  }

  lemma {:induction false} KidNext(t: Text, n: nat)
    requires t.order == WalkOrder(|t.kids|) && 0 < n <= |t.kids|
    ensures MetParts(t, n + 1) == MetParts(t, n) + MetParts(t.kids[n - 1], |t.kids[n - 1].order|)
  {
    var part := t.order[n];
    assert part == Kid(n - 1) && part.i < |t.kids|;
  }

  // ----- Where they differ -----

  function Leaf(s: string): Text { Node(0, Some(s), None, [], [TheName]) }

  lemma {:induction false} LeafMeets(s: string)
    ensures MetParts(Leaf(s), 1) == [s] && Ordered(Leaf(s)) && Visited(Leaf(s).kids) == []
  {
    assert MetParts(Leaf(s), 0) == [];
  }

  /** A name the walk meets first but the parser does not is numbered differently. */
  lemma Renumbered(kws: Keywords, tables: seq<seq<string>>, texts: seq<Text>, s: string, t: string)
    requires WorkersKnow(kws, tables, texts) && AllOrdered(texts) && s != t && !kws.Canonical(s) && !kws.Canonical(t)
    requires |Visited(texts)| > 0 && Visited(texts)[0] == s && |Met(texts)| > 0 && Met(texts)[0] == t && s in Met(texts)
    ensures Merged(kws, tables, texts) != Sequential(kws, texts)
  {
    var walk, met := Visited(texts), Met(texts);
    IndexIs(met, t, 0);
    IndexIs(walk, s, 0);
    assert MeetsBefore(kws, met, t, s) && s in walk && !MeetsBefore(kws, walk, t, s);
    MergeIsSequential(kws, tables, texts);
  }

  /** A text the parser meets before a name, and the walk not at all, makes that name's number differ too. */
  lemma Missed(kws: Keywords, tables: seq<seq<string>>, texts: seq<Text>, s: string, t: string)
    requires WorkersKnow(kws, tables, texts) && AllOrdered(texts)
    requires MeetsBefore(kws, Met(texts), t, s) && s in Visited(texts) && t !in Visited(texts)
    ensures Merged(kws, tables, texts) != Sequential(kws, texts)
  {
    assert !MeetsBefore(kws, Visited(texts), t, s);
    MergeIsSequential(kws, tables, texts);
  }

  /** A node over two names. */
  function Pair(kind: nat, name: Option<string>, x: string, y: string, order: seq<Part>): Text {
    Node(kind, name, None, [Leaf(x), Leaf(y)], order)
  }

  lemma {:induction false} PairVisited(t: Text, x: string, y: string)
    requires t.kids == [Leaf(x), Leaf(y)]
    ensures Visited([t]) == NameTexts(t) + [x, y]
  {
    LeafVisited(x);
    LeafMeets(y);
    VisitedNext([t], 1);
    VisitedNext(t.kids, 2);
    assert [t][..1] == [t] && t.kids[..1] == [Leaf(x)] && t.kids[..2] == t.kids;
    assert [x] + ([y] + []) == [x, y];
  }

  lemma {:induction false} PairMet(t: Text)
    ensures Met([t]) == MetParts(t, |t.order|)
  {
    var none: seq<Text> := [];
    assert [t][..0] == none && Met(none) == [];
  }

  lemma {:induction false} PairOrdered(t: Text, x: string, y: string)
    requires t.kids == [Leaf(x), Leaf(y)] && t.raw.None? && (t.name.Some? ==> TheName in t.order)
    requires Kid(0) in t.order && Kid(1) in t.order
    ensures AllOrdered([t])
  {
    LeafMeets(x);
    LeafMeets(y);
    assert Ordered(t);
  }

  /** What the parser meets in a child that is one name. */
  lemma {:induction false} LeafPart(t: Text, n: nat, s: string)
    requires 0 < n <= |t.order| && t.order[n - 1].Kid? && t.order[n - 1].i < |t.kids| && t.kids[t.order[n - 1].i] == Leaf(s)
    ensures MetParts(t, n) == MetParts(t, n - 1) + [s]
  {
    LeafMeets(s);
  }

  lemma {:induction false} OwnPart(t: Text, n: nat)
    requires 0 < n <= |t.order|
    ensures MetParts(t, 0) == []
    ensures t.order[n - 1] == TheName ==> MetParts(t, n) == MetParts(t, n - 1) + NameTexts(t)
    ensures t.order[n - 1].Tried? ==> MetParts(t, n) == MetParts(t, n - 1) + [t.order[n - 1].text]
  {}

  function NamedOperator(op: string, left: string, right: string): Text {
    Pair(1, Some(op), left, right, [Kid(0), TheName, Kid(1)])
  }

  /** An operator written between its operands is visited before them, so `x OPERATOR(+) y` is numbered differently; */
  lemma NamedOperatorIsRenumbered(kws: Keywords, tables: seq<seq<string>>, op: string, left: string, right: string)
    requires !kws.Canonical(op) && !kws.Canonical(left) && op != left
    requires WorkersKnow(kws, tables, [NamedOperator(op, left, right)])
    ensures var texts := [NamedOperator(op, left, right)];
      AllOrdered(texts) && Merged(kws, tables, texts) != Sequential(kws, texts)
  {
    NamedOperatorMeets(op, left, right);
    Renumbered(kws, tables, [NamedOperator(op, left, right)], op, left);
  }

  lemma {:induction false} NamedOperatorMeets(op: string, left: string, right: string)
    ensures var texts := [NamedOperator(op, left, right)];
      AllOrdered(texts) && Visited(texts) == [op] + [left, right] && Met(texts) == [left] + [op] + [right]
  {
    var named := NamedOperator(op, left, right);
    assert named.order[0] == Kid(0) && named.order[1] == TheName && named.order[2] == Kid(1);
    PairOrdered(named, left, right);
    PairVisited(named, left, right);
    PairMet(named);
    NamedOperatorParts(named, op, left, right);
  }

  lemma {:induction false} NamedOperatorParts(named: Text, op: string, left: string, right: string)
    requires named == NamedOperator(op, left, right)
    ensures MetParts(named, 3) == [left] + [op] + [right]
  {
    OwnPart(named, 2);
    LeafPart(named, 1, left);
    LeafPart(named, 3, right);
  }

  function LeadingOffset(limit: string, offset: string): Text { Pair(2, None, limit, offset, [Kid(1), Kid(0)]) }

  /** so is `OFFSET y LIMIT x`, where the parser reads the offset first and the walk visits the limit first; */
  lemma LeadingOffsetIsRenumbered(kws: Keywords, tables: seq<seq<string>>, limit: string, offset: string)
    requires !kws.Canonical(limit) && !kws.Canonical(offset) && limit != offset
    requires WorkersKnow(kws, tables, [LeadingOffset(limit, offset)])
    ensures var texts := [LeadingOffset(limit, offset)];
      AllOrdered(texts) && Merged(kws, tables, texts) != Sequential(kws, texts)
  {
    LeadingOffsetMeets(limit, offset);
    Renumbered(kws, tables, [LeadingOffset(limit, offset)], limit, offset);
  }

  lemma {:induction false} LeadingOffsetMeets(limit: string, offset: string)
    ensures var texts := [LeadingOffset(limit, offset)];
      AllOrdered(texts) && Visited(texts) == [] + [limit, offset] && Met(texts) == [offset] + [limit]
  {
    var tail := LeadingOffset(limit, offset);
    assert tail.order[0] == Kid(1) && tail.order[1] == Kid(0);
    PairOrdered(tail, limit, offset);
    PairVisited(tail, limit, offset);
    PairMet(tail);
    OwnPart(tail, 1);
    LeafPart(tail, 1, offset);
    LeafPart(tail, 2, limit);
  }

  function FunctionOf(name: string, tried: string, result: string): Text {
    Pair(4, None, name, result, [Kid(0), Tried(tried), Kid(1)])
  }

  /** and so is what follows a text the parser only tried. Rewinding does not take back what was interned: in
      `CREATE FUNCTION f(TEXT) RETURNS y` the type is first tried as a parameter's name. */
  lemma TriedNameIsRenumbered(kws: Keywords, tables: seq<seq<string>>, name: string, tried: string, result: string)
    requires !kws.Canonical(tried) && !kws.Canonical(result) && tried != name && result != name && tried != result
    requires WorkersKnow(kws, tables, [FunctionOf(name, tried, result)])
    ensures var texts := [FunctionOf(name, tried, result)];
      AllOrdered(texts) && Merged(kws, tables, texts) != Sequential(kws, texts)
  {
    FunctionMeets(name, tried, result);
    var met := [name] + [tried] + [result];
    IndexIs(met, tried, 1);
    IndexIs(met, result, 2);
    Missed(kws, tables, [FunctionOf(name, tried, result)], result, tried);
  }

  lemma {:induction false} FunctionMeets(name: string, tried: string, result: string)
    ensures var texts := [FunctionOf(name, tried, result)];
      AllOrdered(texts) && Visited(texts) == [] + [name, result] && Met(texts) == [name] + [tried] + [result]
  {
    var create := FunctionOf(name, tried, result);
    assert create.order[0] == Kid(0) && create.order[1] == Tried(tried) && create.order[2] == Kid(1);
    PairOrdered(create, name, result);
    PairVisited(create, name, result);
    PairMet(create);
    OwnPart(create, 2);
    LeafPart(create, 1, name);
    LeafPart(create, 3, result);
  }

  lemma {:induction false} LeadsFirsts(kws: Keywords, s: string, more: seq<string>)
    requires !kws.Canonical(s)
    ensures |Firsts(kws, [s] + more)| > 0 && Firsts(kws, [s] + more)[0] == s
    decreases |more|
  {
    if more == [] {
      assert [s] + more == [s] && [s][..0] == [] && s !in kws.Known();
      assert FirstsOutside(kws.Known(), []) == [];
    } else {
      LeadsFirsts(kws, s, more[..|more| - 1]);
      assert ([s] + more)[..|more|] == [s] + more[..|more| - 1];
    }
  }

  /** The first text that is no keyword has the first key after the keywords'. */
  lemma FirstKey(kws: Keywords, s: string, more: seq<string>)
    requires !kws.Canonical(s)
    ensures var table := Firsts(kws, [s] + more);
      && s in kws.all + table && SymbolOf(kws, table, s) == |kws.all| + 1
      && Resolve(kws, table, |kws.all| + 1) == Some(s)
  {
    LeadsFirsts(kws, s, more);
    TableIsFirsts(kws, [s] + more);
    TableSymbol(kws, Firsts(kws, [s] + more), 0);
  }

  function PrefixOperator(op: string, operand: string): Text { Node(3, None, Some(op), [Leaf(operand)], [TheRaw, Kid(0)]) }

  lemma {:induction false} OperatorMeets(op: string, operand: string)
    ensures Ordered(PrefixOperator(op, operand)) && Met([PrefixOperator(op, operand)]) == [op] + [operand]
    ensures Visited([PrefixOperator(op, operand)]) == [operand]
  {
    var t := PrefixOperator(op, operand);
    var none: seq<Text> := [];
    LeafMeets(operand);
    assert [t][..0] == none && [Leaf(operand)][..0] == none;
    assert t.order[0] == TheRaw && t.order[1] == Kid(0);
    assert MetParts(t, 0) == [] && MetParts(t, 1) == [op] && MetParts(t, 2) == [op] + [operand];
    assert Visited([Leaf(operand)]) == [] + ([operand] + []);
  }

  /** `SELECT a` and `SELECT @ b`, each parsed into a table of its own. */
  function PrefixBatch(op: string, a: string, b: string): seq<Text> { [Leaf(a), PrefixOperator(op, b)] }

  ghost function TablesAlone(kws: Keywords, texts: seq<Text>): (tables: seq<seq<string>>)
    requires AllOrdered(texts)
    ensures WorkersKnow(kws, tables, texts)
  {
    forall i | 0 <= i < |texts| ensures TextKnown(kws, Firsts(kws, Met([texts[i]])), texts[i]) {
      ParserKnows(kws, [texts[i]]);
      assert [texts[i]][0] == texts[i];
    }
    seq(|texts|, i requires 0 <= i < |texts| => Firsts(kws, Met([texts[i]])))
  }

  lemma {:induction false} PrefixBatchMeets(op: string, a: string, b: string)
    ensures AllOrdered(PrefixBatch(op, a, b)) && Visited(PrefixBatch(op, a, b)) == [a] + [b]
  {
    LeafMeets(a);
    OperatorMeets(op, b);
    LeafVisited(a);
    LeafVisited(b);
    assert PrefixBatch(op, a, b)[..1] == [Leaf(a)];
    assert Visited(PrefixBatch(op, a, b)) == [a] + ([] + [b]);
  }

  lemma {:induction false} LeafVisited(s: string)
    ensures Visited([Leaf(s)]) == [s]
  {
    VisitedNext([Leaf(s)], 1);
    assert [Leaf(s)][..1] == [Leaf(s)];
  }

  /** A raw symbol keeps the key its worker gave it: once the two are merged the operator reads `a`. */
  lemma PrefixOperatorIsMisread(kws: Keywords, op: string, a: string, b: string)
    requires !kws.Canonical(op) && !kws.Canonical(a)
    ensures var texts := PrefixBatch(op, a, b);
      && AllOrdered(texts)
      && var merged := Merged(kws, TablesAlone(kws, texts), texts)[1];
      && var shared := Firsts(kws, Visited(texts));
      && Resolvable(kws, shared, merged)
      && Meaning(kws, shared, merged).raw == Some(Some(a)) && Said(texts[1]).raw == Some(Some(op))
  {
    var texts := PrefixBatch(op, a, b);
    PrefixBatchMeets(op, a, b);
    OperatorMeets(op, b);
    FirstKey(kws, op, [b]);
    FirstKey(kws, a, [b]);
    MergedReads(kws, TablesAlone(kws, texts), texts, 1);
    MergedRaw(kws, TablesAlone(kws, texts), texts, 1);
  }

  /** A merged root's raw symbol reads what its worker's key means in the shared table. */
  lemma MergedRaw(kws: Keywords, tables: seq<seq<string>>, texts: seq<Text>, i: nat)
    requires WorkersKnow(kws, tables, texts) && i < |texts| && texts[i].raw.Some?
    requires Resolvable(kws, Firsts(kws, Visited(texts)), Merged(kws, tables, texts)[i])
    ensures var shared := Firsts(kws, Visited(texts));
      Meaning(kws, shared, Merged(kws, tables, texts)[i]).raw
        == Some(Resolve(kws, shared, SymbolOf(kws, tables[i], texts[i].raw.value)))
  {
    HandedOverVisited(kws, tables, texts);
    WalkKnown(kws, HandedOver(kws, tables, texts));
    assert HandedOver(kws, tables, texts)[i] == RawInterned(kws, tables[i], texts[i]);
  }

  // ----- Sharing out the lines -----

  function DivCeil(n: nat, d: nat): nat
    requires d > 0
  {
    (n + d - 1) / d
  }

  function Chunks<T>(s: seq<T>, size: nat): seq<seq<T>>
    requires size > 0
    decreases |s|
  {
    if s == [] then []
    else if |s| <= size then [s]
    else [s[..size]] + Chunks(s[size..], size)
  }

  function Map<A, B>(f: A -> B, s: seq<A>): (r: seq<B>)
    ensures |r| == |s| && forall i :: 0 <= i < |s| ==> r[i] == f(s[i])
  {
    seq(|s|, i requires 0 <= i < |s| => f(s[i]))
  }

  function Flatten<T>(ss: seq<seq<T>>): seq<T> { if ss == [] then [] else ss[0] + Flatten(ss[1..]) }

  /** `parse_workers`: one worker maps the parse over each contiguous chunk, and the chunks are joined in order. */
  function ParseWorkers<A, B>(parse: A -> B, lines: seq<A>, workers: nat): seq<B> {
    if workers <= 1 || |lines| < 2 then Map(parse, lines)
    else Flatten(Map(chunk => Map(parse, chunk), Chunks(lines, DivCeil(|lines|, workers))))
  }

  lemma {:induction false} ChunksKeepOrder<A, B>(parse: A -> B, lines: seq<A>, size: nat)
    requires size > 0
    ensures Flatten(Map(chunk => Map(parse, chunk), Chunks(lines, size))) == Map(parse, lines)
    decreases |lines|
  {
    var f := chunk => Map(parse, chunk);
    if |lines| > size {
      ChunksKeepOrder(parse, lines[size..], size);
      assert Map(f, Chunks(lines, size)) == [f(lines[..size])] + Map(f, Chunks(lines[size..], size));
      assert Map(parse, lines) == Map(parse, lines[..size]) + Map(parse, lines[size..]);
    } else if lines != [] {
      assert Map(f, [lines]) == [f(lines)] && Flatten([f(lines)]) == f(lines) + Flatten<B>([]);
    }
  }

  lemma {:induction false} ChunksCount<T>(s: seq<T>, size: nat, workers: nat)
    requires size > 0 && |s| <= size * workers
    ensures |Chunks(s, size)| <= workers
    decreases |s|
  {
    if |s| > size {
      OneFewer(size, workers);
      ChunksCount(s[size..], size, workers - 1);
    } else if workers == 0 {
      assert size * workers == 0;
    }
  }

  lemma OneFewer(size: nat, workers: nat)
    ensures workers > 0 ==> size * workers == size + size * (workers - 1)
    ensures workers == 0 ==> size * workers == 0
  {}

  lemma DivCeilCovers(n: nat, d: nat)
    requires d > 0
    ensures n <= DivCeil(n, d) * d
  {
    var q := DivCeil(n, d);
    assert n + d - 1 == d * q + (n + d - 1) % d;
    assert d * q == q * d;
  }

  /** However many workers there are, the trees come back in source order, from no more than that many. */
  lemma WorkersKeepOrder<A, B>(parse: A -> B, lines: seq<A>, workers: nat)
    ensures ParseWorkers(parse, lines, workers) == Map(parse, lines)
    ensures workers > 1 && |lines| >= 2 ==> DivCeil(|lines|, workers) > 0 && |Chunks(lines, DivCeil(|lines|, workers))| <= workers
  {
    if workers > 1 && |lines| >= 2 {
      var size := DivCeil(|lines|, workers);
      DivCeilCovers(|lines|, workers);
      assert size > 0;
      ChunksKeepOrder(parse, lines, size);
      ChunksCount(lines, size, workers);
    }
  }

  function Sum(s: seq<nat>): nat { if s == [] then 0 else s[0] + Sum(s[1..]) }

  /** `bulk_seq` and `bulk_threads`: the statements in all the lines, counted by one worker or by many. */
  function BulkSeq<A>(count: A -> nat, lines: seq<A>): nat { Sum(Map(count, lines)) }

  function BulkThreads<A>(count: A -> nat, lines: seq<A>, workers: nat): nat {
    if workers <= 1 || |lines| < 2 then BulkSeq(count, lines)
    else Sum(Map(chunk => BulkSeq(count, chunk), Chunks(lines, DivCeil(|lines|, workers))))
  }

  lemma {:induction false} SumSplits(a: seq<nat>, b: seq<nat>)
    ensures Sum(a + b) == Sum(a) + Sum(b)
  {
    if a == [] {
      assert a + b == b;
    } else {
      SumSplits(a[1..], b);
      assert (a + b)[1..] == a[1..] + b;
    }
  }

  lemma {:induction false} BulkSplits<A>(count: A -> nat, lines: seq<A>, n: nat)
    requires n <= |lines|
    ensures BulkSeq(count, lines) == BulkSeq(count, lines[..n]) + BulkSeq(count, lines[n..])
  {
    SumSplits(Map(count, lines[..n]), Map(count, lines[n..]));
    assert Map(count, lines) == Map(count, lines[..n]) + Map(count, lines[n..]);
  }

  lemma {:induction false} ChunksSum<A>(count: A -> nat, lines: seq<A>, size: nat)
    requires size > 0
    ensures Sum(Map(chunk => BulkSeq(count, chunk), Chunks(lines, size))) == BulkSeq(count, lines)
    decreases |lines|
  {
    var f := chunk => BulkSeq(count, chunk);
    if |lines| > size {
      ChunksSum(count, lines[size..], size);
      assert Map(f, Chunks(lines, size)) == [f(lines[..size])] + Map(f, Chunks(lines[size..], size));
      BulkSplits(count, lines, size);
    } else if lines != [] {
      assert Map(f, [lines]) == [f(lines)] && Sum([f(lines)]) == f(lines) + Sum([]);
    }
  }

  /** No statement is counted twice or missed, whatever the number of workers. */
  lemma BulkThreadsCountAll<A>(count: A -> nat, lines: seq<A>, workers: nat)
    ensures BulkThreads(count, lines, workers) == BulkSeq(count, lines)
  {
    if workers > 1 && |lines| >= 2 {
      DivCeilCovers(|lines|, workers);
      ChunksSum(count, lines, DivCeil(|lines|, workers));
    }
  }

  /** They count the statements there are. */
  lemma {:induction false} BulkCountsStatements<A, B>(parse: A -> seq<B>, count: A -> nat, lines: seq<A>, workers: nat)
    requires forall i :: 0 <= i < |lines| ==> count(lines[i]) == |parse(lines[i])|
    ensures BulkThreads(count, lines, workers) == |Flatten(Map(parse, lines))|
  {
    BulkThreadsCountAll(count, lines, workers);
    FlattenLength(Map(parse, lines));
    assert Map(count, lines) == Map(Length, Map(parse, lines));
  }

  function Length<B>(s: seq<B>): nat { |s| }

  lemma {:induction false} FlattenLength<B>(ss: seq<seq<B>>)
    ensures |Flatten(ss)| == Sum(Map(Length, ss))
  {
    if ss != [] {
      FlattenLength(ss[1..]);
      assert Map(Length, ss)[1..] == Map(Length, ss[1..]);
    }
  }
}
