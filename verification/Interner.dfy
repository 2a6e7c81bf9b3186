/** Identifier interning: crates/squonk/src/interner/mod.rs, and its bench replica in
    bench/examples/small_throughput.rs. A symbol is a one-based key; the keywords own the first
    keys and every other text gets the next free one. */
module Interner {
  import opened Bits
  import opened Wrappers

  type Symbol = s: nat | 0 < s witness 1

  // ----- The keyword inventory -----

  /** The fixed spellings, in key order, and the lookup of a word among them, which folds case. */
  datatype Keywords = Keywords(all: seq<string>, lookup: string -> Option<nat>) {
    /** What the generated table promises: every keyword is found by its own spelling. */
    ghost predicate Valid() {
      && (forall k :: 0 <= k < |all| ==> lookup(all[k]) == Some(k))
      && (forall s: string, k :: lookup(s) == Some(k) ==> k < |all|)
    }

    predicate Canonical(s: string) { s in all }

    function Known(): set<string> { set s | s in all }
  }

  // ----- What interning means -----

  ghost predicate Distinct(table: seq<string>) { forall i, j :: 0 <= i < j < |table| ==> table[i] != table[j] }

  /** The texts that own the dynamic keys: no text twice, and no keyword. */
  ghost predicate Fresh(kws: Keywords, table: seq<string>) {
    Distinct(table) && forall s :: s in table ==> !kws.Canonical(s)
  }

  function IndexOf(table: seq<string>, s: string): (i: nat)
    requires s in table
    ensures i < |table| && table[i] == s && s !in table[..i]
  {
    if table[0] == s then 0 else 1 + IndexOf(table[1..], s)
  }

  /** The key of a text that has one. */
  function SymbolOf(kws: Keywords, table: seq<string>, s: string): Symbol
    requires s in kws.all + table
  {
    IndexOf(kws.all + table, s) + 1
  }

  /** The dynamic texts once s is interned. */
  function Extend(kws: Keywords, table: seq<string>, s: string): seq<string> {
    if s in kws.all + table then table else table + [s]
  }

  function Resolve(kws: Keywords, table: seq<string>, sym: Symbol): Option<string> {
    if sym <= |kws.all| then Some(kws.all[sym - 1])
    else if sym - |kws.all| <= |table| then Some(table[sym - |kws.all| - 1])
    else None
  }

  /** All the keys fit in 32 bits. */
  predicate Fits(kws: Keywords, table: seq<string>) { |kws.all| + |table| < U32_MODULUS }

  /** Texts interned one after the other. */
  function ExtendAll(kws: Keywords, table: seq<string>, texts: seq<string>): (r: seq<string>)
    ensures table <= r
  {
    if texts == [] then table else Extend(kws, ExtendAll(kws, table, texts[..|texts| - 1]), texts[|texts| - 1])
  }

  lemma IndexIs(table: seq<string>, s: string, i: nat)
    requires i < |table| && table[i] == s && s !in table[..i]
    ensures s in table && IndexOf(table, s) == i
  {
    var j := IndexOf(table, s);
    assert forall k :: 0 <= k < i ==> table[..i][k] != s;
    assert forall k :: 0 <= k < j ==> table[..j][k] != s;
  }

  lemma IndexGrows(table: seq<string>, more: seq<string>, s: string)
    requires s in table && table <= more
    ensures IndexOf(more, s) == IndexOf(table, s)
  {
    var i := IndexOf(table, s);
    assert more[..i] == table[..i];
    IndexIs(more, s, i);
  }

  /** Keys are never reassigned: a text keeps its key, and a key its text, as the table grows. */
  lemma SymbolsAreStable(kws: Keywords, table: seq<string>, more: seq<string>, s: string, sym: Symbol)
    requires table <= more
    ensures s in kws.all + table ==> SymbolOf(kws, more, s) == SymbolOf(kws, table, s)
    ensures Resolve(kws, table, sym).Some? ==> Resolve(kws, more, sym) == Resolve(kws, table, sym)
  {
    assert kws.all + table <= kws.all + more;
    if s in kws.all + table { IndexGrows(kws.all + table, kws.all + more, s); }
  }

  /** A key resolves to its text, */
  lemma SymbolResolves(kws: Keywords, table: seq<string>, s: string)
    requires s in kws.all + table
    ensures Resolve(kws, table, SymbolOf(kws, table, s)) == Some(s)
  {
    var i := IndexOf(kws.all + table, s);
    if i < |kws.all| { assert (kws.all + table)[i] == kws.all[i]; }
  }

  /** and a key that resolves is the key of its text: identity of texts is equality of keys. */
  lemma ResolvedSymbol(kws: Keywords, table: seq<string>, sym: Symbol)
    requires kws.Valid() && Fresh(kws, table) && Resolve(kws, table, sym).Some?
    ensures var s := Resolve(kws, table, sym).value; s in kws.all + table && SymbolOf(kws, table, s) == sym
  {
    var both, s := kws.all + table, Resolve(kws, table, sym).value;
    assert both[sym - 1] == s;
    forall j | 0 <= j < sym - 1 ensures both[j] != s {
      if sym <= |kws.all| {
        assert kws.lookup(kws.all[j]) == Some(j) && kws.lookup(kws.all[sym - 1]) == Some(sym - 1);
      } else {
        assert s in table;
        assert both[j] == if j < |kws.all| then kws.all[j] else table[j - |kws.all|];
      }
    }
    assert s !in both[..sym - 1];
    IndexIs(both, s, sym - 1);
  }

  lemma ExtendKeepsFresh(kws: Keywords, table: seq<string>, s: string)
    requires Fresh(kws, table)
    ensures Fresh(kws, Extend(kws, table, s)) && s in kws.all + Extend(kws, table, s)
  {
    assert (table + [s])[|table|] == s;
  }

  // ----- First occurrences -----

  /** The texts that are not known already, each where it first occurs. */
  function FirstsOutside(known: set<string>, texts: seq<string>): seq<string> {
    if texts == [] then []
    else
      var before, last := texts[..|texts| - 1], texts[|texts| - 1];
      FirstsOutside(known, before) + if last in known || last in before then [] else [last]
  }

  lemma {:induction false} FirstsHold(known: set<string>, texts: seq<string>)
    ensures forall s :: s in FirstsOutside(known, texts) <==> s in texts && s !in known
    ensures Distinct(FirstsOutside(known, texts))
  {
    if texts != [] {
      FirstsHold(known, texts[..|texts| - 1]);
      assert texts == texts[..|texts| - 1] + [texts[|texts| - 1]];
    }
  }

  function Firsts(kws: Keywords, texts: seq<string>): seq<string> { FirstsOutside(kws.Known(), texts) }

  /** One fresh interner fed texts in order holds their first occurrences. */
  lemma {:induction false} TableIsFirsts(kws: Keywords, texts: seq<string>)
    ensures ExtendAll(kws, [], texts) == Firsts(kws, texts) && Fresh(kws, Firsts(kws, texts))
  {
    if texts != [] {
      var before, last := texts[..|texts| - 1], texts[|texts| - 1];
      TableIsFirsts(kws, before);
      FirstsHold(kws.Known(), before);
      ExtendKeepsFresh(kws, Firsts(kws, before), last);
    }
  }

  // ----- The interner -----

  class Interner {
    const kws: Keywords
    var keys: map<string, Symbol>
    var strings: seq<string>

    ghost predicate Valid()
      reads this
    {
      && kws.Valid() && Fresh(kws, strings)
      && (forall s :: s in keys <==> s in strings)
      && (forall s :: s in keys ==> keys[s] == SymbolOf(kws, strings, s))
    }

    constructor (kws: Keywords)
      requires kws.Valid()
      ensures Valid() && this.kws == kws && strings == []
    {
      this.kws := kws;
      keys := map[];
      strings := [];
    }

    /** Interning makes the text known and answers with its key; running out of keys is a panic. */
    method Intern(s: string) returns (sym: Symbol)
      requires Valid() && Fits(kws, Extend(kws, strings, s))
      modifies this
      ensures Valid() && strings == Extend(kws, old(strings), s)
      ensures s in kws.all + strings && sym == SymbolOf(kws, strings, s)
    {
      var keyword := kws.lookup(s);
      if keyword.Some? && kws.all[keyword.value] == s {
        FirstKeyword(kws, strings, keyword.value);
        return keyword.value + 1;
      }
      sym := InternDynamic(s);
    }

    /** The text is no keyword's own spelling: no keyword at all, or one in another case. */
    method InternNonkeyword(s: string) returns (sym: Symbol)
      requires Valid() && !kws.Canonical(s) && Fits(kws, Extend(kws, strings, s))
      modifies this
      ensures Valid() && strings == Extend(kws, old(strings), s)
      ensures s in kws.all + strings && sym == SymbolOf(kws, strings, s)
    {
      sym := InternDynamic(s);
    }

    /** The lexer found this keyword. */
    method InternKeywordIdent(kw: nat, s: string) returns (sym: Symbol)
      requires Valid() && kws.lookup(s) == Some(kw) && Fits(kws, Extend(kws, strings, s))
      modifies this
      ensures Valid() && strings == Extend(kws, old(strings), s)
      ensures s in kws.all + strings && sym == SymbolOf(kws, strings, s)
    {
      if s == kws.all[kw] {
        FirstKeyword(kws, strings, kw);
        return kw + 1;
      }
      sym := InternDynamic(s);
    }

    method InternDynamic(s: string) returns (sym: Symbol)
      requires Valid() && !kws.Canonical(s) && Fits(kws, Extend(kws, strings, s))
      modifies this
      ensures Valid() && strings == Extend(kws, old(strings), s)
      ensures s in kws.all + strings && sym == SymbolOf(kws, strings, s)
    {
      if s in keys {
        return keys[s];
      }
      sym := |kws.all| + (|strings| + 1);
      ghost var before := strings;
      strings := strings + [s];
      keys := keys[s := sym];
      NewSymbol(kws, before, s);
      ExtendKeepsFresh(kws, before, s);
      forall t | t in before ensures SymbolOf(kws, strings, t) == SymbolOf(kws, before, t) {
        SymbolsAreStable(kws, before, strings, t, 1);
      }
    }

    method TryResolve(sym: Symbol) returns (text: Option<string>)
      ensures text == Resolve(kws, strings, sym)
    {
      if sym <= |kws.all| {
        return Some(kws.all[sym - 1]);
      }
      var index := sym - |kws.all| - 1;
      if index < |strings| {
        return Some(strings[index]);
      }
      return None;
    }

    method Freeze() returns (resolver: seq<string>)
      ensures resolver == strings
    {
      resolver := strings;
    }
  }

  lemma FirstKeyword(kws: Keywords, table: seq<string>, k: nat)
    requires kws.Valid() && k < |kws.all|
    ensures kws.all[k] in kws.all + table && SymbolOf(kws, table, kws.all[k]) == k + 1
  {
    var both := kws.all + table;
    assert both[k] == kws.all[k];
    forall j | 0 <= j < k ensures both[j] != kws.all[k] {
      assert kws.lookup(kws.all[j]) == Some(j) && kws.lookup(kws.all[k]) == Some(k);
    }
    assert kws.all[k] !in both[..k];
    IndexIs(both, kws.all[k], k);
  }

  lemma NewSymbol(kws: Keywords, table: seq<string>, s: string)
    requires s !in kws.all + table
    ensures s in kws.all + (table + [s]) && SymbolOf(kws, table + [s], s) == |kws.all| + |table| + 1
  {
    var both := kws.all + (table + [s]);
    assert both[..|kws.all| + |table|] == kws.all + table;
    assert both[|kws.all| + |table|] == s;
    IndexIs(both, s, |kws.all| + |table|);
  }

  // ----- Case-insensitive identity -----

  function Spelling(kws: Keywords, strings: seq<string>, fold: string -> string, raw: nat): string
    requires 1 <= raw <= |kws.all| + |strings|
  {
    fold(Resolve(kws, strings, raw).value)
  }

  function Spellings(kws: Keywords, strings: seq<string>, fold: string -> string): (keys: seq<string>)
    ensures |keys| == |kws.all| + |strings|
    ensures forall i :: 0 <= i < |keys| ==> keys[i] == Spelling(kws, strings, fold, i + 1)
  {
    seq(|kws.all| + |strings|, i requires 0 <= i < |kws.all| + |strings| => Spelling(kws, strings, fold, i + 1))
  }

  /** The side table names, for every symbol, its folded spelling's place among the first occurrences,
      counted from one. */
  method BuildFolded(kws: Keywords, strings: seq<string>, fold: string -> string) returns (folded: seq<nat>)
    requires Fits(kws, strings)
    ensures Names(Spellings(kws, strings, fold), folded)
  {
    ghost var keys := Spellings(kws, strings, fold);
    var total := |kws.all| + |strings|;
    folded := [];
    var ids: map<string, nat> := map[];
    var nextId := 1;
    ghost var firsts: seq<string> := [];
    NamingNone(keys);
    for i := 0 to total
      invariant nextId == |firsts| + 1 && Naming(keys, i, firsts, ids, folded)
    {
      var key := Spelling(kws, strings, fold, i + 1);
      firsts := NamingNext(keys, i, firsts, ids, folded);
      var id := if key in ids then ids[key] else nextId;
      nextId := if key in ids then nextId else nextId + 1;
      ids := ids[key := id];
      folded := folded + [id];
    }
    NamingDone(keys, firsts, ids, folded);
  }

  /** The ids name the first spellings by their places, */
  ghost predicate Placed(firsts: seq<string>, ids: map<string, nat>) {
    && (forall s :: s in firsts <==> s in ids)
    && (forall s :: s in ids ==> 1 <= ids[s] <= |firsts| && firsts[ids[s] - 1] == s)
  }

  /** and the table repeats them for the first i spellings. */
  ghost predicate Naming(keys: seq<string>, i: nat, firsts: seq<string>, ids: map<string, nat>, folded: seq<nat>) {
    && i <= |keys| && firsts == FirstsOutside({}, keys[..i]) && Placed(firsts, ids)
    && |folded| == i && (forall j :: 0 <= j < i ==> keys[j] in ids && folded[j] == ids[keys[j]])
  }

  lemma PlacedNext(firsts: seq<string>, ids: map<string, nat>, s: string)
    requires Placed(firsts, ids) && s !in ids
    ensures Placed(firsts + [s], ids[s := |firsts| + 1])
  {}

  lemma NamingNext(keys: seq<string>, i: nat, firsts: seq<string>, ids: map<string, nat>, folded: seq<nat>)
    returns (next: seq<string>)
    requires i < |keys| && Naming(keys, i, firsts, ids, folded)
    ensures |next| == if keys[i] in ids then |firsts| else |firsts| + 1
    ensures var id := if keys[i] in ids then ids[keys[i]] else |firsts| + 1;
      Naming(keys, i + 1, next, ids[keys[i] := id], folded + [id])
  {
    if keys[i] in ids {
      next := firsts;
      NamingKnown(keys, i, firsts, ids, folded);
    } else {
      next := firsts + [keys[i]];
      NamingNew(keys, i, firsts, ids, folded);
    }
  }

  lemma NamingKnown(keys: seq<string>, i: nat, firsts: seq<string>, ids: map<string, nat>, folded: seq<nat>)
    requires i < |keys| && Naming(keys, i, firsts, ids, folded) && keys[i] in ids
    ensures Naming(keys, i + 1, firsts, ids[keys[i] := ids[keys[i]]], folded + [ids[keys[i]]])
  {
    FirstsNext({}, keys, i);
    assert ids[keys[i] := ids[keys[i]]] == ids;
  }

  lemma NamingNew(keys: seq<string>, i: nat, firsts: seq<string>, ids: map<string, nat>, folded: seq<nat>)
    requires i < |keys| && Naming(keys, i, firsts, ids, folded) && keys[i] !in ids
    ensures Naming(keys, i + 1, firsts + [keys[i]], ids[keys[i] := |firsts| + 1], folded + [|firsts| + 1])
  {
    FirstsNext({}, keys, i);
    PlacedNext(firsts, ids, keys[i]);
  }

  lemma NamingNone(keys: seq<string>)
    ensures Naming(keys, 0, [], map[], [])
  {
    assert keys[..0] == [];
  }

  lemma NamingDone(keys: seq<string>, firsts: seq<string>, ids: map<string, nat>, folded: seq<nat>)
    requires Naming(keys, |keys|, firsts, ids, folded)
    ensures Names(keys, folded)
  {
    assert keys[..|keys|] == keys;
  }

  lemma FirstsNext(known: set<string>, keys: seq<string>, n: nat)
    requires n < |keys|
    ensures var before := FirstsOutside(known, keys[..n]);
      && Distinct(before)
      && (keys[n] in known ==> keys[n] !in before)
      && FirstsOutside(known, keys[..n + 1]) == before + if keys[n] in known || keys[n] in before then [] else [keys[n]]
  {
    assert keys[..n + 1][..n] == keys[..n];
    FirstsHold(known, keys[..n]);
  }

  ghost predicate Names(keys: seq<string>, folded: seq<nat>) {
    var firsts := FirstsOutside({}, keys);
    |folded| == |keys| && forall i :: 0 <= i < |keys| ==> 1 <= folded[i] <= |firsts| && firsts[folded[i] - 1] == keys[i]
  }

  /** `None` for a symbol minted by a larger interner. */
  function Fold(folded: seq<nat>, sym: Symbol): Option<nat> {
    if sym - 1 < |folded| then Some(folded[sym - 1]) else None
  }

  /** So the symbols that have a folded identity are those that resolve, and two of them share it exactly when their
      texts fold equal; */
  lemma FoldedIdentity(kws: Keywords, strings: seq<string>, fold: string -> string, folded: seq<nat>, x: Symbol, y: Symbol)
    requires Names(Spellings(kws, strings, fold), folded)
    ensures Fold(folded, x).Some? <==> Resolve(kws, strings, x).Some?
    ensures Fold(folded, x).Some? && Fold(folded, y).Some? ==>
      (Fold(folded, x) == Fold(folded, y) <==> fold(Resolve(kws, strings, x).value) == fold(Resolve(kws, strings, y).value))
  {
    var keys := Spellings(kws, strings, fold);
    if x <= |keys| && y <= |keys| {
      SharesIdentity(keys, folded, x - 1, y - 1);
      assert keys[x - 1] == Spelling(kws, strings, fold, x) && keys[y - 1] == Spelling(kws, strings, fold, y);
    }
  }

  lemma SharesIdentity(keys: seq<string>, folded: seq<nat>, i: nat, j: nat)
    requires Names(keys, folded) && i < |keys| && j < |keys|
    ensures folded[i] == folded[j] <==> keys[i] == keys[j]
  {
    FirstsHold({}, keys);
  }

  /** and the identities in use are those from one up, none left out. */
  lemma NoIdentityLeftOut(keys: seq<string>, folded: seq<nat>)
    requires Names(keys, folded)
    ensures forall id :: id in folded <==> 1 <= id <= |FirstsOutside({}, keys)|
  {
    var firsts := FirstsOutside({}, keys);
    FirstsHold({}, keys);
    forall id | 1 <= id <= |firsts| ensures id in folded {
      assert firsts[id - 1] in keys;
      var i :| 0 <= i < |keys| && keys[i] == firsts[id - 1];
      assert folded[i] == id;
    }
  }

  // ----- The bench replica's dedup map -----

  /** Each text not known before is numbered, in 32 bits, by its place among the new ones. */
  ghost predicate Numbers(known: map<string, nat>, strings: seq<string>, filled: map<string, nat>) {
    && (forall s :: s in filled <==> s in known || s in strings)
    && (forall s :: s in known ==> filled[s] == known[s])
    && forall i :: 0 <= i < |strings| ==> filled[strings[i]] == (i + 1) % U32_MODULUS
  }

  /** One more text seen. */
  lemma NumbersNext(known: map<string, nat>, ids: seq<string>, i: nat, strings: seq<string>, filled: map<string, nat>)
    requires i < |ids| && strings == FirstsOutside(known.Keys, ids[..i]) && Numbers(known, strings, filled)
    ensures var s, next := ids[i], FirstsOutside(known.Keys, ids[..i + 1]);
      if s in filled then next == strings
      else next == strings + [s] && Numbers(known, next, filled[s := |next| % U32_MODULUS])
  {
    FirstsNext(known.Keys, ids, i);
  }

  method FillMap(known: map<string, nat>, ids: seq<string>) returns (filled: map<string, nat>, strings: seq<string>)
    ensures strings == FirstsOutside(known.Keys, ids) && Numbers(known, strings, filled)
  {
    filled, strings := known, [];
    for i := 0 to |ids|
      invariant strings == FirstsOutside(known.Keys, ids[..i])
      invariant Numbers(known, strings, filled)
    {
      NumbersNext(known, ids, i, strings, filled);
      if ids[i] !in filled {
        strings := strings + [ids[i]];
        filled := filled[ids[i] := |strings| % U32_MODULUS];
      }
    }
    assert ids[..|ids|] == ids;
  }

  method MapFresh(ids: seq<string>) returns (filled: map<string, nat>, strings: seq<string>)
    ensures strings == FirstsOutside({}, ids) && Numbers(map[], strings, filled)
  {
    var empty: map<string, nat> := map[];
    filled, strings := FillMap(empty, ids);
    assert empty.Keys == {};
  }

  /** A map kept between parses: reused, it ends as a fresh one does. */
  class Pool {
    var dedup: map<string, nat>

    method MapReuse(ids: seq<string>) returns (strings: seq<string>)
      modifies this
      ensures strings == FirstsOutside({}, ids) && Numbers(map[], strings, dedup)
    {
      dedup := map[];
      assert dedup.Keys == {};
      dedup, strings := FillMap(dedup, ids);
    }
  }

  lemma NumbersDetermine(known: map<string, nat>, strings: seq<string>, a: map<string, nat>, b: map<string, nat>)
    requires Numbers(known, strings, a) && Numbers(known, strings, b)
    ensures a == b
  {
    forall s | s in a && s !in known ensures a[s] == b[s] {
      var i :| 0 <= i < |strings| && strings[i] == s;
    }
  }

  lemma TableWithoutKeywords(kws: Keywords, ids: seq<string>)
    requires forall t :: t in ids ==> !kws.Canonical(t)
    ensures ExtendAll(kws, [], ids) == FirstsOutside({}, ids) && Fresh(kws, FirstsOutside({}, ids))
  {
    TableIsFirsts(kws, ids);
    KnownApart(kws.Known(), ids);
  }

  /** On texts that are no keywords the replica numbers as the interner does, from one instead of from
      the first dynamic key. */
  lemma ReplicaNumbersAlike(kws: Keywords, ids: seq<string>, strings: seq<string>, dedup: map<string, nat>, i: nat)
    requires forall t :: t in ids ==> !kws.Canonical(t)
    requires strings == FirstsOutside({}, ids) && Numbers(map[], strings, dedup) && i < |strings|
    ensures var table := ExtendAll(kws, [], ids);
      && strings[i] in dedup && strings[i] in kws.all + table
      && (Fits(kws, table) ==> SymbolOf(kws, table, strings[i]) == |kws.all| + dedup[strings[i]])
  {
    TableWithoutKeywords(kws, ids);
    TableSymbol(kws, strings, i);
    ReplicaNumber(strings, dedup, i);
  }

  lemma ReplicaNumber(strings: seq<string>, dedup: map<string, nat>, i: nat)
    requires Numbers(map[], strings, dedup) && i < |strings|
    ensures strings[i] in dedup && (|strings| < 0x1_0000_0000 ==> dedup[strings[i]] == i + 1)
  {
    assert strings[i] in strings;
    assert |strings| < 0x1_0000_0000 ==> (i + 1) % 0x1_0000_0000 == i + 1;
  }

  lemma TableSymbol(kws: Keywords, table: seq<string>, i: nat)
    requires i < |table| && Fresh(kws, table)
    ensures table[i] in kws.all + table && SymbolOf(kws, table, table[i]) == |kws.all| + i + 1
  {
    assert table[i] in table;
    assert (kws.all + table)[|kws.all| + i] == table[i];
    assert (kws.all + table)[..|kws.all| + i] == kws.all + table[..i];
    IndexIs(kws.all + table, table[i], |kws.all| + i);
  }

  lemma {:induction false} KnownApart(known: set<string>, texts: seq<string>)
    requires forall t :: t in texts ==> t !in known
    ensures FirstsOutside(known, texts) == FirstsOutside({}, texts)
  {
    if texts != [] { KnownApart(known, texts[..|texts| - 1]); }
  }
}
