/** The loaded specification modules and the order in which they are asked (ModuleCollection.cpp). */
module ModuleCollection {
  import opened Common
  import opened UidText

  datatype Kind = FEATURE | SSC | CORE

  /** The values of the enumeration decide the order of lookup. */
  function Rank(kind: Kind): nat {
    match kind
    case FEATURE => 1
    case SSC => 2
    case CORE => 3
  }

  datatype Module = Module(name: Text, kind: Kind, features: seq<Module>)

  //
  // Order of names
  //

  /** Lexicographic order of strings. */
  predicate Less(a: Text, b: Text) {
    b != [] && (a == [] || a[0] < b[0] || (a[0] == b[0] && Less(a[1..], b[1..])))
  }

  lemma {:induction false} LessIsTotal(a: Text, b: Text)
    ensures a == b || Less(a, b) || Less(b, a)
    ensures !(Less(a, b) && Less(b, a)) && !Less(a, a)
    decreases |a|
  {
    if a != [] {
      LessIsTotal(a[1..], a[1..]);
      if b != [] {
        LessIsTotal(a[1..], b[1..]);
        if a[0] == b[0] && a[1..] == b[1..] {
          assert a == [a[0]] + a[1..] && b == [b[0]] + b[1..];
        }
      }
    }
  }

  lemma {:induction false} LessIsTransitive(a: Text, b: Text, c: Text)
    requires Less(a, b) && Less(b, c)
    ensures Less(a, c)
    decreases |a|
  {
    if a != [] && a[0] == b[0] == c[0] {
      LessIsTransitive(a[1..], b[1..], c[1..]);
    }
  }

  predicate NameLess(m: Module, n: Module) {
    Less(m.name, n.name)
  }

  predicate KindLess(m: Module, n: Module) {
    Rank(m.kind) < Rank(n.kind)
  }

  predicate SortedBy(less: (Module, Module) -> bool, s: seq<Module>) {
    forall i, j :: 0 <= i < j < |s| ==> !less(s[j], s[i])
  }

  /** std::ranges::sort: some permutation in order; what it does with equal elements is left open. */
  ghost predicate Sorts(sort: seq<Module> -> seq<Module>, less: (Module, Module) -> bool) {
    forall s: seq<Module> :: multiset(sort(s)) == multiset(s) && SortedBy(less, sort(s))
  }

  //
  // Duplicates
  //

  predicate DistinctNames(s: seq<Module>) {
    forall i, j :: 0 <= i < j < |s| ==> s[i].name != s[j].name
  }

  function NamesOf(s: seq<Module>): set<Text> {
    set m | m in s :: m.name
  }

  function ModulesOf(s: seq<Module>): set<Module> {
    set m | m in s
  }

  /** std::ranges::unique and erase: of neighbours with one name the first stays. */
  function Unique(s: seq<Module>): (r: seq<Module>)
    ensures s != [] ==> r != [] && r[|r| - 1].name == s[|s| - 1].name
  {
    if |s| <= 1 then s
    else
      var init := Unique(s[..|s| - 1]);
      if init[|init| - 1].name == s[|s| - 1].name then init else init + [s[|s| - 1]]
  }

  predicate StrictlySorted(s: seq<Module>) {
    forall i, j :: 0 <= i < j < |s| ==> NameLess(s[i], s[j])
  }

  lemma StrictIsDistinct(s: seq<Module>)
    requires StrictlySorted(s)
    ensures DistinctNames(s)
  {
    forall i, j | 0 <= i < j < |s| ensures s[i].name != s[j].name {
      LessIsTotal(s[i].name, s[j].name);
      LessIsTotal(s[i].name, s[i].name);
    }
  }

  lemma AppendStrict(s: seq<Module>, m: Module)
    requires StrictlySorted(s) && (s == [] || NameLess(s[|s| - 1], m))
    ensures StrictlySorted(s + [m])
  {
    hide Less;
    forall i | 0 <= i < |s| ensures NameLess(s[i], m) {
      if i < |s| - 1 {
        LessIsTransitive(s[i].name, s[|s| - 1].name, m.name);
      }
    }
  }

  lemma NamesSnoc(s: seq<Module>, m: Module)
    ensures NamesOf(s + [m]) == NamesOf(s) + {m.name} && ModulesOf(s + [m]) == ModulesOf(s) + {m}
  {
  }

  /** In a list sorted by name, this leaves every name exactly once. */
  lemma {:induction false} UniqueNames(s: seq<Module>)
    requires SortedBy(NameLess, s)
    ensures StrictlySorted(Unique(s))
    ensures NamesOf(Unique(s)) == NamesOf(s) && ModulesOf(Unique(s)) <= ModulesOf(s)
    decreases |s|
  {
    hide Less, NamesOf, ModulesOf;
    if |s| > 1 {
      var n := |s| - 1;
      var init := s[..n];
      var kept := Unique(init);
      UniqueNames(init);
      assert s == init + [s[n]];
      NamesSnoc(init, s[n]);
      NamesSnoc(kept, s[n]);
      assert !NameLess(s[n], s[n - 1]);
      LessIsTotal(s[n - 1].name, s[n].name);
      if s[n - 1].name != s[n].name {
        AppendStrict(kept, s[n]);
      } else {
        NameListed(init, n - 1);
      }
    }
  }

  lemma NameListed(s: seq<Module>, i: nat)
    requires i < |s|
    ensures s[i].name in NamesOf(s)
  {
  }

  lemma DistinctSnoc(s: seq<Module>, m: Module)
    ensures DistinctNames(s + [m]) <==> DistinctNames(s) && m.name !in NamesOf(s)
  {
    var all := s + [m];
    if m.name in NamesOf(s) {
      var k :| 0 <= k < |s| && s[k].name == m.name;
      assert all[k].name == all[|s|].name;
    } else {
      forall k | 0 <= k < |s| ensures s[k].name != m.name {
        NameListed(s, k);
      }
    }
    if DistinctNames(all) {
      assert forall k :: 0 <= k < |s| ==> all[k] == s[k];
    }
  }

  /** Names are distinct exactly if there are as many of them as there are modules. */
  lemma {:induction false} DistinctIffAsMany(s: seq<Module>)
    ensures |NamesOf(s)| <= |s|
    ensures DistinctNames(s) <==> |NamesOf(s)| == |s|
    decreases |s|
  {
    if s == [] {
      assert NamesOf(s) == {};
    } else {
      hide NamesOf, DistinctNames;
      var n := |s| - 1;
      var init := s[..n];
      assert s == init + [s[n]];
      DistinctIffAsMany(init);
      NamesSnoc(init, s[n]);
      DistinctSnoc(init, s[n]);
      if s[n].name in NamesOf(init) {
        assert NamesOf(s) == NamesOf(init);
      }
    }
  }

  lemma PermutationKeeps(s: seq<Module>, t: seq<Module>)
    requires multiset(s) == multiset(t)
    ensures ModulesOf(s) == ModulesOf(t) && NamesOf(s) == NamesOf(t)
    ensures DistinctNames(s) ==> DistinctNames(t)
  {
    hide DistinctNames;
    assert forall m :: m in s <==> m in multiset(s);
    assert forall m :: m in t <==> m in multiset(t);
    assert |multiset(s)| == |s| && |multiset(t)| == |t|;
    DistinctIffAsMany(s);
    DistinctIffAsMany(t);
  }

  //
  // The collection
  //

  /** A module together with its features and theirs. */
  function Reach(m: Module): set<Module>
    decreases m, 1
  {
    {m} + ReachAll(m.features)
  }

  function ReachAll(ms: seq<Module>): set<Module>
    decreases ms, 0
  {
    if ms == [] then {} else Reach(ms[0]) + ReachAll(ms[1..])
  }

  function NamesIn(ms: set<Module>): set<Text> {
    set m | m in ms :: m.name
  }

  /** What every Load leaves behind: every name once, ordered FEATURE, SSC, CORE. */
  predicate WellOrdered(s: seq<Module>) {
    DistinctNames(s) && SortedBy(KindLess, s)
  }

  lemma {:induction false} ReachAllSnoc(ms: seq<Module>, m: Module)
    ensures ReachAll(ms + [m]) == ReachAll(ms) + Reach(m)
    decreases |ms|
  {
    hide Reach;
    if ms == [] {
      assert [m][1..] == [] && ms + [m] == [m];
      assert ReachAll([m]) == Reach(m) + ReachAll([m][1..]);
    } else {
      ReachAllSnoc(ms[1..], m);
      assert (ms + [m])[1..] == ms[1..] + [m];
    }
  }

  /** The first module with an answer, and none of a smaller kind has one. */
  predicate Foremost<T(==)>(s: seq<Module>, ask: Module -> Option<T>, i: nat)
    requires i < |s|
  {
    && (forall j :: 0 <= j < i ==> ask(s[j]) == None)
    && (forall j :: 0 <= j < |s| && ask(s[j]).Some? ==> Rank(s[i].kind) <= Rank(s[j].kind))
  }

  class ModuleCollection {
    var modules: seq<Module>
    const sortByName: seq<Module> -> seq<Module>
    const sortByKind: seq<Module> -> seq<Module>

    constructor (sortByName: seq<Module> -> seq<Module>, sortByKind: seq<Module> -> seq<Module>)
      requires Sorts(sortByName, NameLess) && Sorts(sortByKind, KindLess)
      ensures Valid() && modules == []
    {
      modules := [];
      this.sortByName, this.sortByKind := sortByName, sortByKind;
    }

    ghost predicate Valid()
      reads this
    {
      Sorts(sortByName, NameLess) && Sorts(sortByKind, KindLess) && WellOrdered(modules)
    }

    /**
     * Load: the features first, then the module itself; then sort, drop duplicates and sort again. The collection
     * names what it named before, the module and its transitive features, each once, and holds nothing else.
     */
    method Load(mod: Module)
      requires Valid()
      modifies this`modules
      ensures Valid()
      ensures NamesOf(modules) == NamesOf(old(modules)) + NamesIn(Reach(mod))
      ensures ModulesOf(modules) <= ModulesOf(old(modules)) + Reach(mod)
      decreases mod
    {
      hide Sorts, WellOrdered, Reach;
      for i := 0 to |mod.features|
        invariant Valid()
        invariant NamesOf(modules) == NamesOf(old(modules)) + NamesIn(ReachAll(mod.features[..i]))
        invariant ModulesOf(modules) <= ModulesOf(old(modules)) + ReachAll(mod.features[..i])
      {
        assert mod.features[..i + 1] == mod.features[..i] + [mod.features[i]];
        ReachAllSnoc(mod.features[..i], mod.features[i]);
        Load(mod.features[i]);
      }
      assert mod.features[..|mod.features|] == mod.features;
      ghost var before := modules;
      modules := modules + [mod];
      modules := sortByName(modules);
      modules := Unique(modules);
      modules := sortByKind(modules);
      Rearranged(sortByName, sortByKind, before, mod);
      ReachStep(mod);
    }

    /** The lookups ask the modules in order and take the first answer: one of the smallest kind that has any. */
    method Find<T(==)>(ask: Module -> Option<T>) returns (r: Option<T>)
      requires Valid()
      ensures r.None? <==> forall i :: 0 <= i < |modules| ==> ask(modules[i]) == None
      ensures r.Some? ==> exists i :: 0 <= i < |modules| && ask(modules[i]) == r && Foremost(modules, ask, i)
    {
      for i := 0 to |modules|
        invariant forall j :: 0 <= j < i ==> ask(modules[j]) == None
      {
        r := ask(modules[i]);
        if r.Some? {
          assert forall j :: i < j < |modules| ==> !KindLess(modules[j], modules[i]);
          return;
        }
      }
      r := None;
    }
  }

  lemma ReachStep(m: Module)
    ensures Reach(m) == ReachAll(m.features) + {m}
  {
  }

  lemma Rearranged(sortByName: seq<Module> -> seq<Module>, sortByKind: seq<Module> -> seq<Module>,
                   before: seq<Module>, mod: Module)
    requires Sorts(sortByName, NameLess) && Sorts(sortByKind, KindLess)
    ensures var after := sortByKind(Unique(sortByName(before + [mod])));
      && WellOrdered(after)
      && NamesOf(after) == NamesOf(before) + {mod.name}
      && ModulesOf(after) <= ModulesOf(before) + {mod}
  {
    var pushed := before + [mod];
    var sorted := sortByName(pushed);
    PermutationKeeps(pushed, sorted);
    UniqueNames(sorted);
    StrictIsDistinct(Unique(sorted));
    NamesSnoc(before, mod);
    PermutationKeeps(Unique(sorted), sortByKind(Unique(sorted)));
  }
}
