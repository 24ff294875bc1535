/**
 * The load order `ModuleManager.sortAddons` computes, as pure functions over
 * the modules' names and dependency lists.
 *
 * The order is the legacy one: modules with a missing hard dependency are
 * pruned against the names discovered before any removal, modules without
 * dependencies seed a `LinkedHashMap` keyed by name, and one pass over the
 * rest appends a module only if none of its outstanding dependencies is a
 * hard one. Whatever that pass does not append is dropped.
 */
module Ordering {
  import opened Common

  /** A module as the sort sees it. */
  datatype Node<T> = Node(item: T, name: string, deps: seq<string>, soft: seq<string>)

  function Names<T>(ns: seq<Node<T>>): (r: seq<string>)
    ensures |r| == |ns|
    ensures forall i :: 0 <= i < |ns| ==> r[i] == ns[i].name
  {
    seq(|ns|, i requires 0 <= i < |ns| => ns[i].name)
  }

  function Items<T>(ns: seq<Node<T>>): (r: seq<T>)
    ensures |r| == |ns|
    ensures forall i :: 0 <= i < |ns| ==> r[i] == ns[i].item
  {
    seq(|ns|, i requires 0 <= i < |ns| => ns[i].item)
  }

  // ------------------------------------------------------------ pruning

  predicate DepsPresent<T>(n: Node<T>, names: seq<string>) {
    forall d :: d in n.deps ==> d in names
  }

  /** The modules the dependency check keeps: those whose every hard
      dependency is one of `names`. */
  function Prune<T>(ns: seq<Node<T>>, names: seq<string>): seq<Node<T>> {
    Filter(ns, (n: Node<T>) => DepsPresent(n, names))
  }

  // ------------------------------------------------------------ the linked map

  /** A `LinkedHashMap<String, Module>`: keys in insertion order. */
  datatype LinkedMap<T> = LinkedMap(keys: seq<string>, vals: map<string, Node<T>>)

  predicate WellFormed<T>(lm: LinkedMap<T>) {
    Distinct(lm.keys) && (forall k :: k in lm.keys ==> k in lm.vals) && (forall k :: k in lm.vals ==> k in lm.keys)
  }

  /** Every module is stored under its own name. */
  predicate Keyed<T>(lm: LinkedMap<T>) {
    forall k :: k in lm.vals ==> lm.vals[k].name == k
  }

  function EmptyMap<T>(): (lm: LinkedMap<T>)
    ensures WellFormed(lm) && Keyed(lm)
  {
    LinkedMap([], map[])
  }

  /** `LinkedHashMap.put`: a new key goes last; an existing key keeps its
      position and takes the new value. */
  function Put<T>(lm: LinkedMap<T>, k: string, v: Node<T>): (r: LinkedMap<T>)
    requires WellFormed(lm)
    ensures WellFormed(r)
    ensures r.vals == lm.vals[k := v]
    ensures k in lm.vals ==> r.keys == lm.keys
    ensures k !in lm.vals ==> r.keys == lm.keys + [k]
  {
    if k in lm.vals then LinkedMap(lm.keys, lm.vals[k := v])
    else LinkedMap(lm.keys + [k], lm.vals[k := v])
  }

  /** `LinkedHashMap.values()`, in key order. */
  function Values<T>(lm: LinkedMap<T>): (r: seq<Node<T>>)
    requires WellFormed(lm)
    ensures |r| == |lm.keys|
    ensures forall i :: 0 <= i < |r| ==> r[i] == lm.vals[lm.keys[i]]
  {
    seq(|lm.keys|, i requires 0 <= i < |lm.keys| => lm.vals[lm.keys[i]])
  }

  // ------------------------------------------------------------ seeding

  predicate Leaf<T>(n: Node<T>) {
    n.deps == [] && n.soft == []
  }

  function Leaves<T>(ns: seq<Node<T>>): seq<Node<T>> {
    Filter(ns, (n: Node<T>) => Leaf(n))
  }

  /** The map after every module without hard and soft dependencies is put,
      in discovery order. */
  function Seed<T>(ns: seq<Node<T>>): (lm: LinkedMap<T>)
    ensures WellFormed(lm) && Keyed(lm)
    ensures forall k :: k in lm.vals ==> lm.vals[k] in ns && Leaf(lm.vals[k])
    ensures forall i :: 0 <= i < |ns| && Leaf(ns[i]) ==> ns[i].name in lm.vals
  {
    if ns == [] then EmptyMap()
    else
      var init, n := ns[..|ns| - 1], ns[|ns| - 1];
      assert ns == init + [n];
      var p := Seed(init);
      assert forall i :: 0 <= i < |init| ==> init[i] == ns[i];
      if Leaf(n) then Put(p, n.name, n) else p
  }

  /** The modules the seed did not place, in list order. */
  function Remaining<T>(ns: seq<Node<T>>, lm: LinkedMap<T>): seq<Node<T>> {
    Filter(ns, (n: Node<T>) => n.name !in lm.vals)
  }

  // ------------------------------------------------------------ the pass

  /** The module's hard then soft dependencies, minus those already placed. */
  function Outstanding<T>(n: Node<T>, lm: LinkedMap<T>): (r: seq<string>)
    ensures forall d :: d in r <==> (d in n.deps || d in n.soft) && d !in lm.vals
  {
    FilterMembers(n.deps + n.soft, (d: string) => d !in lm.vals);
    Filter(n.deps + n.soft, (d: string) => d !in lm.vals)
  }

  /** No outstanding dependency is a hard one. */
  predicate Admissible<T>(n: Node<T>, lm: LinkedMap<T>) {
    forall d :: d in Outstanding(n, lm) ==> d !in n.deps
  }

  /** One turn of the pass: put the module if it is admissible. */
  function Step<T>(lm: LinkedMap<T>, n: Node<T>): (r: LinkedMap<T>)
    requires WellFormed(lm)
    ensures WellFormed(r)
  {
    if Admissible(n, lm) then Put(lm, n.name, n) else lm
  }

  /** The single pass over the remaining modules, in list order. */
  function Pass<T>(rs: seq<Node<T>>, lm: LinkedMap<T>): (r: LinkedMap<T>)
    requires WellFormed(lm)
    ensures WellFormed(r)
    ensures Keyed(lm) ==> Keyed(r)
    ensures forall k :: k in lm.vals ==> k in r.vals
    ensures forall k :: k in r.vals ==> r.vals[k] in rs || (k in lm.vals && r.vals[k] == lm.vals[k])
  {
    if rs == [] then lm
    else
      var init, n := rs[..|rs| - 1], rs[|rs| - 1];
      assert rs == init + [n];
      Step(Pass(init, lm), n)
  }

  /** The module list after `sortAddons`. */
  function Sort<T>(ns: seq<Node<T>>): seq<Node<T>> {
    var pruned := Prune(ns, Names(ns));
    var seed := Seed(pruned);
    Values(Pass(Remaining(pruned, seed), seed))
  }

  /** The filters of the sort, one module at a time (what a loop over the
      list computes). */
  lemma PruneSnoc<T>(ns: seq<Node<T>>, n: Node<T>, names: seq<string>)
    ensures Prune(ns + [n], names) == Prune(ns, names) + if DepsPresent(n, names) then [n] else []
  {
    FilterSnoc(ns, n, (n: Node<T>) => DepsPresent(n, names));
  }

  lemma RemainingSnoc<T>(ns: seq<Node<T>>, n: Node<T>, lm: LinkedMap<T>)
    ensures Remaining(ns + [n], lm) == Remaining(ns, lm) + if n.name !in lm.vals then [n] else []
  {
    FilterSnoc(ns, n, (n: Node<T>) => n.name !in lm.vals);
  }

  // ------------------------------------------------------------ properties

  /** Pruning keeps exactly the modules whose hard dependencies are all among
      the names discovered before any removal, so removing one module never
      removes the modules that depend on it. */
  lemma PruneAgainstDiscoveredNames<T>(ns: seq<Node<T>>, n: Node<T>)
    ensures n in Prune(ns, Names(ns)) <==> n in ns && forall d :: d in n.deps ==> d in Names(ns)
  {
    var r := Prune(ns, Names(ns));
    if n in r {
      var i :| 0 <= i < |r| && r[i] == n;
    }
    if n in ns && DepsPresent(n, Names(ns)) {
      var i :| 0 <= i < |ns| && ns[i] == n;
    }
  }

  /** A module is placed by its turn of the pass exactly when all its hard
      dependencies are already placed; its soft dependencies play no part. */
  lemma StepPlacesIffHardDepsPlaced<T>(lm: LinkedMap<T>, n: Node<T>, soft: seq<string>)
    requires WellFormed(lm) && n.name !in lm.vals
    ensures n.name in Step(lm, n).vals <==> forall d :: d in n.deps ==> d in lm.vals
    ensures Step(lm, n.(soft := soft)).vals.Keys == Step(lm, n).vals.Keys
  {
    var m := n.(soft := soft);
    forall d | d in n.deps ensures d in Outstanding(n, lm) <==> d !in lm.vals { }
    forall d | d in m.deps ensures d in Outstanding(m, lm) <==> d !in lm.vals { }
  }

  /** The sorted list holds only discovered modules, each name at most once,
      and is never longer than the discovered list. */
  lemma SortShrinks<T>(ns: seq<Node<T>>)
    ensures |Sort(ns)| <= |ns|
    ensures forall n :: n in Sort(ns) ==> n in ns
    ensures Distinct(Names(Sort(ns)))
  {
    var pruned := Prune(ns, Names(ns));
    var seed := Seed(pruned);
    var rs := Remaining(pruned, seed);
    var p := Pass(rs, seed);
    var out := Values(p);
    forall n | n in out ensures n in ns {
      var i :| 0 <= i < |out| && out[i] == n;
      assert p.keys[i] in p.vals;
      if n in rs {
        var j :| 0 <= j < |rs| && rs[j] == n;
      }
      assert n in pruned;
      var j :| 0 <= j < |pruned| && pruned[j] == n;
    }
    forall i, j | 0 <= i < j < |out| ensures out[i].name != out[j].name {
      assert p.keys[i] in p.vals && p.keys[j] in p.vals;
    }
    DistinctNamesDistinct(out);
    DistinctLengthBound(out, ns);
  }

  lemma DistinctNamesDistinct<T>(ns: seq<Node<T>>)
    requires Distinct(Names(ns))
    ensures Distinct(ns)
  {
    forall i, j | 0 <= i < j < |ns| ensures ns[i] != ns[j] {
      assert Names(ns)[i] != Names(ns)[j];
    }
  }

  /** Distinct modules stay distinct: the sorted list never holds a module twice. */
  lemma SortKeepsItemsDistinct<T>(ns: seq<Node<T>>)
    requires Distinct(Items(ns))
    ensures Distinct(Items(Sort(ns)))
  {
    var out := Sort(ns);
    SortShrinks(ns);
    forall i, j | 0 <= i < j < |out| ensures out[i].item != out[j].item {
      assert Names(out)[i] != Names(out)[j];
      assert out[i] in ns && out[j] in ns;
      var a :| 0 <= a < |ns| && ns[a] == out[i];
      var b :| 0 <= b < |ns| && ns[b] == out[j];
      assert a != b;
      assert Items(ns)[a] != Items(ns)[b];
    }
  }

  // ------------------------------------------------------------ order

  /** Every placed module's hard dependencies are keys placed before it. */
  predicate Ordered<T>(lm: LinkedMap<T>) {
    WellFormed(lm) &&
    forall i :: 0 <= i < |lm.keys| ==>
      forall d :: d in lm.vals[lm.keys[i]].deps ==> d in lm.keys[..i]
  }

  /** With names that are new and distinct, the pass only appends: the map it
      starts from stays a prefix, and order is kept. */
  lemma {:induction false} PassAppends<T>(rs: seq<Node<T>>, lm: LinkedMap<T>)
    requires Ordered(lm)
    requires Distinct(Names(rs))
    requires forall i :: 0 <= i < |rs| ==> rs[i].name !in lm.vals
    ensures Ordered(Pass(rs, lm))
    ensures |lm.keys| <= |Pass(rs, lm).keys| && Pass(rs, lm).keys[..|lm.keys|] == lm.keys
    ensures forall k :: k in lm.vals ==> Pass(rs, lm).vals[k] == lm.vals[k]
    ensures forall k :: k in Pass(rs, lm).vals ==> k in lm.vals || k in Names(rs)
  {
    if rs != [] {
      var init, n := rs[..|rs| - 1], rs[|rs| - 1];
      assert rs == init + [n];
      assert Names(init) == Names(rs)[..|rs| - 1];
      PassAppends(init, lm);
      var p := Pass(init, lm);
      LastNotPlaced(rs, lm, p);
      if Admissible(n, p) {
        forall d | d in n.deps ensures d in p.vals {
          assert d in Outstanding(n, p) <==> d !in p.vals;
        }
        PutNewKeepsOrder(p, n);
        assert Put(p, n.name, n).keys[..|lm.keys|] == p.keys[..|lm.keys|];
      }
    }
  }

  /** The last of distinct new names is not among those the earlier ones placed. */
  lemma LastNotPlaced<T>(rs: seq<Node<T>>, lm: LinkedMap<T>, p: LinkedMap<T>)
    requires rs != [] && Distinct(Names(rs)) && rs[|rs| - 1].name !in lm.vals
    requires forall k :: k in p.vals ==> k in lm.vals || k in Names(rs[..|rs| - 1])
    ensures rs[|rs| - 1].name !in p.vals
  {
    var init := rs[..|rs| - 1];
    assert Names(init) == Names(rs)[..|rs| - 1];
    forall j | 0 <= j < |init| ensures Names(init)[j] != rs[|rs| - 1].name {
      assert Names(rs)[j] != Names(rs)[|rs| - 1];
    }
  }

  /** Appending a module whose hard dependencies are all placed keeps the order. */
  lemma PutNewKeepsOrder<T>(p: LinkedMap<T>, n: Node<T>)
    requires Ordered(p) && n.name !in p.vals
    requires forall d :: d in n.deps ==> d in p.vals
    ensures Ordered(Put(p, n.name, n))
  {
    var q := Put(p, n.name, n);
    forall i | 0 <= i < |q.keys| ensures forall d :: d in q.vals[q.keys[i]].deps ==> d in q.keys[..i] {
      if i < |p.keys| {
        assert q.keys[..i] == p.keys[..i];
        assert q.keys[i] == p.keys[i];
        assert p.keys[i] in p.vals;
      } else {
        assert q.keys[..i] == p.keys;
      }
    }
  }

  lemma {:induction false} SeedOrdered<T>(ns: seq<Node<T>>)
    ensures Ordered(Seed(ns))
  {
    var lm := Seed(ns);
    forall i | 0 <= i < |lm.keys| ensures lm.vals[lm.keys[i]].deps == [] {
      assert Leaf(lm.vals[lm.keys[i]]);
    }
  }

  /** Remaining modules carry names the seed does not hold, distinct when all
      discovered names are. */
  lemma RemainingFresh<T>(ns: seq<Node<T>>, lm: LinkedMap<T>)
    requires Distinct(Names(ns))
    ensures Distinct(Names(Remaining(ns, lm)))
    ensures forall i :: 0 <= i < |Remaining(ns, lm)| ==> Remaining(ns, lm)[i].name !in lm.vals
  {
    FilterNamesDistinct(ns, (n: Node<T>) => n.name !in lm.vals);
  }

  lemma {:induction false} FilterNamesDistinct<T>(ns: seq<Node<T>>, p: Node<T> -> bool)
    requires Distinct(Names(ns))
    ensures Distinct(Names(Filter(ns, p)))
  {
    if ns != [] {
      var init, n := ns[..|ns| - 1], ns[|ns| - 1];
      assert ns == init + [n];
      assert Names(init) == Names(ns)[..|ns| - 1];
      FilterNamesDistinct(init, p);
      var f := Filter(init, p);
      if p(n) {
        var r := Filter(ns, p);
        assert r == f + [n];
        forall i, j | 0 <= i < j < |r| ensures r[i].name != r[j].name {
          if j == |f| {
            assert r[i] == f[i] && f[i] in init;
            var k :| 0 <= k < |init| && init[k] == f[i];
            assert Names(ns)[k] != Names(ns)[|ns| - 1];
          } else {
            assert Names(f)[i] != Names(f)[j];
          }
        }
      }
    }
  }

  /** With unique names, every module in the sorted list has each of its hard
      dependencies at an earlier position of that list. */
  lemma HardDepsPrecede<T>(ns: seq<Node<T>>, i: nat, d: string)
    requires Distinct(Names(ns))
    requires i < |Sort(ns)| && d in Sort(ns)[i].deps
    ensures exists j :: 0 <= j < i && Sort(ns)[j].name == d
  {
    var pruned := Prune(ns, Names(ns));
    var seed := Seed(pruned);
    FilterNamesDistinct(ns, (n: Node<T>) => DepsPresent(n, Names(ns)));
    RemainingFresh(pruned, seed);
    SeedOrdered(pruned);
    var rs := Remaining(pruned, seed);
    PassAppends(rs, seed);
    OrderedDepsPrecede(Pass(rs, seed), i, d);
  }

  /** In an ordered map, a hard dependency of the i-th value names an earlier value. */
  lemma OrderedDepsPrecede<T>(p: LinkedMap<T>, i: nat, d: string)
    requires Ordered(p) && Keyed(p)
    requires i < |p.keys| && d in p.vals[p.keys[i]].deps
    ensures exists j :: 0 <= j < i && Values(p)[j].name == d
  {
    assert d in p.keys[..i];
    var j :| 0 <= j < i && p.keys[..i][j] == d;
    assert p.keys[j] in p.vals;
    assert Values(p)[j].name == d;
  }

  /** With unique names, the modules without hard and soft dependencies come
      first, in discovery order. */
  lemma LeavesFirst<T>(ns: seq<Node<T>>)
    requires Distinct(Names(ns))
    ensures |Leaves(ns)| <= |Sort(ns)|
    ensures Sort(ns)[..|Leaves(ns)|] == Leaves(ns)
  {
    var pruned := Prune(ns, Names(ns));
    var seed := Seed(pruned);
    FilterNamesDistinct(ns, (n: Node<T>) => DepsPresent(n, Names(ns)));
    RemainingFresh(pruned, seed);
    SeedOrdered(pruned);
    PassKeepsValues(Remaining(pruned, seed), seed);
    SeedValues(pruned);
    LeavesSurvivePruning(ns, Names(ns));
  }

  /** A pass over new, distinct names keeps the values the map already had,
      in front. */
  lemma PassKeepsValues<T>(rs: seq<Node<T>>, lm: LinkedMap<T>)
    requires Ordered(lm) && Distinct(Names(rs))
    requires forall i :: 0 <= i < |rs| ==> rs[i].name !in lm.vals
    ensures |Values(lm)| <= |Values(Pass(rs, lm))|
    ensures Values(Pass(rs, lm))[..|Values(lm)|] == Values(lm)
  {
    PassAppends(rs, lm);
    var p := Pass(rs, lm);
    forall i | 0 <= i < |lm.keys| ensures Values(p)[i] == Values(lm)[i] {
      assert p.keys[i] == p.keys[..|lm.keys|][i];
      assert lm.keys[i] in lm.vals;
    }
  }

  /** With unique names, the seed holds the dependency-free modules in order. */
  lemma {:induction false} SeedValues<T>(ns: seq<Node<T>>)
    requires Distinct(Names(ns))
    ensures Values(Seed(ns)) == Leaves(ns)
  {
    if ns != [] {
      var init, n := ns[..|ns| - 1], ns[|ns| - 1];
      assert ns == init + [n];
      assert Names(init) == Names(ns)[..|ns| - 1];
      SeedValues(init);
      FilterSnoc(init, n, (n: Node<T>) => Leaf(n));
      SeedStep(ns);
    }
  }

  /** One more module extends the seed's values by itself exactly when it is a leaf. */
  lemma SeedStep<T>(ns: seq<Node<T>>)
    requires ns != [] && Distinct(Names(ns))
    ensures Values(Seed(ns)) == Values(Seed(ns[..|ns| - 1])) + (if Leaf(ns[|ns| - 1]) then [ns[|ns| - 1]] else [])
  {
    var init, n := ns[..|ns| - 1], ns[|ns| - 1];
    var p := Seed(init);
    assert Seed(ns) == if Leaf(n) then Put(p, n.name, n) else p;
    if Leaf(n) {
      LastNotSeeded(ns);
      PutFreshValues(p, n.name, n);
    }
  }

  /** With unique names, the last module's name is not yet a key of the seed
      of the modules before it. */
  lemma LastNotSeeded<T>(ns: seq<Node<T>>)
    requires ns != [] && Distinct(Names(ns))
    ensures ns[|ns| - 1].name !in Seed(ns[..|ns| - 1]).vals
  {
    var init, names := ns[..|ns| - 1], Names(ns);
    forall j | 0 <= j < |init| ensures init[j].name != ns[|ns| - 1].name {
      assert names[j] != names[|ns| - 1];
    }
  }

  /** Putting a new key appends its value to `values()`. */
  lemma PutFreshValues<T>(lm: LinkedMap<T>, k: string, v: Node<T>)
    requires WellFormed(lm) && k !in lm.vals
    ensures Values(Put(lm, k, v)) == Values(lm) + [v]
  {
    var q := Put(lm, k, v);
    forall i | 0 <= i < |lm.keys| ensures Values(q)[i] == Values(lm)[i] {
      assert lm.keys[i] in lm.vals;
      assert q.keys[i] == lm.keys[i];
    }
  }

  lemma {:induction false} LeavesSurvivePruning<T>(ns: seq<Node<T>>, names: seq<string>)
    ensures Leaves(Prune(ns, names)) == Leaves(ns)
  {
    if ns != [] {
      var init, n := ns[..|ns| - 1], ns[|ns| - 1];
      assert ns == init + [n];
      LeavesSurvivePruning(init, names);
      var pi := Prune(init, names);
      FilterSnoc(init, n, (n: Node<T>) => DepsPresent(n, names));
      FilterSnoc(init, n, (n: Node<T>) => Leaf(n));
      assert Leaves(ns) == Leaves(init) + (if Leaf(n) then [n] else []);
      if Leaf(n) {
        assert Prune(ns, names) == pi + [n];
        FilterSnoc(pi, n, (n: Node<T>) => Leaf(n));
      } else if DepsPresent(n, names) {
        assert Prune(ns, names) == pi + [n];
        FilterSnoc(pi, n, (n: Node<T>) => Leaf(n));
      } else {
        assert Prune(ns, names) == pi;
      }
    }
  }

  // ------------------------------------------------------------ the loss

  function ChainExample(): seq<Node<int>> {
    [Node(1, "A", ["B"], []), Node(2, "B", ["C"], []), Node(3, "C", [], [])]
  }

  /** Discovered in the order A, B, C with A depending on B and B on C, all
      dependencies exist, yet A is dropped: the single pass meets A before B
      is placed. */
  lemma ChainLosesFirstModule()
    ensures Items(Sort(ChainExample())) == [3, 2]
  {
    ChainSorted();
    ItemsOfPair(ChainExample()[2], ChainExample()[1]);
  }

  lemma ItemsOfPair<T>(a: Node<T>, b: Node<T>)
    ensures Items([a, b]) == [a.item, b.item]
  {
  }

  lemma ChainSorted()
    ensures Sort(ChainExample()) == [ChainExample()[2], ChainExample()[1]]
  {
    var ns := ChainExample();
    ChainPrune();
    ChainSeedOf();
    ChainRemaining();
    ChainPass();
  }

  function ChainSeed(): LinkedMap<int> {
    LinkedMap(["C"], map["C" := ChainExample()[2]])
  }

  lemma ChainRemaining()
    ensures Remaining(ChainExample(), ChainSeed()) == [ChainExample()[0], ChainExample()[1]]
  {
    var ns := ChainExample();
    var a, b, c := ns[0], ns[1], ns[2];
    var seed := ChainSeed();
    FilterSnoc([], a, (n: Node<int>) => n.name !in seed.vals);
    FilterSnoc([a], b, (n: Node<int>) => n.name !in seed.vals);
    FilterSnoc([a, b], c, (n: Node<int>) => n.name !in seed.vals);
    assert [a] + [b] == [a, b] && [a, b] + [c] == ns && [] + [a] == [a];
  }

  lemma ChainPass()
    ensures WellFormed(ChainSeed())
    ensures Values(Pass([ChainExample()[0], ChainExample()[1]], ChainSeed())) == [ChainExample()[2], ChainExample()[1]]
  {
    var ns := ChainExample();
    var a, b, c := ns[0], ns[1], ns[2];
    var seed := ChainSeed();
    assert WellFormed(seed);
    ChainFirstTurn();
    assert Admissible(b, seed);
    var p := Put(seed, "B", b);
    assert p == LinkedMap(["C", "B"], map["C" := c, "B" := b]);
    assert [a, b][..1] == [a];
    assert Pass([a, b], seed) == p;
    assert Values(p) == [c, b];
  }

  lemma ChainFirstTurn()
    ensures WellFormed(ChainSeed())
    ensures Pass([ChainExample()[0]], ChainSeed()) == ChainSeed()
  {
    var a := ChainExample()[0];
    var seed := ChainSeed();
    assert WellFormed(seed);
    assert "B" in Outstanding(a, seed);
    assert !Admissible(a, seed);
    assert [a][..0] == [];
  }

  lemma ChainPrune()
    ensures Prune(ChainExample(), Names(ChainExample())) == ChainExample()
  {
    var ns := ChainExample();
    var a, b, c := ns[0], ns[1], ns[2];
    var names := Names(ns);
    assert names == ["A", "B", "C"];
    assert [a] + [b] == [a, b] && [a, b] + [c] == ns && [] + [a] == [a];
    FilterSnoc([], a, (n: Node<int>) => DepsPresent(n, names));
    FilterSnoc([a], b, (n: Node<int>) => DepsPresent(n, names));
    FilterSnoc([a, b], c, (n: Node<int>) => DepsPresent(n, names));
  }

  lemma ChainSeedOf()
    ensures Seed(ChainExample()) == ChainSeed()
  {
    var ns := ChainExample();
    var a, b := ns[0], ns[1];
    assert ns[..2] == [a, b] && [a, b][..1] == [a] && [a][..0] == [];
    assert Seed([a]) == EmptyMap();
    assert Seed([a, b]) == EmptyMap();
  }
}
