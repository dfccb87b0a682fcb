/**
  `deep_merge_dicts` as it runs: the destination and the dictionaries inside it are objects that are
  updated in place, while the source is only read.
 */
module InPlaceMerge {
  import opened Results
  import opened ConfigMerge

  datatype Node = Leaf(value: Json) | Sub(dict: Dict)

  class Dict {
    var entries: map<string, Node>
    ghost var Repr: set<Dict>

    /** The dictionary is a tree: no dictionary is inside it twice. */
    ghost predicate Valid()
      reads this, Repr
      decreases Repr
    {
      && this in Repr
      && (forall k :: k in entries && entries[k].Leaf? ==> !entries[k].value.Obj?)
      && (forall k :: k in entries && entries[k].Sub? ==>
            && entries[k].dict in Repr && entries[k].dict.Repr <= Repr && this !in entries[k].dict.Repr
            && entries[k].dict.Valid())
      && (forall k, m :: k in entries && m in entries && k != m && entries[k].Sub? && entries[m].Sub? ==>
            entries[k].dict.Repr !! entries[m].dict.Repr)
    }

    ghost function View(): (j: Json)
      requires Valid()
      reads this, Repr
      ensures j.Obj? && j.entries.Keys == entries.Keys
      decreases Repr
    {
      Obj(map k | k in entries :: match entries[k] case Leaf(value) => value case Sub(dict) => dict.View())
    }

    constructor ()
      ensures Valid() && fresh(Repr) && entries == map[] && View() == EMPTY && Repr == {this}
    {
      entries, Repr := map[], {this};
    }

    method Store(k: string, value: Json)
      requires Valid() && !value.Obj?
      modifies this
      ensures Valid() && Repr == old(Repr) && View() == Obj(old(View()).entries[k := value])
    {
      ghost var was := View().entries;
      entries := entries[k := Leaf(value)];
      ViewWith(this, was, k, value);
    }

    /** Puts a dictionary of its own at an unused key. */
    method Insert(k: string, d: Dict)
      requires Valid() && d.Valid() && k !in entries && d.Repr !! Repr
      modifies this
      ensures Valid() && Repr == old(Repr) + d.Repr && entries == old(entries)[k := Sub(d)]
      ensures d.Valid() && d.View() == old(d.View()) && d.Repr == old(d.Repr)
      ensures View() == Obj(old(View()).entries[k := d.View()])
    {
      ghost var was, reprs := View().entries, Reprs(this);
      entries, Repr := entries[k := Sub(d)], Repr + d.Repr;
      forall m | m in was
        ensures IsKept(this, m, was, reprs, d)
      {
      }
      OnlyOneChanged(this, k, d, was, reprs);
    }

    /** The dictionary at `k`, a new one if there is nothing; nothing if there is a value. */
    method SetDefault(k: string) returns (node: Option<Dict>)
      requires Valid()
      modifies this
      ensures Valid() && fresh(Repr - old(Repr))
      ensures node.None? ==> k in entries && entries[k].Leaf? && View() == old(View())
      ensures node.Some? ==>
        && k in entries && entries[k] == Sub(node.value) && View() == Obj(old(View()).entries[k := node.value.View()])
        && node.value.View() == ChildOrEmpty(old(View()), k)
    {
      if k !in entries {
        var d := new Dict();
        Insert(k, d);
        return Some(d);
      }
      match entries[k]
      case Leaf(_) => node := None;
      case Sub(d) =>
        node := Some(d);
        ViewWith(this, View().entries, k, d.View());
    }
  }

  ghost function ViewOf(n: Node): Json
    requires n.Sub? ==> n.dict.Valid()
    reads if n.Sub? then {n.dict} + n.dict.Repr else {}
  {
    match n case Leaf(value) => value case Sub(dict) => dict.View()
  }

  lemma ViewWith(d: Dict, was: map<string, Json>, k: string, view: Json)
    requires d.Valid() && k in d.entries && ViewOf(d.entries[k]) == view
    requires d.entries.Keys == was.Keys + {k}
    requires forall m :: m in was && m != k ==> ViewOf(d.entries[m]) == was[m]
    ensures d.View() == Obj(was[k := view])
  {
    var now := d.View().entries;
    forall m | m in d.entries
      ensures now[m] == was[k := view][m]
    {
      assert now[m] == ViewOf(d.entries[m]);
    }
    assert now == was[k := view];
  }

  // ---------- Failed merges ----------

  /**
    A merge failed at the entry `k` of `source`, whose value is `value`: `was` became `now`. Either a value
    stands in the way and nothing changed, or the merge into the dictionary at `k` failed further down.
   */
  ghost predicate FailsAt(value: Json, was: Json, now: Json, k: string, nulls: bool)
    requires value.Obj? && was.Obj?
    decreases value, 2
  {
    var below := ChildOrEmpty(was, k);
    if below.Obj? then
      now.Obj? && k in now.entries && Interrupted(value, below, now.entries[k], nulls)
      && now == Obj(was.entries[k := now.entries[k]])
    else
      now == was && exists m :: Stores(value, m, nulls)
  }

  /** The merge of `source` into `before` got through the entries `done` and failed at `k`. */
  ghost predicate StopsAt(source: Json, before: Json, after: Json, done: set<string>, k: string, nulls: bool)
    requires source.Obj? && before.Obj?
    decreases source, 0
  {
    && k in source.entries && k !in done && done <= source.entries.Keys && source.entries[k].Obj?
    && FailsAt(source.entries[k], Obj(MergeSome(source, before, done, nulls)), after, k, nulls)
  }

  /** What a failed merge leaves in the destination. */
  ghost predicate Interrupted(source: Json, before: Json, after: Json, nulls: bool)
    requires source.Obj? && before.Obj?
    decreases source, 1
  {
    exists done, k :: StopsAt(source, before, after, done, k, nulls)
  }

  /**
    A merge that stopped halfway had to fail, and leaves a mixture: what the source does not mention is
    untouched, and every value it sets is the one before or the one of the source.
   */
  lemma {:induction false} InterruptedMixes(source: Json, before: Json, after: Json, nulls: bool)
    requires source.Obj? && before.Obj? && Interrupted(source, before, after, nulls)
    ensures Raises(source, before, nulls) && after.Obj?
    ensures forall k :: k !in source.entries ==> Child(after, k) == Child(before, k)
    ensures forall k :: k in source.entries && !source.entries[k].Obj? ==>
      Child(after, k) == Child(before, k) || Child(after, k) == Some(source.entries[k])
    decreases source
  {
    var done, k :| StopsAt(source, before, after, done, k, nulls);
    var value, was := source.entries[k], Obj(MergeSome(source, before, done, nulls));
    assert FailsAt(value, was, after, k, nulls);
    MergeOneMore(source, before, done, k, nulls);
    var below := ChildOrEmpty(was, k);
    assert below == ChildOrEmpty(before, k);
    if below.Obj? {
      InterruptedMixes(value, below, after.entries[k], nulls);
    }
    assert Raises(value, below, nulls);
    MergedSome(source, before, done, k, after, nulls);
  }

  lemma MergedSome(source: Json, before: Json, done: set<string>, k: string, after: Json, nulls: bool)
    requires source.Obj? && before.Obj? && k in source.entries && source.entries[k].Obj? && after.Obj?
    requires var was := MergeSome(source, before, done, nulls);
      after == Obj(was) || (k in after.entries && after == Obj(was[k := after.entries[k]]))
    ensures forall m :: m !in source.entries ==> Child(after, m) == Child(before, m)
    ensures forall m :: m in source.entries && !source.entries[m].Obj? ==>
      Child(after, m) == Child(before, m) || Child(after, m) == Some(source.entries[m])
  {
  }

  /** The loop over `source` when the destination is not a dictionary: it fails on the first entry to be stored. */
  method MergeIntoValue(source: Json, nulls: bool) returns (ok: bool)
    requires source.Obj?
    ensures ok <==> forall k :: k in source.entries ==> !Stores(source, k, nulls)
  {
    var todo := source.entries.Keys;
    while todo != {}
      invariant todo <= source.entries.Keys
      invariant forall k :: k in source.entries.Keys - todo ==> !Stores(source, k, nulls)
    {
      var k :| k in todo;
      if nulls || source.entries[k] != Null {
        return false;
      }
      todo := todo - {k};
    }
    ok := true;
  }

  /** The loop over the entries of `source`, in whatever order the dictionary holds them. */
  method DeepMergeDicts(source: Json, destination: Dict, nulls: bool) returns (ok: bool)
    requires source.Obj? && destination.Valid()
    modifies destination.Repr
    ensures destination.Valid() && fresh(destination.Repr - old(destination.Repr))
    ensures ok <==> !Raises(source, old(destination.View()), nulls)
    ensures ok ==> destination.View() == Merge(source, old(destination.View()), nulls)
    ensures !ok ==> Interrupted(source, old(destination.View()), destination.View(), nulls)
    decreases source, 2
  {
    ghost var before, done := destination.View(), {};
    var todo := source.entries.Keys;
    NothingMergedYet(source, before, nulls);
    while todo != {}
      invariant done + todo == source.entries.Keys && done !! todo
      invariant destination.Valid() && fresh(destination.Repr - old(destination.Repr))
      invariant forall k :: k in done && source.entries[k].Obj? ==>
        !Raises(source.entries[k], ChildOrEmpty(before, k), nulls)
      invariant destination.View() == Obj(MergeSome(source, before, done, nulls))
    {
      var k :| k in todo;
      ok := MergeNext(source, k, destination, nulls, before, done);
      if !ok {
        assert StopsAt(source, before, destination.View(), done, k, nulls);
        return;
      }
      todo, done := todo - {k}, done + {k};
    }
    assert done == source.entries.Keys;
    ok := true;
  }

  /** One round of the loop, in terms of what is done by then. */
  method MergeNext(source: Json, k: string, destination: Dict, nulls: bool, ghost before: Json, ghost done: set<string>)
    returns (ok: bool)
    requires source.Obj? && k in source.entries && k !in done && destination.Valid() && before.Obj?
    requires destination.View() == Obj(MergeSome(source, before, done, nulls))
    modifies destination.Repr
    ensures destination.Valid() && fresh(destination.Repr - old(destination.Repr))
    ensures ok <==> (source.entries[k].Obj? ==> !Raises(source.entries[k], ChildOrEmpty(before, k), nulls))
    ensures ok ==> destination.View() == Obj(MergeSome(source, before, done + {k}, nulls))
    ensures !ok ==>
      && source.entries[k].Obj?
      && FailsAt(source.entries[k], Obj(MergeSome(source, before, done, nulls)), destination.View(), k, nulls)
    decreases source, 1
  {
    MergeOneMore(source, before, done, k, nulls);
    ok := MergeEntry(source, k, destination, nulls, before);
  }

  lemma NothingMergedYet(source: Json, target: Json, nulls: bool)
    requires source.Obj? && target.Obj?
    ensures Obj(MergeSome(source, target, {}, nulls)) == target
  {
    var m := MergeSome(source, target, {}, nulls);
    assert m.Keys == target.entries.Keys;
    assert m == target.entries;
  }

  /** One round of the loop; `before` is the destination as the loop found it. */
  method MergeEntry(source: Json, k: string, destination: Dict, nulls: bool, ghost before: Json) returns (ok: bool)
    requires source.Obj? && k in source.entries && destination.Valid()
    requires before.Obj? && Child(destination.View(), k) == Child(before, k)
    modifies destination.Repr
    ensures destination.Valid() && fresh(destination.Repr - old(destination.Repr))
    ensures ok <==> (source.entries[k].Obj? ==> !Raises(source.entries[k], ChildOrEmpty(before, k), nulls))
    ensures ok && Stores(source, k, nulls) ==>
      destination.View() == Obj(old(destination.View()).entries[k := Entry(source, before, k, nulls)])
    ensures ok && !Stores(source, k, nulls) ==> destination.View() == old(destination.View())
    ensures !ok ==>
      && source.entries[k].Obj?
      && FailsAt(source.entries[k], old(destination.View()), destination.View(), k, nulls)
    decreases source, 0
  {
    var value := source.entries[k];
    if value.Obj? {
      assert ChildOrEmpty(destination.View(), k) == ChildOrEmpty(before, k);
      ok := MergeDict(value, k, destination, nulls);
    } else {
      if value != Null || nulls {
        destination.Store(k, value);
      }
      ok := true;
    }
  }

  /** Merges a dictionary into what is at `k`, or into a new one. */
  method MergeDict(value: Json, k: string, destination: Dict, nulls: bool) returns (ok: bool)
    requires value.Obj? && destination.Valid()
    modifies destination.Repr
    ensures destination.Valid() && fresh(destination.Repr - old(destination.Repr))
    ensures ok <==> !Raises(value, ChildOrEmpty(old(destination.View()), k), nulls)
    ensures ok ==> destination.View() == WithMerged(old(destination.View()), k, value, nulls)
    ensures !ok ==> FailsAt(value, old(destination.View()), destination.View(), k, nulls)
    decreases value, 4
  {
    ghost var was := destination.View();
    var node := destination.SetDefault(k);
    if node.None? {
      ok := MergeIntoValue(value, nulls);
      MergedIntoValue(was, k, value, nulls);
    } else {
      ghost var below, middle := node.value.View(), destination.View();
      ok := MergeBelow(value, k, destination, node.value, nulls);
      MergedNode(was, middle, destination.View(), k, value, below, nulls, ok);
    }
  }

  /** A dictionary that is there, or new, at `k` and then merged into: both steps in one. */
  lemma MergedNode(was: Json, middle: Json, now: Json, k: string, value: Json, below: Json, nulls: bool, ok: bool)
    requires was.Obj? && value.Obj? && below.Obj? && below == ChildOrEmpty(was, k)
    requires middle == Obj(was.entries[k := below]) && now.Obj? && k in now.entries
    requires if ok then now == Obj(middle.entries[k := Merge(value, below, nulls)])
             else now == Obj(middle.entries[k := now.entries[k]]) && Interrupted(value, below, now.entries[k], nulls)
    ensures if ok then now == WithMerged(was, k, value, nulls) else FailsAt(value, was, now, k, nulls)
  {
    assert now == Obj(was.entries[k := now.entries[k]]);
  }

  ghost function WithMerged(j: Json, k: string, value: Json, nulls: bool): Json
    requires j.Obj? && value.Obj?
  {
    Obj(j.entries[k := Merge(value, ChildOrEmpty(j, k), nulls)])
  }

  lemma MergedIntoValue(j: Json, k: string, value: Json, nulls: bool)
    requires j.Obj? && value.Obj? && k in j.entries && !j.entries[k].Obj?
    ensures WithMerged(j, k, value, nulls) == j
    ensures Raises(value, ChildOrEmpty(j, k), nulls) <==> exists m :: m in value.entries && Stores(value, m, nulls)
    ensures Raises(value, ChildOrEmpty(j, k), nulls) ==> FailsAt(value, j, j, k, nulls)
  {
    assert j.entries[k := j.entries[k]] == j.entries;
  }

  /** Merges into the dictionary `node` at `k`; nothing else in the destination changes. */
  method MergeBelow(value: Json, k: string, destination: Dict, node: Dict, nulls: bool) returns (ok: bool)
    requires value.Obj? && destination.Valid() && k in destination.entries && destination.entries[k] == Sub(node)
    modifies destination.Repr
    ensures destination.Valid() && fresh(destination.Repr - old(destination.Repr))
    ensures ok <==> !Raises(value, old(node.View()), nulls)
    ensures ok ==>
      destination.View() == Obj(old(destination.View()).entries[k := Merge(value, old(node.View()), nulls)])
    ensures !ok ==>
      && k in destination.View().entries
      && Interrupted(value, old(node.View()), destination.View().entries[k], nulls)
      && destination.View() == Obj(old(destination.View()).entries[k := destination.View().entries[k]])
    decreases value, 3
  {
    ghost var was, reprs := destination.View().entries, Reprs(destination);
    ok := DeepMergeDicts(value, node, nulls);
    forall m | m in was && m != k
      ensures IsKept(destination, m, was, reprs, node)
    {
    }
    Adopt(destination, k, node, was, reprs);
  }

  /** The destination takes over the objects that `node` has grown by. */
  ghost method Adopt(d: Dict, k: string, node: Dict, was: map<string, Json>, reprs: map<string, set<Dict>>)
    requires d in d.Repr && k in d.entries && d.entries[k] == Sub(node) && d.entries.Keys == was.Keys
    requires node.Valid() && d !in node.Repr
    requires forall m :: m in was && m != k ==> IsKept(d, m, was, reprs, node)
    requires forall m, n :: m in reprs && n in reprs && m != n ==> reprs[m] !! reprs[n]
    modifies d`Repr
    ensures d.Repr == old(d.Repr) + node.Repr
    ensures d.Valid() && d.View() == Obj(was[k := old(node.View())])
  {
    d.Repr := d.Repr + node.Repr;
    forall m | m in was && m != k
      ensures IsKept(d, m, was, reprs, node)
    {
      assert old(IsKept(d, m, was, reprs, node));
    }
    OnlyOneChanged(d, k, node, was, reprs);
  }

  /** The objects that make up what is stored at each key. */
  ghost function Reprs(d: Dict): (r: map<string, set<Dict>>)
    requires d.Valid()
    reads d, d.Repr
    ensures r.Keys == d.entries.Keys
  {
    map k | k in d.entries :: if d.entries[k].Sub? then d.entries[k].dict.Repr else {}
  }

  /** What is stored at `m` is as it was, and apart from `node`. */
  ghost predicate IsKept(d: Dict, m: string, was: map<string, Json>, reprs: map<string, set<Dict>>, node: Dict)
    reads d, node, if m in d.entries && d.entries[m].Sub? then {d.entries[m].dict} + d.entries[m].dict.Repr else {}
  {
    && m in d.entries && m in was && m in reprs
    && match d.entries[m]
       case Leaf(value) => !value.Obj? && value == was[m]
       case Sub(sub) =>
         && sub in d.Repr && sub.Repr <= d.Repr && d !in sub.Repr && sub.Repr !! node.Repr
         && sub.Repr == reprs[m] && sub.Valid() && sub.View() == was[m]
  }

  lemma OnlyOneChanged(d: Dict, k: string, node: Dict, was: map<string, Json>, reprs: map<string, set<Dict>>)
    requires d in d.Repr && k in d.entries && d.entries[k] == Sub(node) && d.entries.Keys == was.Keys + {k}
    requires node.Valid() && node.Repr <= d.Repr && d !in node.Repr
    requires forall m :: m in was && m != k ==> IsKept(d, m, was, reprs, node)
    requires forall m, n :: m in reprs && n in reprs && m != n ==> reprs[m] !! reprs[n]
    ensures d.Valid() && d.View() == Obj(was[k := node.View()])
  {
    forall m | m in d.entries && m != k
      ensures d.entries[m].Leaf? ==> !d.entries[m].value.Obj?
      ensures d.entries[m].Sub? ==>
        var sub := d.entries[m].dict; sub in d.Repr && sub.Repr <= d.Repr && d !in sub.Repr && sub.Valid()
    {
      assert IsKept(d, m, was, reprs, node);
    }
    forall m, n | m in d.entries && n in d.entries && m != n && d.entries[m].Sub? && d.entries[n].Sub?
      ensures d.entries[m].dict.Repr !! d.entries[n].dict.Repr
    {
      assert m != k ==> IsKept(d, m, was, reprs, node);
      assert n != k ==> IsKept(d, n, was, reprs, node);
    }
    assert d.Valid();
    forall m | m in was && m != k
      ensures ViewOf(d.entries[m]) == was[m]
    {
      assert IsKept(d, m, was, reprs, node);
    }
    ViewWith(d, was, k, node.View());
  }
}
