/**
 What the override merge promises: when it fails (exactly when some mapping
 entry holds an overridden placeholder but its own name has no override),
 that it never changes the document's shape, that an empty override map
 changes nothing, and the per-entry substitution rules in mappings and
 sequences.
 */
module MergeProperties {
  import opened Results
  import opened ConfigTree
  import opened Placeholder
  import opened TreeMerge

  /** The document with every scalar blanked: names, nesting and lengths only. */
  function Skeleton(t: Tree): Tree
    decreases t, 1
  {
    match t
    case Map(es) => Map(SkeletonEntries(es))
    case Seq(xs) => Seq(SkeletonItems(xs))
    case Leaf(_) => Leaf(Null)
  }

  function SkeletonEntries(es: seq<Entry>): seq<Entry>
    decreases es, 0
  {
    if |es| == 0 then [] else [Entry(es[0].key, Skeleton(es[0].value))] + SkeletonEntries(es[1..])
  }

  function SkeletonItems(xs: seq<Tree>): seq<Tree>
    decreases xs, 0
  {
    if |xs| == 0 then [] else [Skeleton(xs[0])] + SkeletonItems(xs[1..])
  }

  /**
   Independent statement of the failure condition: somewhere in the tree a
   mapping entry holds a scalar placeholder `<k>` with `k` overridden while
   the entry's own name is not overridden.
   */
  predicate Broken(t: Tree, extra: map<string, string>)
    decreases t, 1
  {
    match t
    case Map(es) => exists i :: 0 <= i < |es| && BrokenEntry(es[i], extra)
    case Seq(xs) => exists i :: 0 <= i < |xs| && Broken(xs[i], extra)
    case Leaf(_) => false
  }

  predicate BrokenEntry(e: Entry, extra: map<string, string>)
    decreases e, 2
  {
    if IsContainer(e.value) then Broken(e.value, extra)
    else e.key !in extra && IsPlaceholderLeaf(e.value, extra)
  }

  // ---------------------------------------------------------------------------
  // Failure

  /** The merge fails exactly on a broken placeholder, and the failure is a missing override. */
  lemma {:induction false} MergeFailsIffBroken(t: Tree, extra: map<string, string>)
    ensures MergeTree(t, extra).Err? <==> Broken(t, extra)
    ensures MergeTree(t, extra).Err? ==> MergeTree(t, extra).error.MissingOverride?
    decreases t, 1
  {
    match t
    case Map(es) => EntriesFailIffBroken(es, extra);
    case Seq(xs) => ItemsFailIffBroken(xs, extra);
    case Leaf(_) =>
  }

  lemma {:induction false} EntriesFailIffBroken(es: seq<Entry>, extra: map<string, string>)
    ensures MergeEntries(es, extra).Err? <==> exists i :: 0 <= i < |es| && BrokenEntry(es[i], extra)
    ensures MergeEntries(es, extra).Err? ==> MergeEntries(es, extra).error.MissingOverride?
    decreases es, 0
  {
    if |es| > 0 {
      EntryFailsIffBroken(es[0], extra);
      EntriesFailIffBroken(es[1..], extra);
      if exists i :: 0 <= i < |es| && BrokenEntry(es[i], extra) {
        var i :| 0 <= i < |es| && BrokenEntry(es[i], extra);
        if i > 0 {
          assert es[1..][i - 1] == es[i];
        }
      }
      if exists i :: 0 <= i < |es[1..]| && BrokenEntry(es[1..][i], extra) {
        var i :| 0 <= i < |es[1..]| && BrokenEntry(es[1..][i], extra);
        assert es[i + 1] == es[1..][i];
      }
    }
  }

  lemma {:induction false} EntryFailsIffBroken(e: Entry, extra: map<string, string>)
    ensures MergeEntry(e, extra).Err? <==> BrokenEntry(e, extra)
    ensures MergeEntry(e, extra).Err? ==> MergeEntry(e, extra).error.MissingOverride?
    decreases e, 2
  {
    if IsContainer(e.value) {
      MergeFailsIffBroken(e.value, extra);
    }
  }

  lemma {:induction false} ItemsFailIffBroken(xs: seq<Tree>, extra: map<string, string>)
    ensures MergeItems(xs, extra).Err? <==> exists i :: 0 <= i < |xs| && Broken(xs[i], extra)
    ensures MergeItems(xs, extra).Err? ==> MergeItems(xs, extra).error.MissingOverride?
    decreases xs, 0
  {
    if |xs| > 0 {
      ItemFailsIffBroken(xs[0], extra);
      ItemsFailIffBroken(xs[1..], extra);
      if exists i :: 0 <= i < |xs| && Broken(xs[i], extra) {
        var i :| 0 <= i < |xs| && Broken(xs[i], extra);
        if i > 0 {
          assert xs[1..][i - 1] == xs[i];
        }
      }
      if exists i :: 0 <= i < |xs[1..]| && Broken(xs[1..][i], extra) {
        var i :| 0 <= i < |xs[1..]| && Broken(xs[1..][i], extra);
        assert xs[i + 1] == xs[1..][i];
      }
    }
  }

  lemma {:induction false} ItemFailsIffBroken(x: Tree, extra: map<string, string>)
    ensures MergeItem(x, extra).Err? <==> Broken(x, extra)
    ensures MergeItem(x, extra).Err? ==> MergeItem(x, extra).error.MissingOverride?
    decreases x, 2
  {
    if IsContainer(x) {
      MergeFailsIffBroken(x, extra);
    }
  }

  // ---------------------------------------------------------------------------
  // Pointwise reading of the walk

  /** A successful walk over entries is the entry rule applied at every index. */
  lemma {:induction false} EntriesPointwise(es: seq<Entry>, extra: map<string, string>)
    requires MergeEntries(es, extra).Ok?
    ensures |MergeEntries(es, extra).value| == |es|
    ensures forall i :: 0 <= i < |es| ==> MergeEntry(es[i], extra) == Ok(MergeEntries(es, extra).value[i])
  {
    if |es| > 0 {
      EntriesPointwise(es[1..], extra);
      var r := MergeEntries(es, extra).value;
      assert r == [MergeEntry(es[0], extra).value] + MergeEntries(es[1..], extra).value;
      forall i | 1 <= i < |es| ensures MergeEntry(es[i], extra) == Ok(r[i]) {
        assert es[i] == es[1..][i - 1];
      }
    }
  }

  /** A successful walk over a sequence is the element rule applied at every index. */
  lemma {:induction false} ItemsPointwise(xs: seq<Tree>, extra: map<string, string>)
    requires MergeItems(xs, extra).Ok?
    ensures |MergeItems(xs, extra).value| == |xs|
    ensures forall i :: 0 <= i < |xs| ==> MergeItem(xs[i], extra) == Ok(MergeItems(xs, extra).value[i])
  {
    if |xs| > 0 {
      ItemsPointwise(xs[1..], extra);
      var r := MergeItems(xs, extra).value;
      assert r == [MergeItem(xs[0], extra).value] + MergeItems(xs[1..], extra).value;
      forall i | 1 <= i < |xs| ensures MergeItem(xs[i], extra) == Ok(r[i]) {
        assert xs[i] == xs[1..][i - 1];
      }
    }
  }

  // ---------------------------------------------------------------------------
  // Substitution rules

  /**
   In a mapping, every entry keeps its name and position. A container value
   is only walked into. A scalar whose name is overridden becomes that
   override, whatever it held before (a number, a placeholder, ...). Any
   other scalar is kept: the only placeholder that could have changed it
   makes the whole merge fail instead.
   */
  lemma MergeMappingRules(es: seq<Entry>, extra: map<string, string>)
    requires MergeTree(Map(es), extra).Ok?
    ensures MergeTree(Map(es), extra).value.Map?
    ensures var es' := MergeTree(Map(es), extra).value.entries;
      && |es'| == |es|
      && (forall i :: 0 <= i < |es| ==> es'[i].key == es[i].key)
      && (forall i :: 0 <= i < |es| && IsContainer(es[i].value) ==>
            MergeTree(es[i].value, extra) == Ok(es'[i].value))
      && (forall i :: 0 <= i < |es| && !IsContainer(es[i].value) && es[i].key in extra ==>
            es'[i].value == Leaf(Str(extra[es[i].key])))
      && (forall i :: 0 <= i < |es| && !IsContainer(es[i].value) && es[i].key !in extra ==>
            es'[i].value == es[i].value)
  {
    EntriesPointwise(es, extra);
  }

  /**
   In a mapping, a scalar placeholder `<k>` with `k` overridden is rewritten
   with the override of the entry's OWN name: when that name has no
   override, the merge fails on it.
   */
  lemma MergeMappingPlaceholder(es: seq<Entry>, extra: map<string, string>, i: int)
    requires 0 <= i < |es| && IsPlaceholderLeaf(es[i].value, extra)
    ensures es[i].key !in extra ==> MergeTree(Map(es), extra).Err?
    ensures es[i].key in extra && MergeTree(Map(es), extra).Ok? ==>
      var es' := MergeTree(Map(es), extra).value.entries;
      |es'| == |es| && es'[i].value == Leaf(Str(extra[es[i].key]))
  {
    MergeFailsIffBroken(Map(es), extra);
    assert BrokenEntry(es[i], extra) <==> es[i].key !in extra;
    if MergeTree(Map(es), extra).Ok? {
      MergeMappingRules(es, extra);
    }
  }

  /**
   In a sequence there is no name to match: a scalar placeholder `<k>` with
   `k` overridden becomes `extra[k]` and is not looked at again (even if
   `extra[k]` is itself a placeholder); every other scalar is kept and
   containers are walked into.
   */
  lemma MergeSequenceRules(xs: seq<Tree>, extra: map<string, string>)
    requires MergeTree(Seq(xs), extra).Ok?
    ensures MergeTree(Seq(xs), extra).value.Seq?
    ensures var ys := MergeTree(Seq(xs), extra).value.items;
      && |ys| == |xs|
      && (forall i :: 0 <= i < |xs| && IsContainer(xs[i]) ==> MergeTree(xs[i], extra) == Ok(ys[i]))
      && (forall i :: 0 <= i < |xs| && IsPlaceholderLeaf(xs[i], extra) ==>
            ys[i] == Leaf(Str(extra[Name(xs[i].scalar.s)])))
      && (forall i :: 0 <= i < |xs| && !IsContainer(xs[i]) && !IsPlaceholderLeaf(xs[i], extra) ==>
            ys[i] == xs[i])
  {
    ItemsPointwise(xs, extra);
  }

  /** Sequences never fail by themselves: a sequence of scalars always merges. */
  lemma ScalarSequenceNeverFails(xs: seq<Tree>, extra: map<string, string>)
    requires forall i :: 0 <= i < |xs| ==> xs[i].Leaf?
    ensures MergeTree(Seq(xs), extra).Ok?
  {
    ItemsFailIffBroken(xs, extra);
  }

  /** Looking a name up after a successful merge gives the entry rule's result for the entry found before. */
  lemma {:induction false} FindAfterMerge(es: seq<Entry>, extra: map<string, string>, k: string)
    requires MergeEntries(es, extra).Ok?
    ensures Find(es, k).None? ==> Find(MergeEntries(es, extra).value, k).None?
    ensures Find(es, k).Some? ==>
      && MergeEntry(Entry(k, Find(es, k).value), extra).Ok?
      && Find(MergeEntries(es, extra).value, k) == Some(MergeEntry(Entry(k, Find(es, k).value), extra).value.value)
  {
    if |es| > 0 {
      var r := MergeEntries(es, extra).value;
      var e := MergeEntry(es[0], extra).value;
      assert r == [e] + MergeEntries(es[1..], extra).value;
      assert e.key == es[0].key;
      FindAfterMerge(es[1..], extra, k);
      assert r[1..] == MergeEntries(es[1..], extra).value;
    }
  }

  /**
   A scalar field read after a successful merge: its override when its name
   has one, otherwise its old value.
   */
  lemma MergedField(es: seq<Entry>, extra: map<string, string>, k: string)
    requires MergeTree(Map(es), extra).Ok?
    requires Find(es, k).Some? && !IsContainer(Find(es, k).value)
    ensures MergeTree(Map(es), extra).value.Map?
    ensures Find(MergeTree(Map(es), extra).value.entries, k) ==
      Some(if k in extra then Leaf(Str(extra[k])) else Find(es, k).value)
  {
    FindAfterMerge(es, extra, k);
  }

  // ---------------------------------------------------------------------------
  // Shape and identity

  /** A successful merge changes scalars only: names, nesting and lengths are kept. */
  lemma {:induction false} MergeKeepsShape(t: Tree, extra: map<string, string>)
    requires MergeTree(t, extra).Ok?
    ensures Skeleton(MergeTree(t, extra).value) == Skeleton(t)
    decreases t, 1
  {
    match t
    case Map(es) => EntriesKeepShape(es, extra);
    case Seq(xs) => ItemsKeepShape(xs, extra);
    case Leaf(_) =>
  }

  lemma {:induction false} EntriesKeepShape(es: seq<Entry>, extra: map<string, string>)
    requires MergeEntries(es, extra).Ok?
    ensures SkeletonEntries(MergeEntries(es, extra).value) == SkeletonEntries(es)
    decreases es, 0
  {
    if |es| > 0 {
      var e := MergeEntry(es[0], extra).value;
      var rest := MergeEntries(es[1..], extra).value;
      EntriesKeepShape(es[1..], extra);
      if IsContainer(es[0].value) {
        MergeKeepsShape(es[0].value, extra);
      }
      assert ([e] + rest)[1..] == rest;
    }
  }

  lemma {:induction false} ItemsKeepShape(xs: seq<Tree>, extra: map<string, string>)
    requires MergeItems(xs, extra).Ok?
    ensures SkeletonItems(MergeItems(xs, extra).value) == SkeletonItems(xs)
    decreases xs, 0
  {
    if |xs| > 0 {
      var x := MergeItem(xs[0], extra).value;
      var rest := MergeItems(xs[1..], extra).value;
      ItemsKeepShape(xs[1..], extra);
      if IsContainer(xs[0]) {
        MergeKeepsShape(xs[0], extra);
      }
      assert ([x] + rest)[1..] == rest;
    }
  }

  /** With no overrides the walk itself is the identity, so skipping it is safe. */
  lemma {:induction false} MergeWithNothingIsIdentity(t: Tree)
    ensures MergeTree(t, map[]) == Ok(t)
    decreases t, 1
  {
    match t
    case Map(es) => EntriesWithNothing(es);
    case Seq(xs) => ItemsWithNothing(xs);
    case Leaf(_) =>
  }

  lemma {:induction false} EntriesWithNothing(es: seq<Entry>)
    ensures MergeEntries(es, map[]) == Ok(es)
    decreases es, 0
  {
    if |es| > 0 {
      if IsContainer(es[0].value) {
        MergeWithNothingIsIdentity(es[0].value);
      }
      EntriesWithNothing(es[1..]);
      assert [es[0]] + es[1..] == es;
    }
  }

  lemma {:induction false} ItemsWithNothing(xs: seq<Tree>)
    ensures MergeItems(xs, map[]) == Ok(xs)
    decreases xs, 0
  {
    if |xs| > 0 {
      if IsContainer(xs[0]) {
        MergeWithNothingIsIdentity(xs[0]);
      }
      ItemsWithNothing(xs[1..]);
      assert [xs[0]] + xs[1..] == xs;
    }
  }

  /** The override pass with an empty map returns the document unchanged. */
  lemma MergeEmptyIsIdentity(t: Tree, extra: map<string, string>)
    requires |extra| == 0
    ensures Merge(t, extra) == Ok(t)
  {
  }

  /** A scalar document root is never rewritten. */
  lemma MergeScalarRoot(s: Scalar, extra: map<string, string>)
    ensures Merge(Leaf(s), extra) == Ok(Leaf(s))
  {
  }
}
