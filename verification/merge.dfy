/**
 The override merge of `Config._update_config`: a depth-first walk over the
 document that rewrites scalar values from a flat override map, by direct
 name match in mappings and by `<name>` placeholders in mappings and
 sequences. The source mutates the document in place and may stop half-way
 on a lookup failure; here the walk returns a new tree or the failure.
 */
module TreeMerge {
  import opened Results
  import opened ConfigTree
  import opened Placeholder

  /** The override pass: an empty (or absent) override map leaves the document alone. */
  function Merge(t: Tree, extra: map<string, string>): (r: Result<Tree>)
  {
    if |extra| == 0 then Ok(t) else MergeTree(t, extra)
  }

  /** The walk over one node; a scalar at the root is not rewritten. */
  function MergeTree(t: Tree, extra: map<string, string>): Result<Tree>
    decreases t, 1
  {
    match t
    case Map(es) =>
      var es' :- MergeEntries(es, extra);
      Ok(Map(es'))
    case Seq(xs) =>
      var xs' :- MergeItems(xs, extra);
      Ok(Seq(xs'))
    case Leaf(_) => Ok(t)
  }

  /** The entries of a mapping, in order; the first failure stops the walk. */
  function MergeEntries(es: seq<Entry>, extra: map<string, string>): Result<seq<Entry>>
    decreases es, 0
  {
    if |es| == 0 then Ok([])
    else
      var e :- MergeEntry(es[0], extra);
      var rest :- MergeEntries(es[1..], extra);
      Ok([e] + rest)
  }

  /**
   One mapping entry. A container is only recursed into. A scalar whose name
   has an override takes it; a scalar placeholder `<k>` with `k` overridden
   is ALSO rewritten with the override of the entry's own name, so it fails
   when that name has none.
   */
  function MergeEntry(e: Entry, extra: map<string, string>): Result<Entry>
    decreases e, 2
  {
    if IsContainer(e.value) then
      var v :- MergeTree(e.value, extra);
      Ok(Entry(e.key, v))
    else if e.key in extra then Ok(Entry(e.key, Leaf(Str(extra[e.key]))))
    else if IsPlaceholderLeaf(e.value, extra) then Err(MissingOverride(e.key))
    else Ok(e)
  }

  /** The elements of a sequence, in order. */
  function MergeItems(xs: seq<Tree>, extra: map<string, string>): Result<seq<Tree>>
    decreases xs, 0
  {
    if |xs| == 0 then Ok([])
    else
      var x :- MergeItem(xs[0], extra);
      var rest :- MergeItems(xs[1..], extra);
      Ok([x] + rest)
  }

  /** One sequence element: containers are recursed into, a placeholder `<k>` becomes `extra[k]`. */
  function MergeItem(x: Tree, extra: map<string, string>): Result<Tree>
    decreases x, 2
  {
    if IsContainer(x) then MergeTree(x, extra)
    else if IsPlaceholderLeaf(x, extra) then Ok(Leaf(Str(extra[Name(x.scalar.s)])))
    else Ok(x)
  }
}
