/**
 The configuration document: a finite tree of mappings (ordered name/value
 pairs), sequences and scalar leaves, with the attribute-style access the
 source uses on it (presence, lookup, assignment, Python truthiness).
 */
module ConfigTree {
  import opened Results

  datatype Scalar = Str(s: string) | Int(i: int) | Bool(b: bool) | Null

  datatype Tree =
    | Map(entries: seq<Entry>)
    | Seq(items: seq<Tree>)
    | Leaf(scalar: Scalar)

  datatype Entry = Entry(key: string, value: Tree)

  /** Mappings and sequences: the nodes the source treats as containers. */
  predicate IsContainer(t: Tree) {
    t.Map? || t.Seq?
  }

  /** The keys of a mapping, in order. */
  function Keys(es: seq<Entry>): (ks: seq<string>)
    ensures |ks| == |es|
    ensures forall i :: 0 <= i < |es| ==> ks[i] == es[i].key
  {
    if |es| == 0 then [] else [es[0].key] + Keys(es[1..])
  }

  /** Names are unique within a mapping. */
  predicate UniqueKeys(es: seq<Entry>) {
    forall i, j :: 0 <= i < j < |es| ==> es[i].key != es[j].key
  }

  /** Attribute lookup on a mapping: the value of the first entry named `k`. */
  function Find(es: seq<Entry>, k: string): (r: Option<Tree>)
    ensures r.None? <==> k !in Keys(es)
  {
    if |es| == 0 then None
    else if es[0].key == k then Some(es[0].value)
    else Find(es[1..], k)
  }

  /** A present name reads back the value of its first entry. */
  lemma {:induction false} FindFirst(es: seq<Entry>, k: string, i: int)
    requires 0 <= i < |es| && es[i].key == k
    requires forall j :: 0 <= j < i ==> es[j].key != k
    ensures Find(es, k) == Some(es[i].value)
  {
    if i > 0 {
      assert es[1..][i - 1] == es[i];
      FindFirst(es[1..], k, i - 1);
    }
  }

  /** Attribute assignment on a mapping: replace the entry named `k` in place, or append it. */
  function Set(es: seq<Entry>, k: string, v: Tree): (r: seq<Entry>)
    ensures k in Keys(es) ==> |r| == |es|
    ensures k !in Keys(es) ==> |r| == |es| + 1 && r[|es|] == Entry(k, v)
  {
    if |es| == 0 then [Entry(k, v)]
    else if es[0].key == k then [Entry(k, v)] + es[1..]
    else [es[0]] + Set(es[1..], k, v)
  }

  /** After an assignment the name reads back the assigned value and every other name reads as before. */
  lemma {:induction false} SetThenFind(es: seq<Entry>, k: string, v: Tree, k': string)
    ensures Find(Set(es, k, v), k') == if k' == k then Some(v) else Find(es, k')
  {
    if |es| > 0 && es[0].key != k {
      SetThenFind(es[1..], k, v, k');
      assert Set(es, k, v)[1..] == Set(es[1..], k, v);
    }
  }

  /** An assignment keeps the names in place and appends a new name at the end. */
  lemma {:induction false} SetKeys(es: seq<Entry>, k: string, v: Tree)
    ensures k in Keys(es) ==> Keys(Set(es, k, v)) == Keys(es)
    ensures k !in Keys(es) ==> Keys(Set(es, k, v)) == Keys(es) + [k]
  {
    if |es| > 0 {
      if es[0].key == k {
        assert Keys(Set(es, k, v)) == [k] + Keys(es[1..]);
      } else {
        SetKeys(es[1..], k, v);
        assert Set(es, k, v)[1..] == Set(es[1..], k, v);
        assert k in Keys(es) <==> k in Keys(es[1..]);
        assert Keys(Set(es, k, v)) == [es[0].key] + Keys(Set(es[1..], k, v));
      }
    }
  }

  /** Attribute assignment on a document: only a mapping root has fields to assign. */
  function SetField(t: Tree, k: string, v: Tree): (r: Result<Tree>)
    ensures r.Ok? <==> t.Map?
    ensures r.Ok? ==> r.value.Map?
    ensures r.Ok? ==> forall k' :: Find(r.value.entries, k') == if k' == k then Some(v) else Find(t.entries, k')
  {
    match t
    case Map(es) =>
      assert forall k' :: Find(Set(es, k, v), k') == if k' == k then Some(v) else Find(es, k') by {
        forall k' { SetThenFind(es, k, v, k'); }
      }
      Ok(Map(Set(es, k, v)))
    case _ => Err(NotAMapping)
  }

  /** Python truthiness of a node: non-empty containers and strings, non-zero numbers, `true`. */
  predicate Truthy(t: Tree) {
    match t
    case Map(es) => |es| > 0
    case Seq(xs) => |xs| > 0
    case Leaf(Str(s)) => |s| > 0
    case Leaf(Int(i)) => i != 0
    case Leaf(Bool(b)) => b
    case Leaf(Null) => false
  }

  /** Assigning an existing name keeps the mapping's unique-name invariant. */
  lemma {:induction false} SetKeepsUniqueKeys(es: seq<Entry>, k: string, v: Tree)
    requires UniqueKeys(es)
    ensures UniqueKeys(Set(es, k, v))
  {
    var r := Set(es, k, v);
    SetKeys(es, k, v);
    if k !in Keys(es) {
      forall i, j | 0 <= i < j < |r| ensures r[i].key != r[j].key {
        assert Keys(r)[i] == r[i].key && Keys(r)[j] == r[j].key;
        if j == |es| {
          assert Keys(es)[i] == es[i].key;
          assert Keys(r)[i] == Keys(es)[i];
        } else {
          assert Keys(r)[i] == Keys(es)[i] && Keys(r)[j] == Keys(es)[j];
        }
      }
    } else {
      forall i, j | 0 <= i < j < |r| ensures r[i].key != r[j].key {
        assert Keys(r)[i] == Keys(es)[i] && Keys(r)[j] == Keys(es)[j];
      }
    }
  }
}
