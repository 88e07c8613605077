/**
 The document finisher of `Config.fill_missing_fields` and the
 classification of `Config.is_workflow`.
 */
module Finisher {
  import opened Results
  import opened ConfigTree

  /** The file names that make a document a workflow. */
  const WorkflowNames: seq<string> := ["workflow.yaml", "workflow.yml"]

  /** A field that is absent or explicitly null. */
  predicate Missing(es: seq<Entry>, k: string) {
    Find(es, k).None? || Find(es, k) == Some(Leaf(Null))
  }

  /**
   Gives a missing (absent or null) `tools` an empty mapping and a missing
   `callbacks` an empty sequence; everything else is left as it was. Fields
   can only be assigned on a mapping.
   */
  function FillMissingFields(t: Tree): (r: Result<Tree>)
    ensures r.Ok? <==> t.Map?
    ensures r.Ok? ==> r.value.Map?
    ensures r.Ok? ==> (Find(r.value.entries, "tools") ==
      if Missing(t.entries, "tools") then Some(Map([])) else Find(t.entries, "tools"))
    ensures r.Ok? ==> (Find(r.value.entries, "callbacks") ==
      if Missing(t.entries, "callbacks") then Some(Seq([])) else Find(t.entries, "callbacks"))
    ensures r.Ok? ==> forall k :: k != "tools" && k != "callbacks" ==>
      Find(r.value.entries, k) == Find(t.entries, k)
  {
    match t
    case Map(es) =>
      var es1 := if Missing(es, "tools") then Set(es, "tools", Map([])) else es;
      var es2 := if Missing(es1, "callbacks") then Set(es1, "callbacks", Seq([])) else es1;
      assert forall k :: Find(es1, k) == if k == "tools" && Missing(es, "tools") then Some(Map([])) else Find(es, k) by {
        forall k { SetThenFind(es, "tools", Map([]), k); }
      }
      assert forall k :: Find(es2, k) == if k == "callbacks" && Missing(es1, "callbacks") then Some(Seq([])) else Find(es1, k) by {
        forall k { SetThenFind(es1, "callbacks", Seq([]), k); }
      }
      Ok(Map(es2))
    case _ => Err(NotAMapping)
  }

  /** Filling twice is filling once. */
  lemma FillIsIdempotent(t: Tree)
    requires t.Map?
    ensures FillMissingFields(FillMissingFields(t).value) == FillMissingFields(t)
  {
  }

  /** Filling keeps the existing names in order and only ever appends `tools` and `callbacks`. */
  lemma FillKeepsKeys(t: Tree)
    requires t.Map?
    ensures var ks := Keys(FillMissingFields(t).value.entries);
      && Keys(t.entries) <= ks
      && forall i :: |t.entries| <= i < |ks| ==> ks[i] == "tools" || ks[i] == "callbacks"
  {
    var es := t.entries;
    var es1 := if Missing(es, "tools") then Set(es, "tools", Map([])) else es;
    var es2 := if Missing(es1, "callbacks") then Set(es1, "callbacks", Seq([])) else es1;
    assert FillMissingFields(t).value.entries == es2;
    AssignKeys(es, "tools", Map([]), Missing(es, "tools"));
    AssignKeys(es1, "callbacks", Seq([]), Missing(es1, "callbacks"));
    var k0, k1, k2 := Keys(es), Keys(es1), Keys(es2);
    assert k0 <= k1 && k1 <= k2;
    forall i | |es| <= i < |k2| ensures k2[i] == "tools" || k2[i] == "callbacks" {
      if i < |k1| {
        assert k1[i] == "tools";
        assert k2[i] == k1[i];
      }
    }
  }

  /** A conditional assignment keeps the names and may append the assigned one. */
  lemma AssignKeys(es: seq<Entry>, k: string, v: Tree, doIt: bool)
    ensures var r := if doIt then Set(es, k, v) else es;
      && Keys(es) <= Keys(r)
      && forall i :: |es| <= i < |Keys(r)| ==> Keys(r)[i] == k
  {
    SetKeys(es, k, v);
  }

  /**
   A document is a workflow exactly when its `name` is one of the workflow
   file names; a document without a non-null `name` cannot be classified.
   */
  function IsWorkflow(t: Tree): (r: Result<bool>)
    ensures r.Err? <==> !t.Map? || Missing(t.entries, "name")
    ensures r.Err? ==> r.error == MissingName
    ensures r.Ok? ==> (r.value <==> exists n :: n in WorkflowNames && Find(t.entries, "name") == Some(Leaf(Str(n))))
  {
    if !t.Map? then Err(MissingName)
    else
      match Find(t.entries, "name")
      case None => Err(MissingName)
      case Some(v) =>
        if v == Leaf(Null) then Err(MissingName)
        else Ok(v == Leaf(Str("workflow.yaml")) || v == Leaf(Str("workflow.yml")))
  }
}
