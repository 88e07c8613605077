/**
 The MCP view of `Config.convert_mcp_servers_to_json`: the tool registry,
 filtered to the tools whose `mcp` flag is truthy or absent, each copied
 whole (flag included) under the single top-level key `mcpServers`.
 */
module Mcp {
  import opened Results
  import opened ConfigTree

  /** The projection's shape: one key, holding the selected tool entries. */
  function Servers(es: seq<Entry>): Tree {
    Map([Entry("mcpServers", Map(es))])
  }

  /** A tool is served over MCP unless it is a mapping whose `mcp` field is falsy. */
  predicate IsMcp(tool: Tree) {
    match tool
    case Map(fields) => Find(fields, "mcp").None? || Truthy(Find(fields, "mcp").value)
    case _ => true
  }

  /** The MCP tools, in registry order. */
  function SelectMcp(es: seq<Entry>): (r: seq<Entry>)
    ensures |r| <= |es|
  {
    if |es| == 0 then []
    else (if IsMcp(es[0].value) then [es[0]] else []) + SelectMcp(es[1..])
  }

  /** The document's `tools` field, read with a default of none. */
  function Tools(t: Tree): Option<Tree> {
    if t.Map? then Find(t.entries, "tools") else None
  }

  /**
   The projection. Absent or falsy `tools` gives the empty projection; a
   truthy `tools` that is not a mapping has no items to list and fails.
   */
  function ConvertMcpServers(t: Tree): (r: Result<Tree>)
    ensures r.Err? <==> Tools(t).Some? && Truthy(Tools(t).value) && !Tools(t).value.Map?
    ensures r.Err? ==> r.error == ToolsNotMapping
    ensures r.Ok? ==>
      && r.value.Map? && Keys(r.value.entries) == ["mcpServers"]
      && r.value.entries[0].value.Map?
    ensures r.Ok? && (Tools(t).None? || !Truthy(Tools(t).value)) ==> r.value == Servers([])
    ensures r.Ok? ==> forall e :: e in r.value.entries[0].value.entries <==>
      Tools(t).Some? && Tools(t).value.Map? && e in Tools(t).value.entries && IsMcp(e.value)
  {
    var tools := Tools(t);
    assert tools.Some? && tools.value.Map? ==> forall e :: e in SelectMcp(tools.value.entries) <==> e in tools.value.entries && IsMcp(e.value) by {
      if tools.Some? && tools.value.Map? {
        SelectMcpMembers(tools.value.entries);
      }
    }
    if tools.None? || !Truthy(tools.value) then Ok(Servers([]))
    else if tools.value.Map? then Ok(Servers(SelectMcp(tools.value.entries)))
    else Err(ToolsNotMapping)
  }

  /** Exactly the MCP tools are selected, each entry unchanged. */
  lemma {:induction false} SelectMcpMembers(es: seq<Entry>)
    ensures forall e :: e in SelectMcp(es) <==> e in es && IsMcp(e.value)
  {
    if |es| > 0 {
      SelectMcpMembers(es[1..]);
      assert es == [es[0]] + es[1..];
    }
  }

  /** Selection respects registry order: selecting from a concatenation concatenates the selections. */
  lemma {:induction false} SelectMcpAppend(a: seq<Entry>, b: seq<Entry>)
    ensures SelectMcp(a + b) == SelectMcp(a) + SelectMcp(b)
  {
    if |a| > 0 {
      assert (a + b)[0] == a[0];
      assert (a + b)[1..] == a[1..] + b;
      SelectMcpAppend(a[1..], b);
    } else {
      assert a + b == b;
    }
  }

  /** The projection of a registry with unique names has unique names, as a Python dict does. */
  lemma {:induction false} SelectMcpUnique(es: seq<Entry>)
    requires UniqueKeys(es)
    ensures UniqueKeys(SelectMcp(es))
  {
    if |es| > 0 {
      var rest := es[1..];
      assert UniqueKeys(rest) by {
        forall i, j | 0 <= i < j < |rest| ensures rest[i].key != rest[j].key {
          assert rest[i] == es[i + 1] && rest[j] == es[j + 1];
        }
      }
      SelectMcpUnique(rest);
      if IsMcp(es[0].value) {
        var sel := SelectMcp(es);
        assert sel == [es[0]] + SelectMcp(rest);
        SelectMcpMembers(rest);
        forall i | 0 < i < |sel| ensures sel[i].key != es[0].key {
          assert sel[i] in SelectMcp(rest);
          var m :| 0 <= m < |rest| && rest[m] == sel[i];
          assert rest[m] == es[m + 1];
        }
      }
    }
  }

  /**
   With unique tool names, a tool name reads back from the projection exactly
   when the tool is served over MCP, and it reads back the whole tool entry.
   */
  lemma {:induction false} SelectMcpFind(es: seq<Entry>, k: string)
    requires UniqueKeys(es)
    ensures Find(SelectMcp(es), k) ==
      if Find(es, k).Some? && IsMcp(Find(es, k).value) then Find(es, k) else None
  {
    if |es| > 0 {
      var rest := es[1..];
      assert UniqueKeys(rest) by {
        forall i, j | 0 <= i < j < |rest| ensures rest[i].key != rest[j].key {
          assert rest[i] == es[i + 1] && rest[j] == es[j + 1];
        }
      }
      SelectMcpFind(rest, k);
      assert Find(es, k) == if es[0].key == k then Some(es[0].value) else Find(rest, k);
      if IsMcp(es[0].value) {
        assert SelectMcp(es) == [es[0]] + SelectMcp(rest);
        FindCons(es[0], SelectMcp(rest), k);
      } else {
        assert SelectMcp(es) == SelectMcp(rest);
      }
      if es[0].key == k {
        NotFoundAfterHead(es, k);
      }
    }
  }

  lemma FindCons(e: Entry, rest: seq<Entry>, k: string)
    ensures Find([e] + rest, k) == if e.key == k then Some(e.value) else Find(rest, k)
  {
    assert ([e] + rest)[1..] == rest;
  }

  /** In a mapping with unique names, a name held by the head does not occur in the tail. */
  lemma NotFoundAfterHead(es: seq<Entry>, k: string)
    requires UniqueKeys(es) && |es| > 0 && es[0].key == k
    ensures Find(es[1..], k).None?
  {
  }

  /**
   A document whose `tools` field is a mapping projects to the selection
   from it, in registry order; with `SelectMcpAppend` this fixes the order
   of the projection for every document.
   */
  lemma RegistryProjection(t: Tree, tools: seq<Entry>)
    requires Tools(t) == Some(Map(tools))
    ensures ConvertMcpServers(t) == Ok(Servers(SelectMcp(tools)))
  {
  }

  /**
   The registry `{a: {mcp: true, x: 1}, b: {mcp: false, x: 2}, c: {x: 3}}`
   projects to `{mcpServers: {a: {mcp: true, x: 1}, c: {x: 3}}}`: `b` is
   left out, `c` is served by default, and `a` keeps its `mcp` field.
   */
  lemma ProjectionKeepsFlag()
    ensures var a := Entry("a", Map([Entry("mcp", Leaf(Bool(true))), Entry("x", Leaf(Int(1)))]));
      var b := Entry("b", Map([Entry("mcp", Leaf(Bool(false))), Entry("x", Leaf(Int(2)))]));
      var c := Entry("c", Map([Entry("x", Leaf(Int(3)))]));
      ConvertMcpServers(Map([Entry("tools", Map([a, b, c]))])) == Ok(Servers([a, c]))
  {
    var a := Entry("a", Map([Entry("mcp", Leaf(Bool(true))), Entry("x", Leaf(Int(1)))]));
    var b := Entry("b", Map([Entry("mcp", Leaf(Bool(false))), Entry("x", Leaf(Int(2)))]));
    var c := Entry("c", Map([Entry("x", Leaf(Int(3)))]));
    assert IsMcp(a.value) && !IsMcp(b.value) && IsMcp(c.value) by {
      assert Find(a.value.entries, "mcp") == Some(Leaf(Bool(true)));
      assert Find(b.value.entries, "mcp") == Some(Leaf(Bool(false)));
      assert Find(c.value.entries[1..], "mcp") == None;
    }
    assert SelectMcp([a, b, c]) == [a, c] by {
      assert SelectMcp([]) == [];
      assert [c][1..] == [] && [b, c][1..] == [c] && [a, b, c][1..] == [b, c];
      assert SelectMcp([c]) == [c];
      assert SelectMcp([b, c]) == [c];
    }
    var doc := Map([Entry("tools", Map([a, b, c]))]);
    assert Find(doc.entries, "tools") == Some(Map([a, b, c]));
    RegistryProjection(doc, [a, b, c]);
  }
}
