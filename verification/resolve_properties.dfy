/**
 What the resolution pipeline promises: which document the locator picks,
 that `local_dir` and `name` come from the locator whatever the overrides
 say, that command-line overrides beat environment ones, and how the
 finished document is classified.
 */
module ResolveProperties {
  import opened Results
  import opened ConfigTree
  import opened Placeholder
  import opened Paths
  import opened TreeMerge
  import opened MergeProperties
  import opened CommandLine
  import opened Finisher
  import opened Resolve

  // ---------------------------------------------------------------------------
  // Locator

  /** An existing file is loaded directly; its base name and directory are recorded. */
  lemma LocateFile(fs: FileSystem, fetch: string -> Option<string>, p: string)
    requires p in fs.files
    ensures Locate(fs, fetch, p) == Ok(Located(fs.files[p], Basename(p), Dirname(p)))
  {
  }

  /** A path that does not exist is fetched, and the fetched path is located instead. */
  lemma LocateFetched(fs: FileSystem, fetch: string -> Option<string>, p: string)
    requires !Exists(fs, p)
    ensures fetch(p).None? ==> Locate(fs, fetch, p) == Err(FetchFailed(p))
    ensures fetch(p).Some? ==> Locate(fs, fetch, p) == LocateLocal(fs, fetch(p).value)
  {
  }

  /**
   In a directory the first supported name that exists is chosen (workflow
   names before agent names), even when a later one would also exist.
   */
  lemma LocateDirectory(fs: FileSystem, fetch: string -> Option<string>, dir: string, j: int)
    requires Exists(fs, dir) && dir !in fs.files
    requires FirstExisting(fs, dir, SupportedConfigNames, 0, j)
    ensures var f := Join(dir, SupportedConfigNames[j]);
      Locate(fs, fetch, dir) ==
        if f in fs.files then Ok(Located(fs.files[f], SupportedConfigNames[j], dir)) else Err(Unreadable(f))
  {
    SearchPicksFirst(fs, dir, SupportedConfigNames, 0, j);
  }

  /** A directory holding none of the supported names is a failure that names the directory and all four names. */
  lemma LocateNotFound(fs: FileSystem, fetch: string -> Option<string>, dir: string)
    requires Exists(fs, dir) && dir !in fs.files
    ensures (forall i :: 0 <= i < |SupportedConfigNames| ==> !Exists(fs, Join(dir, SupportedConfigNames[i]))) <==>
      Locate(fs, fetch, dir) == Err(NotFound(dir, ["workflow.yaml", "workflow.yml", "agent.yaml", "agent.yml"]))
  {
  }

  /** A located document is the content of an existing file whose base name is the recorded name. */
  lemma LocatedIsAFile(fs: FileSystem, fetch: string -> Option<string>, p: string)
    requires Locate(fs, fetch, p).Ok?
    ensures var loc := Locate(fs, fetch, p).value;
      exists path :: path in fs.files && fs.files[path] == loc.doc && Basename(path) == loc.name
  {
    assert LocalPath(fs, fetch, p).Ok?;
    var local := LocalPath(fs, fetch, p).value;
    assert Locate(fs, fetch, p) == LocateLocal(fs, local);
    LocalIsAFile(fs, local);
  }

  /** The same for the local path the locator reaches, after any download. */
  lemma LocalIsAFile(fs: FileSystem, local: string)
    requires LocateLocal(fs, local).Ok?
    ensures var loc := LocateLocal(fs, local).value;
      exists path :: path in fs.files && fs.files[path] == loc.doc && Basename(path) == loc.name
  {
    var loc := LocateLocal(fs, local).value;
    if local in fs.files {
      assert fs.files[local] == loc.doc && Basename(local) == loc.name;
    } else {
      var path := Join(local, loc.name);
      assert path in fs.files && fs.files[path] == loc.doc;
      SupportedNameHasNoSlash(loc.name);
      BasenameOfJoin(local, loc.name);
    }
  }

  /** None of the supported names holds a separator. */
  lemma SupportedNameHasNoSlash(n: string)
    requires n in SupportedConfigNames
    ensures HasNoSlash(n)
  {
  }

  // ---------------------------------------------------------------------------
  // Pipeline

  /**
   A resolved document is a mapping whose `name` and `local_dir` are the
   ones the locator found, and whose `tools` and `callbacks` are present and
   non-null.
   */
  lemma FromTaskRecordsOrigin(fs: FileSystem, fetch: string -> Option<string>, p: string,
                              env: map<string, string>, argv: seq<string>)
    ensures FromTask(fs, fetch, p, env, argv).Ok? ==>
      && Locate(fs, fetch, p).Ok?
      && var c := FromTask(fs, fetch, p, env, argv).value;
         var loc := Locate(fs, fetch, p).value;
         && c.Map?
         && Find(c.entries, "name") == Some(Leaf(Str(loc.name)))
         && Find(c.entries, "local_dir") == Some(Leaf(Str(loc.dir)))
         && !Missing(c.entries, "tools")
         && !Missing(c.entries, "callbacks")
  {
    if FromTask(fs, fetch, p, env, argv).Ok? {
      var loc := Locate(fs, fetch, p).value;
      var doc := ApplyOverrides(loc.doc, env, argv).value;
      assert FromTask(fs, fetch, p, env, argv) == Finish(doc, loc);
    }
  }

  /** Overrides never change `name` or `local_dir`: they are assigned after both override passes. */
  lemma OverridesNeverChangeOrigin(fs: FileSystem, fetch: string -> Option<string>, p: string,
                                   env1: map<string, string>, argv1: seq<string>,
                                   env2: map<string, string>, argv2: seq<string>)
    ensures FromTask(fs, fetch, p, env1, argv1).Ok? && FromTask(fs, fetch, p, env2, argv2).Ok? ==>
      var c1 := FromTask(fs, fetch, p, env1, argv1).value;
      var c2 := FromTask(fs, fetch, p, env2, argv2).value;
      && Find(c1.entries, "name") == Find(c2.entries, "name")
      && Find(c1.entries, "local_dir") == Find(c2.entries, "local_dir")
  {
    FromTaskRecordsOrigin(fs, fetch, p, env1, argv1);
    FromTaskRecordsOrigin(fs, fetch, p, env2, argv2);
  }

  /** A top-level scalar field of a mapping document. */
  predicate ScalarField(doc: Tree, k: string) {
    doc.Map? && Find(doc.entries, k).Some? && !IsContainer(Find(doc.entries, k).value)
  }

  /**
   The two override passes on a top-level scalar field: the command line's
   value wins when it names the field; otherwise the environment's value
   applies when it names the field.
   */
  lemma CommandLineBeatsEnvironment(doc: Tree, env: map<string, string>, argv: seq<string>, k: string)
    requires ScalarField(doc, k)
    ensures ApplyOverrides(doc, env, argv).Ok? ==>
      && ParseArgs(argv).Ok?
      && ApplyOverrides(doc, env, argv).value.Map?
      && var c := ApplyOverrides(doc, env, argv).value;
         var cli := ParseArgs(argv).value;
         && (k in cli ==> Find(c.entries, k) == Some(Leaf(Str(cli[k]))))
         && (k !in cli && k in env ==> Find(c.entries, k) == Some(Leaf(Str(env[k]))))
  {
    if ApplyOverrides(doc, env, argv).Ok? {
      var es := doc.entries;
      var afterEnv := Merge(doc, env).value;
      var cli := ParseArgs(argv).value;
      var afterCli := Merge(afterEnv, cli).value;
      var v0 := Find(es, k).value;
      var v1 := if k in env then Leaf(Str(env[k])) else v0;
      if |env| > 0 {
        MergedField(es, env, k);
      }
      assert afterEnv.Map? && Find(afterEnv.entries, k) == Some(v1);
      var v2 := if k in cli then Leaf(Str(cli[k])) else v1;
      if |cli| > 0 {
        MergedField(afterEnv.entries, cli, k);
      }
      assert afterCli.Map? && Find(afterCli.entries, k) == Some(v2);
    }
  }

  /**
   In the whole resolution, a top-level scalar field other than `name` and
   `local_dir` ends up with the command line's value when the command line
   names it, else the environment's value when the environment names it.
   */
  lemma ResolvedOverridePrecedence(fs: FileSystem, fetch: string -> Option<string>, p: string,
                                   env: map<string, string>, argv: seq<string>, k: string)
    requires k != "name" && k != "local_dir"
    ensures FromTask(fs, fetch, p, env, argv).Ok? && ScalarField(Locate(fs, fetch, p).value.doc, k) ==>
      && ParseArgs(argv).Ok?
      && var c := FromTask(fs, fetch, p, env, argv).value;
         var cli := ParseArgs(argv).value;
         && (k in cli ==> Find(c.entries, k) == Some(Leaf(Str(cli[k]))))
         && (k !in cli && k in env ==> Find(c.entries, k) == Some(Leaf(Str(env[k]))))
  {
    if FromTask(fs, fetch, p, env, argv).Ok? && ScalarField(Locate(fs, fetch, p).value.doc, k) {
      var loc := Locate(fs, fetch, p).value;
      CommandLineBeatsEnvironment(loc.doc, env, argv, k);
      var doc := ApplyOverrides(loc.doc, env, argv).value;
      assert FromTask(fs, fetch, p, env, argv) == Finish(doc, loc);
      if Find(doc.entries, k).Some? {
        FinishKeepsStringField(doc, loc, k);
      }
    }
  }

  /** Recording the origin and filling missing fields keeps a string field other than `name` and `local_dir`. */
  lemma FinishKeepsStringField(doc: Tree, loc: Located, k: string)
    requires k != "name" && k != "local_dir"
    ensures doc.Map? && Find(doc.entries, k).Some? && Find(doc.entries, k).value.Leaf?
            && Find(doc.entries, k).value.scalar.Str? ==>
      Find(Finish(doc, loc).value.entries, k) == Find(doc.entries, k)
  {
  }

  /** An override pass keeps a mapping's names, in place. */
  lemma MergeKeepsNames(doc: Tree, extra: map<string, string>)
    requires doc.Map? && Merge(doc, extra).Ok?
    ensures Merge(doc, extra).value.Map?
    ensures Keys(Merge(doc, extra).value.entries) == Keys(doc.entries)
  {
    if |extra| > 0 {
      MergeMappingRules(doc.entries, extra);
    }
  }

  /** Resolution keeps the top-level names of a document unique. */
  lemma ResolvedKeepsUniqueNames(fs: FileSystem, fetch: string -> Option<string>, p: string,
                                 env: map<string, string>, argv: seq<string>)
    ensures FromTask(fs, fetch, p, env, argv).Ok? && Locate(fs, fetch, p).value.doc.Map? && UniqueKeys(Locate(fs, fetch, p).value.doc.entries) ==>
      UniqueKeys(FromTask(fs, fetch, p, env, argv).value.entries)
  {
    if FromTask(fs, fetch, p, env, argv).Ok? && Locate(fs, fetch, p).value.doc.Map? && UniqueKeys(Locate(fs, fetch, p).value.doc.entries) {
      var loc := Locate(fs, fetch, p).value;
      assert loc.doc.Map? && UniqueKeys(loc.doc.entries);
      OverridesKeepNames(loc.doc, env, argv);
      var doc := ApplyOverrides(loc.doc, env, argv).value;
      FinishKeepsUniqueNames(doc, loc);
      assert FromTask(fs, fetch, p, env, argv) == Finish(doc, loc);
    }
  }

  /** Both override passes keep a document's top-level names, in order. */
  lemma OverridesKeepNames(doc: Tree, env: map<string, string>, argv: seq<string>)
    ensures ApplyOverrides(doc, env, argv).Ok? && doc.Map? ==>
      ApplyOverrides(doc, env, argv).value.Map? && Keys(ApplyOverrides(doc, env, argv).value.entries) == Keys(doc.entries)
  {
    if ApplyOverrides(doc, env, argv).Ok? && doc.Map? {
      MergeKeepsNames(doc, env);
      var afterEnv := Merge(doc, env).value;
      MergeKeepsNames(afterEnv, ParseArgs(argv).value);
    }
  }

  /** Recording the origin and filling missing fields never introduces a duplicate name. */
  lemma FinishKeepsUniqueNames(doc: Tree, loc: Located)
    ensures doc.Map? && UniqueKeys(doc.entries) ==> UniqueKeys(Finish(doc, loc).value.entries)
  {
    if doc.Map? && UniqueKeys(doc.entries) {
      var withDir := Set(doc.entries, "local_dir", Leaf(Str(loc.dir)));
      SetKeepsUniqueKeys(doc.entries, "local_dir", Leaf(Str(loc.dir)));
      var withName := Set(withDir, "name", Leaf(Str(loc.name)));
      SetKeepsUniqueKeys(withDir, "name", Leaf(Str(loc.name)));
      var es1 := if Missing(withName, "tools") then Set(withName, "tools", Map([])) else withName;
      SetKeepsUniqueKeys(withName, "tools", Map([]));
      SetKeepsUniqueKeys(es1, "callbacks", Seq([]));
      assert Finish(doc, loc) == FillMissingFields(Map(withName));
    }
  }

  /** The resolved document is a workflow exactly when the locator matched a workflow file name. */
  lemma ResolvedClassification(fs: FileSystem, fetch: string -> Option<string>, p: string,
                               env: map<string, string>, argv: seq<string>)
    ensures FromTask(fs, fetch, p, env, argv).Ok? ==>
      && Locate(fs, fetch, p).Ok?
      && IsWorkflow(FromTask(fs, fetch, p, env, argv).value) == Ok(Locate(fs, fetch, p).value.name in WorkflowNames)
  {
    FromTaskRecordsOrigin(fs, fetch, p, env, argv);
  }

  /** The workflow names are exactly the two names the locator prefers. */
  lemma WorkflowNamesComeFirst()
    ensures WorkflowNames == SupportedConfigNames[..2]
  {
  }

  // ---------------------------------------------------------------------------
  // Scenarios

  /**
   A placeholder under a name that has no override fails even though the
   placeholder's own name is overridden: `{model: "<model_name>", retries: 3}`
   with `{model_name: "qwen-max", retries: "5"}` stops on `model`.
   */
  lemma PlaceholderUnderUnmatchedNameFails()
    ensures Merge(Map([Entry("model", Leaf(Str("<model_name>"))), Entry("retries", Leaf(Int(3)))]),
                  map["model_name" := "qwen-max", "retries" := "5"]) == Err(MissingOverride("model"))
  {
    WrapThenName("model_name");
    assert "<model_name>" == "<" + "model_name" + ">";
  }

  /**
   When the entry's own name is overridden too, the placeholder entry takes
   the override of its NAME, not of the placeholder: `model` becomes
   "qwen-plus", and `retries` becomes the string "5".
   */
  lemma PlaceholderTakesOverrideOfEntryName()
    ensures Merge(Map([Entry("model", Leaf(Str("<model_name>"))), Entry("retries", Leaf(Int(3)))]),
                  map["model_name" := "qwen-max", "model" := "qwen-plus", "retries" := "5"]) ==
            Ok(Map([Entry("model", Leaf(Str("qwen-plus"))), Entry("retries", Leaf(Str("5")))]))
  {
    var extra := map["model_name" := "qwen-max", "model" := "qwen-plus", "retries" := "5"];
    var model, retries := Entry("model", Leaf(Str("<model_name>"))), Entry("retries", Leaf(Int(3)));
    var model', retries' := Entry("model", Leaf(Str("qwen-plus"))), Entry("retries", Leaf(Str("5")));
    assert MergeEntry(model, extra) == Ok(model');
    assert MergeEntry(retries, extra) == Ok(retries');
    assert [retries][1..] == [];
    assert MergeEntries([], extra) == Ok([]);
    assert [retries'] + [] == [retries'];
    assert MergeEntries([retries], extra) == Ok([retries']);
    assert [model, retries][1..] == [retries];
    assert [model'] + [retries'] == [model', retries'];
    assert MergeEntries([model, retries], extra) == Ok([model', retries']);
  }

  /** A directory holding only `agent.yml` resolves to that file and is not a workflow. */
  lemma AgentOnlyDirectory(fs: FileSystem, fetch: string -> Option<string>, dir: string,
                           env: map<string, string>, argv: seq<string>)
    requires Exists(fs, dir) && dir !in fs.files
    requires Join(dir, "agent.yml") in fs.files
    requires forall n :: n in ["workflow.yaml", "workflow.yml", "agent.yaml"] ==> !Exists(fs, Join(dir, n))
    ensures Locate(fs, fetch, dir) == Ok(Located(fs.files[Join(dir, "agent.yml")], "agent.yml", dir))
    ensures FromTask(fs, fetch, dir, env, argv).Ok? ==> IsWorkflow(FromTask(fs, fetch, dir, env, argv).value) == Ok(false)
  {
    assert FirstExisting(fs, dir, SupportedConfigNames, 0, 3);
    LocateDirectory(fs, fetch, dir, 3);
    ResolvedClassification(fs, fetch, dir, env, argv);
  }
}
