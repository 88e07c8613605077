/**
 The source locator and resolution pipeline of `Config.from_task`: find the
 document (a file, the first supported name in a directory, or the local
 copy of a remote repository), apply the environment overrides, then the
 command-line overrides, record where the document came from, and fill the
 missing fields. The filesystem is an abstract map of files and set of
 directories; the remote fetch is a parameter.
 */
module Resolve {
  import opened Results
  import opened ConfigTree
  import opened Paths
  import opened TreeMerge
  import opened CommandLine
  import opened Finisher

  /** The document names a directory is searched for, in order of preference. */
  const SupportedConfigNames: seq<string> := ["workflow.yaml", "workflow.yml", "agent.yaml", "agent.yml"]

  /** Files with their parsed contents, and directories. */
  datatype FileSystem = FileSystem(files: map<string, Tree>, dirs: set<string>)

  predicate Exists(fs: FileSystem, p: string) {
    p in fs.files || p in fs.dirs
  }

  /** The located document, the file name it was found under, and its directory. */
  datatype Located = Located(doc: Tree, name: string, dir: string)

  /** A path that exists locally is used as is; anything else is fetched as a repository identifier. */
  function LocalPath(fs: FileSystem, fetch: string -> Option<string>, pathOrId: string): Result<string> {
    if Exists(fs, pathOrId) then Ok(pathOrId)
    else match fetch(pathOrId)
      case Some(d) => Ok(d)
      case None => Err(FetchFailed(pathOrId))
  }

  /** `names[j]` exists in `dir` and no name from position `k` up to `j` does. */
  predicate FirstExisting(fs: FileSystem, dir: string, names: seq<string>, k: int, j: int) {
    && 0 <= k <= j < |names|
    && Exists(fs, Join(dir, names[j]))
    && forall i :: k <= i < j ==> !Exists(fs, Join(dir, names[i]))
  }

  /**
   The candidate search in a directory over `names` from position `k`: the
   first name that exists decides (`SearchPicksFirst`); when none does, the
   failure reports the whole list.
   */
  function Search(fs: FileSystem, dir: string, names: seq<string>, k: nat): (r: Result<Located>)
    requires k <= |names|
    ensures (forall i :: k <= i < |names| ==> !Exists(fs, Join(dir, names[i]))) <==>
      r == Err(NotFound(dir, names))
    decreases |names| - k
  {
    if k == |names| then Err(NotFound(dir, names))
    else
      var f := Join(dir, names[k]);
      if !Exists(fs, f) then Search(fs, dir, names, k + 1)
      // an existing candidate that is not a file cannot be loaded
      else if f in fs.files then Ok(Located(fs.files[f], names[k], dir))
      else Err(Unreadable(f))
  }

  /** The first name from position `k` that exists decides the search: its document, or `Unreadable` when it is not a file. */
  lemma {:induction false} SearchPicksFirst(fs: FileSystem, dir: string, names: seq<string>, k: nat, j: int)
    requires k <= |names| && FirstExisting(fs, dir, names, k, j)
    ensures Search(fs, dir, names, k) ==
      (var f := Join(dir, names[j]);
       if f in fs.files then Ok(Located(fs.files[f], names[j], dir)) else Err(Unreadable(f)))
    decreases |names| - k
  {
    if j > k {
      assert FirstExisting(fs, dir, names, k + 1, j);
      SearchPicksFirst(fs, dir, names, k + 1, j);
    }
  }

  /** Where the document comes from: a file directly, or the first supported name in a directory. */
  function Locate(fs: FileSystem, fetch: string -> Option<string>, pathOrId: string): Result<Located> {
    var local :- LocalPath(fs, fetch, pathOrId);
    LocateLocal(fs, local)
  }

  /** Locating a local path: a file is loaded and split into directory and base name; anything else is searched. */
  function LocateLocal(fs: FileSystem, local: string): (r: Result<Located>)
    ensures r.Ok? ==> r.value.doc in fs.files.Values
    ensures r.Ok? && local !in fs.files ==>
      && r.value.dir == local
      && r.value.name in SupportedConfigNames
      && Join(local, r.value.name) in fs.files
      && fs.files[Join(local, r.value.name)] == r.value.doc
  {
    if local in fs.files then Ok(Located(fs.files[local], Basename(local), Dirname(local)))
    else
      var r := Search(fs, local, SupportedConfigNames, 0);
      assert r.Ok? ==>
        && r.value.dir == local
        && r.value.name in SupportedConfigNames
        && Join(local, r.value.name) in fs.files
        && fs.files[Join(local, r.value.name)] == r.value.doc
      by {
        if r.Ok? {
          FirstExistingIsFound(fs, local, SupportedConfigNames, 0);
          var j :| FirstExisting(fs, local, SupportedConfigNames, 0, j);
          SearchPicksFirst(fs, local, SupportedConfigNames, 0, j);
        }
      }
      r
  }

  /** When some candidate exists, one of them is the first that exists. */
  lemma {:induction false} FirstExistingIsFound(fs: FileSystem, dir: string, names: seq<string>, k: int)
    requires 0 <= k <= |names|
    requires forall i :: 0 <= i < k ==> !Exists(fs, Join(dir, names[i]))
    requires exists i :: k <= i < |names| && Exists(fs, Join(dir, names[i]))
    ensures exists j :: FirstExisting(fs, dir, names, 0, j)
    decreases |names| - k
  {
    if Exists(fs, Join(dir, names[k])) {
      assert FirstExisting(fs, dir, names, 0, k);
    } else {
      FirstExistingIsFound(fs, dir, names, k + 1);
    }
  }

  /** The environment overrides, then the command-line overrides (parsed only now). */
  function ApplyOverrides(doc: Tree, env: map<string, string>, argv: seq<string>): Result<Tree> {
    var afterEnv :- Merge(doc, env);
    var cli :- ParseArgs(argv);
    Merge(afterEnv, cli)
  }

  /** Records where the document came from, overwriting any `local_dir` and `name`, then fills missing fields. */
  function Finish(doc: Tree, loc: Located): (r: Result<Tree>)
    ensures r.Ok? <==> doc.Map?
    ensures r.Ok? ==>
      && r.value.Map?
      && Find(r.value.entries, "name") == Some(Leaf(Str(loc.name)))
      && Find(r.value.entries, "local_dir") == Some(Leaf(Str(loc.dir)))
      && !Missing(r.value.entries, "tools")
      && !Missing(r.value.entries, "callbacks")
      && Find(r.value.entries, "tools") ==
           (if Missing(doc.entries, "tools") then Some(Map([])) else Find(doc.entries, "tools"))
      && Find(r.value.entries, "callbacks") ==
           (if Missing(doc.entries, "callbacks") then Some(Seq([])) else Find(doc.entries, "callbacks"))
      && forall k :: k != "name" && k != "local_dir" && k != "tools" && k != "callbacks" ==>
           Find(r.value.entries, k) == Find(doc.entries, k)
  {
    var withDir :- SetField(doc, "local_dir", Leaf(Str(loc.dir)));
    // `withDir` is a mapping, so assigning `name` on it cannot fail
    var withName := SetField(withDir, "name", Leaf(Str(loc.name))).value;
    assert Find(withName.entries, "name") == Some(Leaf(Str(loc.name)));
    assert Find(withName.entries, "local_dir") == Some(Leaf(Str(loc.dir)));
    assert forall k :: k != "name" && k != "local_dir" ==> Find(withName.entries, k) == Find(doc.entries, k);
    FillMissingFields(withName)
  }

  /**
   The whole resolution: locate, environment overrides, command-line
   overrides, then `local_dir` and `name`, then the finisher. The first
   failure ends it.
   */
  function FromTask(fs: FileSystem, fetch: string -> Option<string>, pathOrId: string,
                    env: map<string, string>, argv: seq<string>): Result<Tree>
  {
    var loc :- Locate(fs, fetch, pathOrId);
    var doc :- ApplyOverrides(loc.doc, env, argv);
    Finish(doc, loc)
  }
}
