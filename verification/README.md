# Configuration resolution of ms-agent, modelled in Dafny

This project models the configuration resolver of `Config` in
`ms_agent/config/config.py`. The resolver turns a task directory, a file or
a remote repository identifier into one configuration document:

- it **locates** the document: a file directly, or the first of
  `workflow.yaml`, `workflow.yml`, `agent.yaml`, `agent.yml` in a
  directory, after fetching a path that does not exist locally;
- it applies the **environment overrides**, then the **command-line
  overrides** (`--key value` pairs), through one tree **merge**;
- it records `local_dir` and `name`;
- it **fills** a missing `tools` mapping and a missing `callbacks` list.

Two more operations read the result. `is_workflow` **classifies** the
document. `convert_mcp_servers_to_json` **projects** the tool registry to
its MCP view.

The document is an immutable tagged tree: `Map` of ordered name/value
entries, `Seq`, or `Leaf` of a string, integer, boolean or null. Override
maps are `map<string, string>`. Every exception raised by the modelled
operations is a `Result` error (`results.dfy`); exceptions raised inside
OmegaConf itself are not modelled (see "Left out"). The source mutates in place and may stop
half-way; the model returns the new tree or the first failure instead.

| file | module | models |
|---|---|---|
| `results.dfy` | `Results` | error kinds, `Result`, `Option` |
| `strings.dfy` | `Strings` | `startswith`, `endswith` |
| `tree.dfy` | `ConfigTree` | the document tree; attribute lookup (`Find`), assignment (`Set`, `SetField`), truthiness |
| `placeholder.dfy` | `Placeholder` | the `<name>` grammar |
| `merge.dfy` | `TreeMerge` | `_update_config` (`Merge`, `MergeTree`, and the per-entry and per-element rules) |
| `merge_properties.dfy` | `MergeProperties` | what the merge promises |
| `command_line.dfy` | `CommandLine` | the pair loop of `parse_args` (`ParseArgs`) |
| `paths.dfy` | `Paths` | `os.path.join`, `basename`, `dirname` |
| `finisher.dfy` | `Finisher` | `fill_missing_fields`, `is_workflow` |
| `resolve.dfy` | `Resolve` | `supported_config_names`, locator and `from_task` (`Locate`, `ApplyOverrides`, `Finish`, `FromTask`) |
| `resolve_properties.dfy` | `ResolveProperties` | what the locator and the pipeline promise |
| `mcp.dfy` | `Mcp` | `convert_mcp_servers_to_json` |

## Behaviour of the code worth knowing

- The docstring of `_update_config` (ms_agent/config/config.py:183-185)
  says a `<key>` placeholder is replaced when `key` is among the overrides.
  The model follows the code instead: lines 207-212 write `extra[name]`,
  the override of the entry's own name, not `extra[key]`. So `<k>` with `k`
  overridden but `name` not overridden is a lookup failure
  (`MissingOverride(name)`). The scenario `{model: "<model_name>", retries: 3}`
  with `{model_name: "qwen-max", retries: "5"}` fails on `model`
  (`PlaceholderUnderUnmatchedNameFails`).
- Direct match and placeholder match are two independent `if`s, not an
  `if`/`else`. Both write `extra[name]`, so the outcome is the same as
  "direct match first".
- Pairs are read from the second token (index 1). A trailing unpaired token
  is dropped without a report.
- The command line is parsed after the environment merge. So a lookup
  failure in the environment pass is reported before a malformed argument.
- The MCP projection copies each tool entry whole, `mcp` field included.
- A directory search uses existence, not "is a file". A candidate name that
  is a directory is chosen and then fails to load (`Unreadable`).

## Model

| member | source | states |
|---|---|---|
| `ConfigTree.Find` | ms_agent/config/config.py:133 | attribute lookup on a mapping: absent exactly when the name is not among the names |
| `ConfigTree.FindFirst` | ms_agent/config/config.py:133 | a present name reads back the value of its first entry |
| `ConfigTree.Set` | ms_agent/config/config.py:206 | attribute assignment on a mapping's entries; `SetThenFind`, `SetKeys` and `SetKeepsUniqueKeys` state its read-back, name order and uniqueness |
| `ConfigTree.Truthy` | ms_agent/config/config.py:248 | Python truthiness of a tree: non-empty containers and strings, non-zero integers, `true`; null is falsy (used by `Mcp.ConvertMcpServers` and `Mcp.IsMcp`) |
| `ConfigTree.SetField` | ms_agent/config/config.py:115-116 | assigning a field succeeds exactly on a mapping; afterwards that field reads back the assigned value and every other field reads as before |
| `ConfigTree.SetThenFind` | ms_agent/config/config.py:206 | assigning a name in a mapping and reading any name back: the assigned value for that name, the old value for every other |
| `ConfigTree.SetKeys` | ms_agent/config/config.py:134-137 | assigning keeps the names in place when the name exists and appends it at the end otherwise |
| `ConfigTree.SetKeepsUniqueKeys` | ms_agent/config/config.py:115-116 | assignment keeps the names of a mapping unique |
| `Placeholder.Name` | ms_agent/config/config.py:208-210 | the name of a delimited string is the text between `<` and `>`: the string is `<` + name + `>` |
| `Placeholder.WrapThenName` | ms_agent/config/config.py:208-210 | wrapping any name in `<`/`>` gives a delimited string whose name is that name (round trip with `Name`) |
| `TreeMerge.Merge` | ms_agent/config/config.py:179-231 | the `_update_config` pass; its failure condition is `MergeProperties.MergeFailsIffBroken`, its shape `MergeKeepsShape`, its lookups `FindAfterMerge`, and its early return `MergeEmptyIsIdentity` |
| `TreeMerge.MergeTree` | ms_agent/config/config.py:194-227 | `traverse_config`; `MergeWithNothingIsIdentity` and `MergeScalarRoot` state it |
| `TreeMerge.MergeEntries` | ms_agent/config/config.py:196-212 | the walk over a mapping's entries; `EntriesPointwise` and `EntriesFailIffBroken` state it |
| `TreeMerge.MergeEntry` | ms_agent/config/config.py:198-212 | the rule for one mapping entry; `MergeMappingRules` and `MergeMappingPlaceholder` state it |
| `TreeMerge.MergeItems` | ms_agent/config/config.py:214-227 | the walk over a sequence's elements; `ItemsPointwise` and `ItemsFailIffBroken` state it |
| `TreeMerge.MergeItem` | ms_agent/config/config.py:216-227 | the rule for one sequence element; `MergeSequenceRules` and `ScalarSequenceNeverFails` state it |
| `MergeProperties.MergeEmptyIsIdentity` | ms_agent/config/config.py:191-192 | with an empty (or absent) override map the pass returns the document unchanged |
| `MergeProperties.MergeWithNothingIsIdentity` | ms_agent/config/config.py:194-230 | walking the whole tree with no overrides returns it unchanged, so the early return changes no result |
| `MergeProperties.MergeScalarRoot` | ms_agent/config/config.py:194-227 | a scalar document root is never rewritten |
| `MergeProperties.MergeFailsIffBroken` | ms_agent/config/config.py:198-212 | the merge fails exactly when some mapping entry anywhere holds a scalar `<k>` with `k` overridden while the entry's own name is not; the failure is a missing override |
| `MergeProperties.EntriesFailIffBroken` | ms_agent/config/config.py:198-212 | a mapping's entries fail exactly when one of them is broken |
| `MergeProperties.ItemsFailIffBroken` | ms_agent/config/config.py:216-220 | a sequence's elements fail exactly when one of them holds a broken entry |
| `MergeProperties.EntriesPointwise` | ms_agent/config/config.py:198-212 | a successful walk over a mapping applies the entry rule at every index and keeps the length |
| `MergeProperties.ItemsPointwise` | ms_agent/config/config.py:216-227 | a successful walk over a sequence applies the element rule at every index and keeps the length |
| `MergeProperties.MergeMappingRules` | ms_agent/config/config.py:196-212 | in a mapping each entry keeps its name and position; containers are only walked into; an overridden scalar name takes its override whatever it held; other scalars are unchanged |
| `MergeProperties.MergeMappingPlaceholder` | ms_agent/config/config.py:207-212 | a mapping placeholder `<k>` with `k` overridden fails when the entry's name is not overridden and otherwise becomes `extra[name]`, not `extra[k]` |
| `MergeProperties.MergeSequenceRules` | ms_agent/config/config.py:214-227 | in a sequence a scalar `<k>` with `k` overridden becomes `extra[k]` and is not examined again; other scalars are unchanged; containers are walked into; the length is kept |
| `MergeProperties.ScalarSequenceNeverFails` | ms_agent/config/config.py:221-227 | a sequence of scalars always merges |
| `MergeProperties.FindAfterMerge` | ms_agent/config/config.py:198-212 | a name read after a successful merge gives the entry rule applied to the entry read before; a missing name stays missing |
| `MergeProperties.MergedField` | ms_agent/config/config.py:203-212 | a scalar field after a successful merge holds its override if its name has one and its old value otherwise |
| `MergeProperties.MergeKeepsShape` | ms_agent/config/config.py:194-227 | a successful merge changes scalars only: names, nesting and lengths are the same |
| `CommandLine.ParseArgs` | ms_agent/config/config.py:164-176 | `parse_args` on the unrecognised tokens; `ParseArgsSpec` states its failure condition, key set and values |
| `CommandLine.Pairs` | ms_agent/config/config.py:168-175 | the pair loop from a position; `PairsFailIff`, `PairsKeys`, `PairsLastWins` and `PairsUntouched` state it |
| `CommandLine.ParseArgsSpec` | ms_agent/config/config.py:164-176 | parsing fails exactly when a key read at positions 1, 3, 5, … lacks `--`; on success the map holds exactly the names of the keys read, prefix removed, each bound to the value after its last occurrence |
| `CommandLine.PairsFailIff` | ms_agent/config/config.py:168-173 | the loop from any position fails exactly when a key it reads lacks `--` |
| `CommandLine.PairsKeys` | ms_agent/config/config.py:168-175 | the loop stores exactly the names it started with plus the names of the keys it reads |
| `CommandLine.PairsLastWins` | ms_agent/config/config.py:175 | the last key read under a name decides that name's value |
| `CommandLine.PairsUntouched` | ms_agent/config/config.py:175 | a stored name that no later key mentions keeps its value |
| `CommandLine.FirstTokenIgnored` | ms_agent/config/config.py:168 | the first token is never read: replacing it changes neither success nor the map |
| `CommandLine.TrailingTokenIgnored` | ms_agent/config/config.py:168-170 | an unpaired trailing token is dropped: it changes neither success nor the map |
| `Paths.Join` | ms_agent/config/config.py:95 | `os.path.join` of two components; `BasenameOfJoin` and `DirnameOfJoin` invert it |
| `Paths.Basename` | ms_agent/config/config.py:90 | `os.path.basename`; `BasenameHasNoSlash` and `BasenameOfJoin` state it |
| `Paths.Dirname` | ms_agent/config/config.py:91 | `os.path.dirname`; `DirnameOfJoin` states it |
| `Paths.BasenameHasNoSlash` | ms_agent/config/config.py:90 | the base name of a path is a suffix of it without separators |
| `Paths.BasenameOfJoin` | ms_agent/config/config.py:95 | the base name of a directory joined with a separator-free name is that name |
| `Paths.DirnameOfJoin` | ms_agent/config/config.py:91 | the directory part of a plain directory joined with a separator-free name is that directory |
| `Paths.SplitAfterSeparator` | ms_agent/config/config.py:90 | a separator-free tail after a separator is exactly the base name |
| `Finisher.FillMissingFields` | ms_agent/config/config.py:123-138 | filling succeeds exactly on a mapping; an absent or null `tools` becomes an empty mapping and an absent or null `callbacks` an empty sequence; present non-null values and all other fields are unchanged |
| `Finisher.FillIsIdempotent` | ms_agent/config/config.py:133-138 | filling twice is filling once |
| `Finisher.FillKeepsKeys` | ms_agent/config/config.py:133-138 | filling keeps the existing names in order and only appends `tools` or `callbacks` |
| `Finisher.IsWorkflow` | ms_agent/config/config.py:141-151 | classification fails exactly when `name` is absent or null; otherwise it is true exactly when `name` is `workflow.yaml` or `workflow.yml` |
| `Resolve.LocalPath` | ms_agent/config/config.py:81-82 | the download step for a missing path; `ResolveProperties.LocateFile` and `LocateFetched` state its effect on the locator |
| `Resolve.Search` | ms_agent/config/config.py:94-104 | the search from a position fails with NotFound, naming the directory and the whole candidate list, exactly when no candidate from that position exists |
| `Resolve.SearchPicksFirst` | ms_agent/config/config.py:94-99 | otherwise the first existing candidate decides: its document under its name, or Unreadable when it is not a file |
| `Resolve.LocateLocal` | ms_agent/config/config.py:87-99 | a located document is a stored file's content; from a directory its name is a supported name and it lies at directory/name |
| `Resolve.Locate` | ms_agent/config/config.py:80-104 | the locator; `LocateFile`, `LocateFetched`, `LocateDirectory`, `LocateNotFound` and `LocatedIsAFile` state it |
| `Resolve.ApplyOverrides` | ms_agent/config/config.py:106-112 | the environment pass, then the command-line pass; `CommandLineBeatsEnvironment` and `OverridesKeepNames` state it |
| `Resolve.Finish` | ms_agent/config/config.py:114-119 | after the overrides `name` and `local_dir` hold the located values; an absent or null `tools`/`callbacks` becomes an empty mapping/sequence while a present non-null one keeps its value; other fields keep their values |
| `Resolve.FromTask` | ms_agent/config/config.py:68-120 | `from_task`; `FromTaskRecordsOrigin`, `OverridesNeverChangeOrigin`, `ResolvedOverridePrecedence`, `ResolvedKeepsUniqueNames` and `ResolvedClassification` state it |
| `ResolveProperties.LocateFile` | ms_agent/config/config.py:88-91 | an existing file is loaded with its base name and its directory |
| `ResolveProperties.LocateFetched` | ms_agent/config/config.py:81-82 | a path that does not exist is fetched and the fetched path is located; a failed fetch fails |
| `ResolveProperties.LocateDirectory` | ms_agent/config/config.py:92-99 | in a directory the first existing supported name is chosen, workflow names before agent names |
| `ResolveProperties.LocateNotFound` | ms_agent/config/config.py:101-104 | a directory without any supported name fails with NotFound naming the directory and all four names, and only then |
| `ResolveProperties.LocatedIsAFile` | ms_agent/config/config.py:80-99 | every located document is the content of a file whose base name is the recorded name |
| `ResolveProperties.LocalIsAFile` | ms_agent/config/config.py:87-99 | the same for a local path, after any download |
| `ResolveProperties.FromTaskRecordsOrigin` | ms_agent/config/config.py:106-120 | a resolved document is a mapping whose `name` and `local_dir` are the located ones and whose `tools` and `callbacks` are non-null |
| `ResolveProperties.OverridesNeverChangeOrigin` | ms_agent/config/config.py:106-116 | two resolutions of the same source with any overrides agree on `name` and `local_dir` |
| `ResolveProperties.CommandLineBeatsEnvironment` | ms_agent/config/config.py:106-112 | after both override passes, a top-level scalar field holds the command-line value when the command line names it, else the environment value when the environment names it |
| `ResolveProperties.ResolvedOverridePrecedence` | ms_agent/config/config.py:106-116 | in the whole resolution, the same precedence holds for every top-level scalar field other than `name` and `local_dir` |
| `ResolveProperties.MergeKeepsNames` | ms_agent/config/config.py:196-206 | an override pass keeps a mapping's names in place |
| `ResolveProperties.ResolvedKeepsUniqueNames` | ms_agent/config/config.py:106-119 | resolution keeps the top-level names of the document unique |
| `ResolveProperties.OverridesKeepNames` | ms_agent/config/config.py:106-112 | the environment and command-line passes together keep a mapping's top-level names, in order |
| `ResolveProperties.FinishKeepsStringField` | ms_agent/config/config.py:113-119 | recording the origin and filling keep a string field other than `name` and `local_dir` |
| `ResolveProperties.FinishKeepsUniqueNames` | ms_agent/config/config.py:113-119 | assigning `local_dir` and `name` and filling missing fields never introduces a duplicate name |
| `ResolveProperties.ResolvedClassification` | ms_agent/config/config.py:150-151 | a resolved document is a workflow exactly when the locator matched a workflow file name |
| `ResolveProperties.WorkflowNamesComeFirst` | ms_agent/config/config.py:63-65 | the workflow names are the first two supported names |
| `ResolveProperties.PlaceholderUnderUnmatchedNameFails` | ms_agent/config/config.py:207-212 | `{model: "<model_name>", retries: 3}` with `{model_name, retries}` overridden fails on `model` |
| `ResolveProperties.PlaceholderTakesOverrideOfEntryName` | ms_agent/config/config.py:203-212 | with `model` also overridden, the placeholder entry takes the override of `model`, and the integer `retries` becomes the string override |
| `ResolveProperties.AgentOnlyDirectory` | ms_agent/config/config.py:94-99 | a directory holding only `agent.yml` resolves to it, and the result is not a workflow |
| `Mcp.Tools` | ms_agent/config/config.py:248 | `getattr(config, 'tools', None)`: the `tools` field of a mapping, none otherwise |
| `Mcp.IsMcp` | ms_agent/config/config.py:252 | `getattr(server_config, 'mcp', True)`; `SelectMcpMembers` states which tools it admits |
| `Mcp.SelectMcp` | ms_agent/config/config.py:250-254 | the filtering loop; `SelectMcpMembers` (membership), `SelectMcpAppend` (order) and `SelectMcpFind` (lookup) state it |
| `Mcp.ConvertMcpServers` | ms_agent/config/config.py:245-255 | the projection fails exactly when `tools` is truthy but not a mapping; otherwise it has the single key `mcpServers`, empty when `tools` is absent or falsy, holding exactly the tool entries whose `mcp` is truthy or absent, copied whole |
| `Mcp.SelectMcpMembers` | ms_agent/config/config.py:250-254 | a tool entry is selected exactly when it is served over MCP, unchanged, `mcp` field included |
| `Mcp.SelectMcpAppend` | ms_agent/config/config.py:250-254 | selection keeps registry order: the selection of a concatenation is the concatenation of the selections |
| `Mcp.SelectMcpUnique` | ms_agent/config/config.py:250-254 | the projection of a registry with unique names has unique names, as the result dict does |
| `Mcp.SelectMcpFind` | ms_agent/config/config.py:250-254 | with unique tool names, a name reads back from the projection exactly when its tool is served over MCP, with the whole tool entry |
| `Mcp.FindCons` | ms_agent/config/config.py:250 | reading a name from a mapping starting with an entry: that entry's value if it has the name, else the rest's |
| `Mcp.NotFoundAfterHead` | ms_agent/config/config.py:250 | in a mapping with unique names, the head's name does not occur in the tail |
| `Mcp.RegistryProjection` | ms_agent/config/config.py:248-254 | any document whose `tools` is a mapping projects to the selection from that mapping, in registry order |
| `Mcp.ProjectionKeepsFlag` | ms_agent/config/config.py:245-255 | `{a: {mcp: true, x: 1}, b: {mcp: false, x: 2}, c: {x: 3}}` projects to `{mcpServers: {a: {mcp: true, x: 1}, c: {x: 3}}}` |

## Left out

- Document parsing (`OmegaConf.load`): the abstract filesystem maps each file to its parsed tree. Parse errors are not modelled.
- OmegaConf semantics: interpolation, struct mode, typed nodes, non-string mapping keys, floats. An attribute is present exactly when its key is in the mapping. Interpolation and missing-value (`???`) errors raised while iterating a mapping are not modelled.
- Mcp.ConvertMcpServers: its own contract states membership only; registry order is stated by `Mcp.RegistryProjection` together with `Mcp.SelectMcpAppend`, and unique names in the projection by `Mcp.SelectMcpUnique`.
- `snapshot_download` is the parameter `fetch: string -> Option<string>`; `None` stands for its exception. Its side effect on the disk is not modelled: the one `FileSystem` is read both before and after the fetch, so it stands for the filesystem after the download has run.
- Filesystem checks (`os.path.exists`, `isfile`) read the abstract filesystem: a set of files with contents and a set of directories.
- `Env.load_env` is not part of this model: its output is the `env` override map given to the pipeline.
- `argparse.parse_known_args` reads the process arguments: the unrecognised token list is a parameter.
- `logger.info` calls are logging only and have no model.
- `ConfigLifecycleHandler.task_begin`/`task_end` return their argument unchanged; they have no model.
- The class attribute `tag` is unused by the resolver.
- `deepcopy`: values are immutable, so the copy is the value itself.
- Partial mutation on failure: a failing pass returns only the error, not the half-updated tree.
- Error messages: each error carries its data (key, path, directory, candidate list, tokens) instead of the formatted text.
- `MergeProperties.MergeFailsIffBroken`: states that the failure is a missing override but not which entry's name it carries. The model, like the source, stops at the first broken entry in depth-first order.
- An absent `extra` (`None`) is the empty map: both take the same early return.
