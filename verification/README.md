# syster semantic core in Dafny

This project models the semantic and AST-building layer of syster, a language
server for SysML v2 and KerML. The model covers nine parts:

- **File dependency graph** (`DependencyGraph`). It keeps two maps of sets, `dependencies` and
  `dependents`, that mirror each other. Its operations are `add_dependency`,
  `remove_file`, the one-hop queries, `dependencies_count`, the worklist
  traversal `get_all_affected` and the depth-first cycle search
  `has_circular_dependency`. The events the graph emits are kept as an appended log.
- **Reference collector** (`ReferenceCollector`, with the symbol table and
  relationship graph in `Symbols`). A symbol that has both a span and a source
  file records one `{file, span}` reference per relationship target. The
  references are grouped by target name. Each group is then filed under the
  first symbol whose key or unqualified name matches that name.
- **KerML population protocol** (`KermlPopulation`). The adapter enters the
  root namespace, visits every element, exits the namespace and then drains
  its errors.
- **Adapter dispatch** (`SyntaxFactory`). SysML files go to the SysML
  adapter. KerML files are skipped with success.
- **Document outline** (`DocumentSymbols`). Keeps the symbols of one file
  that have a span and maps each to an outline entry.
- **AST builders**: `PestTree` holds the parse-tree walks. `SysmlParsers`
  (definition and usage parsing), `KermlParsers` (classifier and feature
  parsing) and `SysmlNodes` (`FromPest` for packages and definitions) build
  on it.
- **Standard-library loader** (`StdlibLoader`). Collects files by extension
  from a directory tree, parses them by extension, adds the successes to the
  workspace and latches the stdlib flag.

Where the source iterates a hash container, the model gives no order.
`get_all_affected` and the one-hop queries return sets. The collector picks
the next target group with `:|`, and each symbol's added references are
stated as a multiset. Helpers whose source is not part of this model are
function-typed parameters: the pest grammar predicates, `find_name`,
`to_span`, `span_to_lsp_range`, the visitor steps and the SysML adapter's
`populate`.

## Where the documentation and the code differ

The doc comment of `has_circular_dependency` (src/semantic/dependency_graph.rs:107)
says it checks whether the file "is part of a circular dependency". The
code at lines 114-142 returns true
whenever a cycle can be reached from the file along dependency edges. The
model follows the code. `HasCircularDependency` is proved equivalent to
`CycleReachable`. `ReachableCycleIsNotOwnCycle` shows a graph where `a`
imports `b` and `b` imports itself. There the search answers true for `a`,
although `a` is on no cycle.

Nothing in the symbol table forces keys to be unique, and the collector does
not rely on them being unique: it looks up the key of the first matching entry again with
`lookup_global_mut`. The model keeps both lookups. `ResolveTargetUniqueKeys`
shows they agree when keys are unique.

## Model

| member | source | states |
|---|---|---|
| DependencyGraph.AddDependency | src/semantic/dependency_graph.rs:41-61 | afterwards `to` is among `from`'s dependencies and `from` among `to`'s dependents; the edge sets gain exactly that edge; every other file's sets are unchanged; the mirror is preserved; `DependencyAdded(from, to)` is appended to the event log |
| DependencyGraph.RemoveFile | src/semantic/dependency_graph.rs:145-167 | `file` is no longer a key of either map and both its queries are empty; the surviving edges are exactly the old edges not touching `file` (with the mirror), so the mirror is preserved; `FileRemoved(file)` is logged even for an untracked file |
| DependencyGraph.GetDependencies | src/semantic/dependency_graph.rs:63-69 | yields exactly the files `file` imports, and nothing for an untracked file |
| DependencyGraph.GetDependents | src/semantic/dependency_graph.rs:71-77 | yields exactly the files importing `file`, and nothing for an untracked file |
| DependencyGraph.MirroredQueries | src/semantic/dependency_graph.rs:41-50 | on a mirrored graph, `b` is a dependency of `a` exactly when `a` is a dependent of `b` |
| DependencyGraph.AddExistingDependency | src/semantic/dependency_graph.rs:41-50 | re-adding an edge already present leaves both maps and the dependency count unchanged (set insertion) |
| DependencyGraph.AddNewDependency | src/semantic/dependency_graph.rs:169-172 | adding an absent edge raises the dependency count by exactly one |
| DependencyGraph.DependenciesCount | src/semantic/dependency_graph.rs:169-172 | the sum of the dependency set sizes equals the number of distinct dependency edges |
| DependencyGraph.GetAllAffected | src/semantic/dependency_graph.rs:79-105 | the worklist traversal terminates and returns exactly the files reachable from `file` by one or more dependents edges, never `file` itself, even when a cycle leads back to it |
| DependencyGraph.VisitDependents | src/semantic/dependency_graph.rs:90-101 | one traversal step adds every dependent of the current file except the start file to `affected`, and queues exactly the dependents not yet visited, each once |
| DependencyGraph.HasCycleDfs | src/semantic/dependency_graph.rs:114-142 | a true answer means a cycle is reachable from the root; a false answer keeps the search bookkeeping sound, leaves the recursion stack as it found it and marks the file visited |
| DependencyGraph.HasCircularDependency | src/semantic/dependency_graph.rs:107-112 | true exactly when some directed cycle is reachable from `file` along dependency edges |
| DependencyGraph.AcyclicHasNoReachableCycle | src/semantic/dependency_graph.rs:114-142 | on a graph with no cycle the search answers false |
| DependencyGraph.ReachableCycleIsNotOwnCycle | src/semantic/dependency_graph.rs:107-142 | there is a graph and a file on no cycle for which the search answers true, so the result is not "part of a cycle" |
| DependencyGraph.ApplyKeepsMirror | src/semantic/dependency_graph.rs:41-50 | any sequence of `add_dependency` and `remove_file` calls keeps the two maps exact mirrors |
| DependencyGraph.ApplyLogsEvents | src/semantic/events.rs:40-51 | each mutation logs exactly its own event, in the order applied |
| Symbols.FindByKeyOrName | crates/syster-base/src/semantic/reference_collector.rs:52-55 | the result is the first entry, in table order, whose key or unqualified name equals the target, or none when no entry matches |
| Symbols.LookupKey | crates/syster-base/src/semantic/reference_collector.rs:58 | the result is the first entry with exactly that key, or none |
| Symbols.ResolveTarget | crates/syster-base/src/semantic/reference_collector.rs:52-58 | a target resolves exactly when some entry matches it by key or name, and lands on an entry with the matched entry's key, never after it |
| Symbols.ResolveTargetUniqueKeys | crates/syster-base/src/semantic/reference_collector.rs:52-58 | with unique keys the second lookup lands on the matched entry itself |
| Symbols.ResolveIgnoresReferences | crates/syster-base/src/semantic/reference_collector.rs:45-50 | re-reading the table after references were added resolves every name as before |
| ReferenceCollector.GetAllTargetsCounts | crates/syster-base/src/semantic/reference_collector.rs:99-126 | a name occurs among a symbol's targets once if it is the typing target plus as often as it is stored under each of specialization, redefinition, subsetting and reference subsetting (duplicates kept); so it is a target iff one of these five relations links the symbol to it |
| ReferenceCollector.ManyTargetsCount | crates/syster-base/src/semantic/reference_collector.rs:110-123 | extending the target list kind by kind keeps every stored occurrence: each name occurs as often as the sum of its counts under the kinds walked |
| ReferenceCollector.CollectReferences | crates/syster-base/src/semantic/reference_collector.rs:68-96 | the grouping has a key exactly for the names some contributing symbol targets, and each group lists, in table order, one reference per target occurrence |
| ReferenceCollector.PushReferences | crates/syster-base/src/semantic/reference_collector.rs:83-88 | pushing one symbol's reference under each of its targets appends it to each target's group once per occurrence and creates missing groups |
| ReferenceCollector.RefsForSources | crates/syster-base/src/semantic/reference_collector.rs:83-88 | every grouped reference is exactly the source file and span of a contributing symbol that names the group's target |
| ReferenceCollector.TargetIsGrouped | crates/syster-base/src/semantic/reference_collector.rs:81-88 | a contributing symbol's reference is grouped under each of its targets |
| ReferenceCollector.NonContributingIgnored | crates/syster-base/src/semantic/reference_collector.rs:72-78 | a symbol without a span or source file contributes nothing: every group is the same with or without it |
| ReferenceCollector.AddReferences | crates/syster-base/src/semantic/reference_collector.rs:59-61 | appending a group changes only that symbol's reference list, which grows by exactly the group |
| ReferenceCollector.FileGroup | crates/syster-base/src/semantic/reference_collector.rs:45-63 | filing one group appends it to the symbol the name resolves to and changes nothing else; an unresolved name changes nothing |
| ReferenceCollector.FiledIntoAdd | crates/syster-base/src/semantic/reference_collector.rs:42-63 | filing one more group adds the whole group to the symbol its name resolves to and nothing to any other symbol |
| ReferenceCollector.Collect | crates/syster-base/src/semantic/reference_collector.rs:39-65 | only reference lists change, and only by appending; whatever order the groups are filed in, each symbol receives, as a multiset, exactly one reference per target occurrence that resolves to it |
| ReferenceCollector.UnresolvedSendsNothing | crates/syster-base/src/semantic/reference_collector.rs:57-63 | a symbol no target name resolves to receives nothing |
| KermlPopulation.VisitAll | crates/syster-base/src/semantic/adapters/kerml/population.rs:14-16 | the element walk visits every element once, in order, keeps the scope, and accumulates every element's errors without stopping |
| KermlPopulation.Populate | crates/syster-base/src/semantic/adapters/kerml/population.rs:7-29 | the scope depth is restored; the steps are enter (iff a namespace is declared), one visit per element, exit (iff entered); the result is `Ok` iff no errors accumulated, and on `Err` it returns all of them and leaves the adapter's list empty |
| KermlPopulation.NamespaceEnteredIffDeclared | crates/syster-base/src/semantic/adapters/kerml/population.rs:9-11 | the first step enters the declared namespace exactly when one is declared, and the last step exits exactly then |
| KermlPopulation.EachElementVisitedOnceInOrder | crates/syster-base/src/semantic/adapters/kerml/population.rs:14-16 | element `k` is visited at step `k` after the optional enter, and no other step is a visit |
| KermlPopulation.OkIffNoStepErrors | crates/syster-base/src/semantic/adapters/kerml/population.rs:23-28 | `Ok` exactly when no earlier error was pending and neither the namespace step nor any element step recorded one |
| KermlPopulation.ExitScope | crates/syster-base/src/semantic/adapters/kerml/population.rs:18-21 | leaving the namespace pops exactly the innermost scope entry (an empty scope stays empty), keeps the errors and records the exit step |
| SyntaxFactory.PopulateSyntaxFile | crates/syster-base/src/semantic/adapters/syntax_factory.rs:14-33 | a KerML file yields `Ok` and leaves the symbol table and relationship graph unchanged; a SysML file yields exactly what the SysML adapter's `populate` yields |
| SyntaxFactory.KermlFilesAreSkipped | crates/syster-base/src/semantic/adapters/syntax_factory.rs:24-31 | populating a mixed list of files gives the same state and errors as populating its SysML files alone |
| DocumentSymbols.GetDocumentSymbols | crates/syster-lsp/src/server/document_symbols.rs:8-46 | one outline entry per symbol of the file that has a span, in table order |
| DocumentSymbols.ShownIndices | crates/syster-lsp/src/server/document_symbols.rs:14-19 | the kept positions are strictly increasing and are exactly the symbols whose source file equals the path text and that have a span |
| DocumentSymbols.ShownExactlyOnce | crates/syster-lsp/src/server/document_symbols.rs:12-42 | a symbol is shown iff it is in the file and has a span, and no symbol is shown twice |
| DocumentSymbols.OutlineEntriesDescribeShownSymbols | crates/syster-lsp/src/server/document_symbols.rs:20-39 | every entry carries its symbol's name, its qualified name as detail, its variant's kind and its span's range; selection range equals range and there are no children |
| DocumentSymbols.KindOfClassifies | crates/syster-lsp/src/server/document_symbols.rs:22-27 | Namespace iff Package, Class iff Classifier or Definition, Property iff Feature or Usage, Variable iff Alias |
| DocumentSymbols.NonUtf8PathMatchesEmptyName | crates/syster-lsp/src/server/document_symbols.rs:14 | a path that is not valid UTF-8 shows exactly the symbols whose source file is the empty string |
| PestTree.TopPathsSound | crates/syster-base/src/syntax/sysml/ast/parsers.rs:24-32 | every listed position holds a matching node with no matching node above it |
| PestTree.TopPathsComplete | crates/syster-base/src/syntax/sysml/ast/parsers.rs:24-32 | every matching node with no matching node above it is listed |
| PestTree.TopPathsOrdered | crates/syster-base/src/syntax/sysml/ast/parsers.rs:24-32 | the positions are listed in strict pre-order |
| PestTree.TopPathsDistinct | crates/syster-base/src/syntax/sysml/ast/parsers.rs:24-32 | no position is listed twice, so each topmost match is converted once |
| PestTree.CollectIsTopmost | crates/syster-base/src/syntax/sysml/ast/parsers.rs:24-32 | the recursive walk appends exactly the nodes at the topmost matching positions, in pre-order |
| PestTree.FindChild | crates/syster-base/src/syntax/sysml/ast/parsers.rs:67-71 | the result is the first child whose rule matches, or none when no child matches |
| PestTree.AnyChild | crates/syster-base/src/syntax/kerml/ast/parsers.rs:15 | true exactly when some direct child's rule matches |
| SysmlParsers.ParseDefBody | crates/syster-base/src/syntax/sysml/ast/parsers.rs:18-32 | one member per topmost usage node, in pre-order, each that node parsed as a usage |
| SysmlParsers.ParseUsageBody | crates/syster-base/src/syntax/sysml/ast/parsers.rs:35-55 | one comment per topmost documentation or block-comment node, in pre-order, with the node's text as content and `Some` span |
| SysmlParsers.ParseDefinition | crates/syster-base/src/syntax/sysml/ast/parsers.rs:62-82 | fails iff the kind mapping fails; otherwise the kind is mapped, the span is `Some`, both flags are false, and the body comes from the first body-rule child or is empty |
| SysmlParsers.ParseUsage | crates/syster-base/src/syntax/sysml/ast/parsers.rs:85-107 | for a usage-kind rule: the kind is mapped, the span is `Some`, the flags come from the flag helper as (derived, readonly), and the body comes from the first `usage_body`/`requirement_body` child or is empty |
| SysmlParsers.DefBodyIsTopmostUsages | crates/syster-base/src/syntax/sysml/ast/parsers.rs:24-32 | the definition body lists each topmost usage node exactly once, in pre-order, and nothing beneath a usage |
| SysmlParsers.UsageNodeIsItsOwnBody | crates/syster-base/src/syntax/sysml/ast/parsers.rs:18-26 | a node that is itself a usage yields exactly one member, itself |
| SysmlParsers.UsageBodyIsTopmostComments | crates/syster-base/src/syntax/sysml/ast/parsers.rs:41-55 | a usage body lists each topmost comment node exactly once, in pre-order |
| KermlParsers.ParseClassifier | crates/syster-base/src/syntax/kerml/ast/parsers.rs:8-20 | fails iff the classifier kind mapping fails; abstract iff some direct child is an abstract marker; body empty; span `Some` |
| KermlParsers.ParseFeature | crates/syster-base/src/syntax/kerml/ast/parsers.rs:23-36 | flags come from the flag helper as (readonly, derived); body empty; span `Some` |
| KermlParsers.ParseFeatureIgnoresRule | crates/syster-base/src/syntax/kerml/ast/parsers.rs:23-36 | the node's own rule and text are never read: nodes with the same children and span give the same feature |
| KermlParsers.NestedMarkerIsIgnored | crates/syster-base/src/syntax/kerml/ast/parsers.rs:15 | an abstract marker below a direct child does not make the classifier abstract |
| SysmlNodes.PackageFromPest | src/language/sysml/ast/nodes.rs:9-25 | an empty iterator gives `NoMatch`; otherwise exactly one pair is consumed; success iff that pair is a `package_declaration`; the name is the first direct identification's text and elements are empty |
| SysmlNodes.DefinitionFromPest | src/language/sysml/ast/nodes.rs:32-59 | an empty iterator gives `NoMatch`; otherwise exactly one pair is consumed; success iff the rule is one of the six definition rules; the kind is mapped and the body is empty |
| SysmlNodes.DefinitionName | src/language/sysml/ast/nodes.rs:45-53 | a definition's name is exactly the first identification inside its first `definition_declaration` child, and none without such a child |
| SysmlNodes.FirstIdentification | src/language/sysml/ast/nodes.rs:16-20 | the text of the first `identification` child, none iff there is no such child |
| SysmlNodes.KindOfRuleIsBijective | src/language/sysml/ast/nodes.rs:36-44 | the six definition rules map one-to-one onto the six kinds and every other rule has no kind |
| SysmlNodes.PackageExample | src/language/sysml/ast/tests.rs:9-18 | `package MyPackage;` converts to a package named `MyPackage` with no elements |
| SysmlNodes.PartDefinitionExample | src/language/sysml/ast/tests.rs:20-30 | `part def Vehicle;` converts to a part definition named `Vehicle` with an empty body |
| SysmlNodes.IdentificationOutsideDeclarationIgnored | src/language/sysml/ast/nodes.rs:45-53 | an identification that is a direct child of the definition, not inside its declaration, does not name it |
| StdlibLoader.CollectRecursive | src/project/stdlib_loader.rs:85-106 | succeeds iff every listing and entry of the tree can be read, an unreadable top directory reporting its own read error; on success appends exactly the tree's supported regular files, in walk order |
| StdlibLoader.CollectFilePaths | src/project/stdlib_loader.rs:79-83 | succeeds iff the tree is readable, then yields exactly the tree's supported regular files |
| StdlibLoader.SupportedFilesExact | src/project/stdlib_loader.rs:93-101 | a path is collected exactly when it is a regular file of the tree with a supported extension |
| StdlibLoader.ParseFile | src/project/stdlib_loader.rs:108-140 | a read failure comes first; no extension is an error; `sysml` succeeds iff the parser does; `kerml` gives an empty file without parsing; any other extension is an unsupported-extension error |
| StdlibLoader.CollectedFileErrors | src/project/stdlib_loader.rs:93-140 | for a collected path the extension errors cannot occur: it fails iff it cannot be read or is a `sysml` file the parser rejects |
| StdlibLoader.AddParsed | src/project/stdlib_loader.rs:50-60 | every successfully parsed file is added, in input order; failures are dropped |
| StdlibLoader.Load | src/project/stdlib_loader.rs:35-77 | a missing stdlib directory gives `Ok` and leaves the workspace, including its stdlib flag, untouched; an unreadable tree gives `Err` with nothing added; otherwise the parsed files are added in order, the flag is set and the result is `Ok` whatever failed to parse |
| StdlibLoader.ParsedExact | src/project/stdlib_loader.rs:50-60 | a file is added exactly when some collected path parses to it |
| StdlibLoader.FailuresDropped | src/project/stdlib_loader.rs:56-58 | when every parse fails nothing is added |

## Left out

- The `EventEmitter` subscription (src/semantic/dependency_graph.rs:33-38) is left out. Listeners get the graph mutably and may change it arbitrarily, so emitted events are modelled only as an appended log.
- DependencyGraph.DependenciesCount: a `usize` sum could overflow in principle; the count is an unbounded `nat`.
- The one-hop queries, `get_all_affected` and the collector's grouping iterate hash containers. Their results are stated as sets or multisets, not as ordered lists.
- The `eprintln!` summary at crates/syster-base/src/semantic/reference_collector.rs:91-94 and the test-only failure log at src/project/stdlib_loader.rs:63-74 only write to stderr.
- Symbol table internals are not part of this model. `all_symbols` is the entry sequence, `lookup_global_mut` is the first entry with the key, and `add_reference` appends.
- The KerML visitor steps (`visit_namespace`, `visit_element`, `exit_namespace`) are not part of this model. `visit_namespace` is modelled as pushing the name and recording the errors a given function yields. `visit_element` records errors and keeps the scope. `exit_namespace` pops.
- The SysML adapter's `populate`, the pest grammar and the `utils` helpers (`is_usage_rule`, `is_body_rule`, `to_def_kind`, `to_usage_kind`, `to_classifier_kind`, `find_name`, `to_span`, `extract_relationships`, `extract_flags`, `extract_direction`) are function parameters. So is `span_to_lsp_range`.
- SysmlParsers.ParseUsage: requires a usage-kind rule, because the source unwraps and would panic otherwise.
- SysmlParsers.ParseDefBody: requires that every usage rule has a usage kind, because the walk calls `parse_usage` on every usage node. SysmlParsers.ParseDefinition inherits that requirement.
- The definition and usage member enums have more variants in the source. The model keeps only the variants these builders produce: usages in definition bodies and comments in usage bodies.
- `tags` and `deprecated` of an outline entry are always `None` and are not modelled.
- rayon's parallel parse is modelled as a sequential map. `par_iter().collect()` keeps input order, so the fan-in sees the same sequence.
- File-system access is an input. The directory tree is a datatype whose listings and entries may fail to read, and the file reader is a function. `exists() && is_dir()` on the stdlib path is whether a listing is given.
- `SUPPORTED_EXTENSIONS` is defined in a constants file that is not part of this model. Its value is taken as `sysml` and `kerml`, the two extensions the loader dispatches on and its tests collect.
- The workspace is modelled only as the sequence of `add_file` calls and the stdlib flag, because its internals are not part of this model. `StdLibLoader::new`/`with_path` only store a path.
- Error messages are modelled as tagged values that carry the path and the underlying message, not as formatted strings.
