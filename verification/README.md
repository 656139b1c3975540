# Affected apps of a change set

This project models the affected-apps computation of the Nx workspace
schematics (`packages/schematics/src/command-line/affected-apps.ts`). A
workspace is a list of projects. Each project has a unique name, a flag
saying whether it is a deployable app, and the paths of the files it owns.
Given the npm scope, the projects, a way to read and parse a file, and the
files touched by a change set, the computation answers: which apps must be
rebuilt?

It works in four steps:

1. Every path is normalised: each run of `/` and `\` becomes one `/`.
2. The `Deps` object sorts the project list in place, longest name first.
3. It walks the syntax tree of every `.ts` file. It collects import
   specifiers and the string literals assigned to `loadChildren`. Each
   reference is resolved to the first project, in that sorted order, whose
   `@<scope>/<name>` it is, or starts with followed by `#` or `/`. This
   builds a direct-edge graph, and every project's closure over that graph
   is computed by a depth-first walk that tracks its path.
4. Every touched file is mapped to the first project that owns it. A file
   that no project owns makes every app affected. Otherwise an app is
   affected when its closure holds a touched project.

Modules:

- `Paths`: path normalisation.
- `Syntax`: the parsed file as a closed set of node shapes, and the
  reference extraction.
- `Projects`: projects, normalisation, and the longest-first sort.
- `Resolution`: from a reference to a project name.
- `Graph`: edge graphs, reachability, and the path-tracking closure.
- `DepsBuilder`: the `Deps` class over an `array` it sorts in place, and
  `Dependencies`.
- `Affected`: the selection and `AffectedApps`.
- `Example`: a two-project workspace worked out end to end.

How the code behaves, as modelled here:

- **The closure is exact.** For each project, the closure lists the project
  itself first and then every project reachable from it, each exactly once.
  This holds on cyclic graphs too (`Graph.ClosureExact`). The path guard
  only stops a walk from re-entering its own ancestors. Every reachable
  project still lies on some walk that avoids them.
- **Touched files are not deduplicated.** They are mapped one by one. The
  result only depends on which files are touched, not on their order or on
  repeats (`Affected.TouchedOrderIrrelevant`).
- **The caller's list is reordered.** `affectedApps` passes its normalised
  list to `dependencies`, which sorts it in place. `affectedApps` then finds
  owners and lists apps in that sorted order. The model keeps this
  aliasing: `AffectedApps` builds one array, `Dependencies` sorts it, and
  the selection reads it afterwards.

## Model

| member | source | states |
|---|---|---|
| Paths.NormalizePath | packages/schematics/src/command-line/affected-apps.ts:40 | Normalising one path leaves no backslash and no doubled slash. It is never longer than the input, it is empty exactly when the input is, and it starts with `/` exactly when the input starts with a separator. |
| Paths.NormalizePathAppend | packages/schematics/src/command-line/affected-apps.ts:40 | Cut a path just after a character that is not a separator, and the two parts normalise on their own: no run of separators straddles the cut. |
| Paths.NormalizePathRun | packages/schematics/src/command-line/affected-apps.ts:40 | Every maximal run of separators, whatever its length and mix of `/` and `\`, becomes exactly one `/`. The text on either side normalises independently. |
| Paths.NormalizePathKeepsText | packages/schematics/src/command-line/affected-apps.ts:40 | Only separators change: the characters that are not separators stay, in the same order. |
| Paths.NormalizePathFixesCanonical | packages/schematics/src/command-line/affected-apps.ts:40 | A path with no backslash and no doubled slash is returned unchanged. |
| Paths.NormalizePathIdempotent | packages/schematics/src/command-line/affected-apps.ts:40 | Normalising twice gives the same path as normalising once. |
| Paths.NormalizeFiles | packages/schematics/src/command-line/affected-apps.ts:39-41 | The list keeps its length, and entry i is normalised from input entry i. |
| Paths.NormalizeFilesIdempotent | packages/schematics/src/command-line/affected-apps.ts:39-41 | Every normalised entry is canonical, and normalising the list again changes nothing. |
| Paths.NormalizeFilesSameMembers | packages/schematics/src/command-line/affected-apps.ts:39-41 | Two path lists with the same members still have the same members after normalisation. |
| Projects.NormalizeProjects | packages/schematics/src/command-line/affected-apps.ts:30-37 | A new list of the same length. Each project keeps its name and app flag, and its files are normalised. |
| Projects.Names | packages/schematics/src/command-line/affected-apps.ts:149-151 | The names, one per project, in list order. |
| Projects.Insert | packages/schematics/src/command-line/affected-apps.ts:55-59 | Inserting into a longest-first list keeps it longest-first. The result is the old list plus exactly the new project. |
| Projects.SortLongestFirst | packages/schematics/src/command-line/affected-apps.ts:55-59 | The sort yields a permutation of the list (same multiset) in which no name is followed by a longer one. |
| Projects.SortReversesTies | packages/schematics/src/command-line/affected-apps.ts:55-59 | Of two projects whose names have equal length, the one listed second comes out first. |
| Syntax.LiteralValue | packages/schematics/src/command-line/affected-apps.ts:145-147 | The first and last characters are dropped. A text shorter than two characters gives "". |
| Syntax.PropertyName | packages/schematics/src/command-line/affected-apps.ts:121-130 | Identifier and string-literal keys give their text. Every other kind of key gives nothing (null). |
| Syntax.IsTs | packages/schematics/src/command-line/affected-apps.ts:97 | `path.extname(f) === '.ts'`: the name ends in `.ts`, and the character before `.ts` exists and is not `/`. |
| Syntax.References | packages/schematics/src/command-line/affected-apps.ts:103-119 | processNode as a function from a tree to the strings it extracts, in document order. Its meaning is stated by `Syntax.ReferencesYields`. |
| Syntax.ReferencesOf | packages/schematics/src/command-line/affected-apps.ts:117 | `forEachChild`: the children walked left to right, their strings concatenated. Its meaning is stated by `Syntax.ReferencesOfYields`. |
| Syntax.FileReferences | packages/schematics/src/command-line/affected-apps.ts:96-101 | A file that is not `.ts` contributes no reference. |
| Syntax.ReferencesYields | packages/schematics/src/command-line/affected-apps.ts:103-119 | A string is extracted from a tree exactly when some node the walk reaches is an import with that specifier, or a `loadChildren` assignment of that string literal. |
| Syntax.ReferencesOfYields | packages/schematics/src/command-line/affected-apps.ts:117 | The same, for the children walked left to right. |
| Syntax.ChildrenVisited | packages/schematics/src/command-line/affected-apps.ts:117 | Every child of a node of another kind is walked. |
| Syntax.NotDescended | packages/schematics/src/command-line/affected-apps.ts:104-115 | Imports and property assignments are not descended into. They give at most one reference, and an import gives exactly its specifier's value. |
| Resolution.Qualified | packages/schematics/src/command-line/affected-apps.ts:135-137 | `@<scope>/<name>` has the name as its suffix after the scope. |
| Resolution.Matches | packages/schematics/src/command-line/affected-apps.ts:134-137 | A reference matches a name when it is `@<scope>/<name>`, or starts with that followed by `#` or `/`. `Resolution.MatchForms` states the three forms. |
| Resolution.FirstMatch | packages/schematics/src/command-line/affected-apps.ts:133-138 | `filter(...)[0]`: whatever is returned is a name of the list that the reference matches. `Resolution.FirstMatchSpec` adds that it is the first one. |
| Resolution.FirstMatchSpec | packages/schematics/src/command-line/affected-apps.ts:133-138 | Nothing is returned exactly when no name matches. Otherwise the result is the matching name at the lowest index. |
| Resolution.ResolvedEdge | packages/schematics/src/command-line/affected-apps.ts:132-143 | At most one edge is added, and it names a project and is never the empty name, because `if (matchingProject)` is false for "". |
| Resolution.ResolvedEdges | packages/schematics/src/command-line/affected-apps.ts:132-143 | Every edge added names a project and is non-empty. There are no more edges than references. |
| Resolution.MatchForms | packages/schematics/src/command-line/affected-apps.ts:135-137 | `@s/n`, `@s/n#…` and `@s/n/…` match `n`. `@s/n` followed by anything else (`@s/nx`) does not. |
| Resolution.MatchUnique | packages/schematics/src/command-line/affected-apps.ts:133-138 | Two different names of the same length never match the same reference. |
| Resolution.LongestMatchWins | packages/schematics/src/command-line/affected-apps.ts:133-138 | With the names longest-first, the name chosen is at least as long as any other name the reference matches. |
| Resolution.ResolutionIgnoresTies | packages/schematics/src/command-line/affected-apps.ts:55-59 | Any two longest-first orders of the same names resolve every reference alike. How the sort breaks ties does not matter. |
| Graph.Dedup | packages/schematics/src/command-line/affected-apps.ts:93 | Repeats are removed: the same elements, each once, and the first element stays first. |
| Graph.TransitiveDeps | packages/schematics/src/command-line/affected-apps.ts:84-94 | The walk returns the project first, repeats nothing, and returns only projects of the graph. It terminates because the path grows within the finite key set. |
| Graph.Accumulate | packages/schematics/src/command-line/affected-apps.ts:85-91 | The loop's `res` starts with the project and holds projects of the graph only. |
| Graph.AccumulateElems | packages/schematics/src/command-line/affected-apps.ts:85-91 | After k steps, `res` holds the project plus what the calls for the first k dependencies not on the path returned. |
| Graph.TransitiveDepsSound | packages/schematics/src/command-line/affected-apps.ts:84-94 | Everything the walk returns is the project itself, or is reached from it by a walk whose later steps avoid the path. |
| Graph.TransitiveDepsComplete | packages/schematics/src/command-line/affected-apps.ts:84-94 | Everything reachable by a walk that avoids the path is returned. |
| Graph.ClosureExact | packages/schematics/src/command-line/affected-apps.ts:84-94 | Called with `[project]`, the walk returns exactly the projects reachable from the project in zero or more steps. |
| Graph.ClosureTable | packages/schematics/src/command-line/affected-apps.ts:76-82 | Every project with an entry gets a closure, and no other key appears. |
| Graph.ClosureTableExact | packages/schematics/src/command-line/affected-apps.ts:76-94 | Each closure starts with its project, has no repeats, and holds exactly the reachable projects. The table is closed under its own edges. |
| Graph.DirectInClosure | packages/schematics/src/command-line/affected-apps.ts:87-89 | A direct dependency is always in the closure. |
| Graph.ThreeCycle | packages/schematics/src/command-line/affected-apps.ts:88 | On the cycle A → B → C → A, the path guard stops the walk, and each project still gets all three. |
| DepsBuilder.FilesEdges | packages/schematics/src/command-line/affected-apps.ts:70-72 | The edges a project's files add name projects only. |
| DepsBuilder.DirectGraph | packages/schematics/src/command-line/affected-apps.ts:62-74 | The direct-edge graph has exactly one entry per project name. |
| DepsBuilder.SortedNamesLongestFirst | packages/schematics/src/command-line/affected-apps.ts:149-151 | The names of the sorted projects are in the longest-first order that `Resolution.LongestMatchWins` assumes. |
| DepsBuilder.GraphAfter | packages/schematics/src/command-line/affected-apps.ts:68-74 | After any number of projects, there is exactly one entry per project name. |
| DepsBuilder.DirectGraphClosed | packages/schematics/src/command-line/affected-apps.ts:132-143 | The direct graph has one entry per project name, and every edge ends at one of them. |
| DepsBuilder.ResolvedEdgesIff | packages/schematics/src/command-line/affected-apps.ts:132-143 | d is among the edges of a list of references exactly when one of them resolves to d. |
| DepsBuilder.FilesEdgesIff | packages/schematics/src/command-line/affected-apps.ts:70-72 | A project's files give an edge to d exactly when one of its files holds a reference that resolves to d. |
| DepsBuilder.EdgesOfIff | packages/schematics/src/command-line/affected-apps.ts:68-74 | The same, over every project of the given name. |
| DepsBuilder.DirectGraphEdges | packages/schematics/src/command-line/affected-apps.ts:68-74 | Edge n → d is in the graph exactly when a file of project n holds a reference that resolves to d against all the names in sorted order. |
| DepsBuilder.NonTsFileHasNoEdges | packages/schematics/src/command-line/affected-apps.ts:97 | A file whose extension is not `.ts` contributes no edge. |
| DepsBuilder.Deps.constructor | packages/schematics/src/command-line/affected-apps.ts:54-60 | The caller's array is left sorted longest-first (a permutation of its old contents), and the scope and reader are kept. |
| DepsBuilder.Deps.ProjectNames | packages/schematics/src/command-line/affected-apps.ts:149-151 | The `projectNames` getter: one name per project in the array, in array order. |
| DepsBuilder.Deps.CalculateDeps | packages/schematics/src/command-line/affected-apps.ts:62-66 | The field ends up equal to the direct graph of the sorted list. The result is that graph's closure table. |
| DepsBuilder.Deps.ProcessAllFiles | packages/schematics/src/command-line/affected-apps.ts:68-74 | Starting from an empty entry per name, processing every file of every project in order gives the direct graph. |
| DepsBuilder.Deps.IncludeTransitive | packages/schematics/src/command-line/affected-apps.ts:76-82 | The result is the closure table of the field. |
| DepsBuilder.Deps.TransitiveDeps | packages/schematics/src/command-line/affected-apps.ts:84-94 | The loop and the recursion compute `Graph.TransitiveDeps`. |
| DepsBuilder.Deps.ProcessFile | packages/schematics/src/command-line/affected-apps.ts:96-101 | Only this project's entry changes, and it grows by the resolved references of the file; a file that is not `.ts` adds none. |
| DepsBuilder.Deps.ProcessNode | packages/schematics/src/command-line/affected-apps.ts:103-119 | Only this project's entry changes, and it grows by the resolved references of the tree, in document order. |
| DepsBuilder.Deps.AddDepIfNeeded | packages/schematics/src/command-line/affected-apps.ts:132-143 | Only this project's entry changes, and it grows by the resolved edge of the reference. |
| DepsBuilder.Dependencies | packages/schematics/src/command-line/affected-apps.ts:43-49 | The caller's array is sorted longest-first, and the result is the closure table of the direct graph of that sorted list. |
| Affected.Owner | packages/schematics/src/command-line/affected-apps.ts:17-18 | Nothing is returned exactly when no project owns the file. Otherwise the result is the name of the first project that owns it. |
| Affected.TouchedProjects | packages/schematics/src/command-line/affected-apps.ts:16-19 | One owner (or null) per touched file, in order. |
| Affected.AppNames | packages/schematics/src/command-line/affected-apps.ts:22 | A name is listed exactly when it is the name of an app. |
| Affected.Hit | packages/schematics/src/command-line/affected-apps.ts:26 | `deps[p.name].filter(dep => touchedProjects.indexOf(dep) > -1).length > 0`: some project of the closure is a touched project. |
| Affected.Selected | packages/schematics/src/command-line/affected-apps.ts:25-27 | A name is listed exactly when it is an app's name and that app's closure holds a touched project. |
| Affected.AffectedFrom | packages/schematics/src/command-line/affected-apps.ts:21-27 | Only app names are ever returned. |
| Affected.UnownedFileAffectsAllApps | packages/schematics/src/command-line/affected-apps.ts:21-23 | One touched file that no project owns makes the result every app, whatever else is touched. |
| Affected.AffectedExact | packages/schematics/src/command-line/affected-apps.ts:16-27 | When every touched file has an owner, x is in the result exactly when x is an app and its closure holds the owner of some touched file. |
| Affected.SelectedAgree | packages/schematics/src/command-line/affected-apps.ts:26 | The selection depends on the touched projects only as a set. |
| Affected.TouchedOrderIrrelevant | packages/schematics/src/command-line/affected-apps.ts:16-27 | Touched lists with the same members give the same result. |
| Affected.TouchedPermutation | packages/schematics/src/command-line/affected-apps.ts:16-27 | A permutation of the touched files gives the same result. |
| Affected.RawTouchedSameMembers | packages/schematics/src/command-line/affected-apps.ts:13-27 | Over the normalised, sorted workspace, raw touched lists with the same members give the same apps. Normalisation is applied before the comparison. |
| Affected.RawTouchedPermutation | packages/schematics/src/command-line/affected-apps.ts:13-27 | A permutation of the raw touched files gives the same apps. |
| Affected.Sorted | packages/schematics/src/command-line/affected-apps.ts:12-14 | The list the selection reads: the normalised projects, sorted in place by `dependencies`. It is longest-first, a permutation of the normalised list, and of the same length. |
| Affected.TableCovers | packages/schematics/src/command-line/affected-apps.ts:63 | Every project has a closure entry, so `deps[p.name]` is always defined. |
| Affected.AffectedApps | packages/schematics/src/command-line/affected-apps.ts:6-28 | The result is the selection over the normalised, sorted list, using the closure table of its direct graph and the normalised touched files. |
| Affected.DependentAppAffected | packages/schematics/src/command-line/affected-apps.ts:6-28 | An app that reaches, directly or through other projects, the owner of a touched file is always affected. |
| Affected.AffectedIffReachable | packages/schematics/src/command-line/affected-apps.ts:6-28 | When every touched file has an owner, an app is affected exactly when the owner of some touched file is reachable from it in the direct graph. |
| Example.MainReferences | packages/schematics/src/command-line/affected-apps.ts:104-106 | `import x from '@org/lib1'` yields the reference `@org/lib1`. |
| Example.SortedWorkspace | packages/schematics/src/command-line/affected-apps.ts:55-59 | Normalising changes nothing for `[app1, lib1]`. The sort reverses the two equal-length names and gives `[lib1, app1]`. |
| Example.ExampleEdges | packages/schematics/src/command-line/affected-apps.ts:62-74 | The graph has the keys `lib1` and `app1`. The entry of `app1` is exactly `[lib1]`, and the entry of `lib1` is empty. |
| Example.TouchingLibAffectsApp | packages/schematics/src/command-line/affected-apps.ts:6-28 | Touching `libs/lib1/index.ts` affects exactly `app1`. |
| Example.TouchingUnownedAffectsApp | packages/schematics/src/command-line/affected-apps.ts:21-23 | Touching `nowhere.ts`, which no project owns, affects exactly `app1`, the only app. |

## Left out

- Parsing is not modelled. `fileRead` followed by `ts.createSourceFile` becomes one total function from a path to a syntax tree (`Syntax.Node`). The tree keeps only the four node shapes the walk tells apart. Failures to read a file are not modelled.
- `getText()` of a node is the node's source text as stored in the tree. The exact rules by which the TypeScript scanner produces it are not modelled.
- Syntax.IsTs: `path.extname(f) === '.ts'` is read as "the name ends in `.ts`, and the character before `.ts` exists and is not `/`". So `a/.ts`, a bare dot-file, does not count, while `..ts` and `a/..ts` do, as with Node. Other corners of Node's `path.extname` are not modelled.
- Projects.SortLongestFirst: the comparator in the source never returns 0, and it returns -1 whenever either name is empty. So the order it gives for names of equal length, and where an empty name ends up, depend on the JavaScript engine's sort. The model fixes one order: an insertion sort that puts names of equal length in the reverse of their input order (`Projects.SortReversesTies`) and an empty name last. That order decides two things the source leaves to the engine. First, `Affected.Owner` when one file is listed under two projects whose names have equal length. Second, the order of the returned app list. `Resolution.ResolutionIgnoresTies` shows that the tie order changes no resolution for non-empty names.
- Projects.SortLongestFirst: a name's length is counted in Unicode characters (`|name|` of a Dafny string), while the source's `name.length` counts UTF-16 code units. The two differ for names with characters outside the Basic Multilingual Plane.
- Paths.NormalizePath: the regular expression `/[\\\/]+/g` is modelled as an explicit recursion over each run of separators, not through a regex engine.
- JavaScript object keys are modelled as a Dafny `map`. Key enumeration order is irrelevant to the result, and prototype keys such as `__proto__` are not modelled.
- Running time and stack depth of the path-tracking walk, which is exponential in the worst case, are not modelled.
