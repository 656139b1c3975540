/** The dependency graph of a workspace: every project's files are walked for
    references, each reference is resolved to a project, and the direct edges
    are then closed transitively. */
module DepsBuilder {
  import opened Wrappers
  import Syntax
  import Projects
  import Resolution
  import Graph

  /** Sorting the projects longest-first puts their names in the order the
      resolver relies on. */
  lemma SortedNamesLongestFirst(ps: seq<Projects.Project>)
    ensures Resolution.LongestFirst(Projects.Names(Projects.SortLongestFirst(ps)))
  {
  }

  /** The edges the files `fs` of one project contribute, file by file. */
  function FilesEdges(scope: string, names: seq<string>, read: string -> Syntax.Node, fs: seq<string>): (r: seq<string>)
    ensures forall d :: d in r ==> d in names
  {
    if fs == [] then []
    else
      FilesEdges(scope, names, read, fs[..|fs| - 1])
      + Resolution.ResolvedEdges(scope, names, Syntax.FileReferences(read, fs[|fs| - 1]))
  }

  /** The edges recorded under `name` once the projects `ps` have been
      processed in order (every project of that name adds its files' edges). */
  function EdgesOf(scope: string, names: seq<string>, read: string -> Syntax.Node, ps: seq<Projects.Project>, name: string): (r: seq<string>)
    ensures forall d :: d in r ==> d in names
  {
    if ps == [] then []
    else
      var p := ps[|ps| - 1];
      EdgesOf(scope, names, read, ps[..|ps| - 1], name)
      + (if p.name == name then FilesEdges(scope, names, read, p.files) else [])
  }

  /** The direct-edge graph after the first `k` projects of `ps` have been
      processed: one entry per project name. */
  function GraphAfter(scope: string, ps: seq<Projects.Project>, read: string -> Syntax.Node, k: nat): (g: Graph.DepGraph)
    requires k <= |ps|
    ensures g.Keys == Graph.Elems(Projects.Names(ps))
  {
    map n | n in Graph.Elems(Projects.Names(ps)) :: EdgesOf(scope, Projects.Names(ps), read, ps[..k], n)
  }

  /** The direct-edge graph of the projects `ps`, walked in the order given. */
  function DirectGraph(scope: string, ps: seq<Projects.Project>, read: string -> Syntax.Node): (g: Graph.DepGraph)
    ensures g.Keys == Graph.Elems(Projects.Names(ps))
  {
    GraphAfter(scope, ps, read, |ps|)
  }

  lemma ResolvedEdgesAppend(scope: string, names: seq<string>, a: seq<string>, b: seq<string>)
    ensures Resolution.ResolvedEdges(scope, names, a + b)
         == Resolution.ResolvedEdges(scope, names, a) + Resolution.ResolvedEdges(scope, names, b)
    decreases |b|
  {
    if b == [] {
      assert a + b == a;
    } else {
      assert (a + b)[..|a + b| - 1] == a + b[..|b| - 1];
      assert (a + b)[|a + b| - 1] == b[|b| - 1];
      ResolvedEdgesAppend(scope, names, a, b[..|b| - 1]);
    }
  }

  /** Appending to an entry twice is appending both lists at once. */
  lemma AppendTwice(g: Graph.DepGraph, n: string, a: seq<string>, b: seq<string>)
    requires n in g
    ensures g[n := g[n] + a][n := g[n := g[n] + a][n] + b] == g[n := g[n] + (a + b)]
  {
    assert g[n] + a + b == g[n] + (a + b);
  }

  lemma ResolvedEdgesSingle(scope: string, names: seq<string>, r: string)
    ensures Resolution.ResolvedEdges(scope, names, [r]) == Resolution.ResolvedEdge(scope, names, r)
  {
    assert [r][..0] == [];
  }

  /** Appending no edges leaves the graph as it was. */
  lemma AppendNothing(g: Graph.DepGraph, n: string)
    requires n in g
    ensures g[n := g[n] + []] == g
  {
    assert g[n] + [] == g[n];
  }

  lemma FilesEdgesStep(scope: string, names: seq<string>, read: string -> Syntax.Node, fs: seq<string>, j: nat)
    requires j < |fs|
    ensures FilesEdges(scope, names, read, fs[..j + 1])
         == FilesEdges(scope, names, read, fs[..j])
            + Resolution.ResolvedEdges(scope, names, Syntax.FileReferences(read, fs[j]))
  {
    assert fs[..j + 1][..j] == fs[..j];
    assert fs[..j + 1][j] == fs[j];
  }

  lemma EdgesOfStep(scope: string, names: seq<string>, read: string -> Syntax.Node, ps: seq<Projects.Project>, k: nat, n: string)
    requires k < |ps|
    ensures EdgesOf(scope, names, read, ps[..k + 1], n)
         == EdgesOf(scope, names, read, ps[..k], n)
            + (if ps[k].name == n then FilesEdges(scope, names, read, ps[k].files) else [])
  {
    assert ps[..k + 1][..k] == ps[..k];
    assert ps[..k + 1][k] == ps[k];
  }

  /** Processing project `k` appends its files' edges to its own entry and
      changes no other entry. */
  lemma GraphAfterStep(scope: string, ps: seq<Projects.Project>, read: string -> Syntax.Node, k: nat)
    requires k < |ps|
    ensures ps[k].name in GraphAfter(scope, ps, read, k)
    ensures GraphAfter(scope, ps, read, k + 1)
         == GraphAfter(scope, ps, read, k)[ps[k].name :=
              GraphAfter(scope, ps, read, k)[ps[k].name]
              + FilesEdges(scope, Projects.Names(ps), read, ps[k].files)]
  {
    var names := Projects.Names(ps);
    var before, after := GraphAfter(scope, ps, read, k), GraphAfter(scope, ps, read, k + 1);
    assert names[k] == ps[k].name;
    var updated := before[ps[k].name := before[ps[k].name] + FilesEdges(scope, names, read, ps[k].files)];
    forall n | n in after.Keys
      ensures after[n] == updated[n]
    {
      EdgesOfStep(scope, names, read, ps, k, n);
      if n != ps[k].name {
        assert EdgesOf(scope, names, read, ps[..k], n) + [] == EdgesOf(scope, names, read, ps[..k], n);
      }
    }
    assert after.Keys == updated.Keys;
  }

  /** The graph has exactly one entry per project name, and every edge ends
      at one of those names, so the closure walk can look every target up. */
  lemma DirectGraphClosed(scope: string, ps: seq<Projects.Project>, read: string -> Syntax.Node)
    ensures DirectGraph(scope, ps, read).Keys == set p | p in ps :: p.name
    ensures Graph.Closed(DirectGraph(scope, ps, read))
  {
    var names := Projects.Names(ps);
    forall n | n in Graph.Elems(names)
      ensures n in set p | p in ps :: p.name
    {
      var i :| 0 <= i < |names| && names[i] == n;
      assert ps[i] in ps;
    }
    forall p | p in ps
      ensures p.name in Graph.Elems(names)
    {
      var i :| 0 <= i < |ps| && ps[i] == p;
      assert names[i] == p.name;
    }
  }

  /** A file has an edge to `d` when one of its references resolves to `d`. */
  ghost predicate FileHasEdge(scope: string, names: seq<string>, read: string -> Syntax.Node, f: string, d: string) {
    exists r :: r in Syntax.FileReferences(read, f) && Resolution.ResolvedEdge(scope, names, r) == [d]
  }

  /** An edge of the references comes from one of them. */
  lemma {:induction false} ResolvedEdgesSource(scope: string, names: seq<string>, refs: seq<string>, d: string)
    returns (r: string)
    requires d in Resolution.ResolvedEdges(scope, names, refs)
    ensures r in refs && Resolution.ResolvedEdge(scope, names, r) == [d]
    decreases |refs|
  {
    var init, last := refs[..|refs| - 1], refs[|refs| - 1];
    var e := Resolution.ResolvedEdge(scope, names, last);
    assert Resolution.ResolvedEdges(scope, names, refs) == Resolution.ResolvedEdges(scope, names, init) + e;
    if d in e {
      r := last;
    } else {
      r := ResolvedEdgesSource(scope, names, init, d);
      var i :| 0 <= i < |init| && init[i] == r;
      assert refs[i] == r;
    }
  }

  /** Every reference's edge is among the edges of the references. */
  lemma {:induction false} ResolvedEdgesHas(scope: string, names: seq<string>, refs: seq<string>, r: string, d: string)
    requires r in refs && Resolution.ResolvedEdge(scope, names, r) == [d]
    ensures d in Resolution.ResolvedEdges(scope, names, refs)
    decreases |refs|
  {
    var init, last := refs[..|refs| - 1], refs[|refs| - 1];
    assert Resolution.ResolvedEdges(scope, names, refs)
      == Resolution.ResolvedEdges(scope, names, init) + Resolution.ResolvedEdge(scope, names, last);
    if r != last {
      var i :| 0 <= i < |refs| && refs[i] == r;
      assert init[i] == r;
      ResolvedEdgesHas(scope, names, init, r, d);
    }
  }

  lemma ResolvedEdgesIff(scope: string, names: seq<string>, refs: seq<string>, d: string)
    ensures d in Resolution.ResolvedEdges(scope, names, refs)
        <==> exists r :: r in refs && Resolution.ResolvedEdge(scope, names, r) == [d]
  {
    if d in Resolution.ResolvedEdges(scope, names, refs) {
      var r := ResolvedEdgesSource(scope, names, refs, d);
    }
    if exists r :: r in refs && Resolution.ResolvedEdge(scope, names, r) == [d] {
      var r :| r in refs && Resolution.ResolvedEdge(scope, names, r) == [d];
      ResolvedEdgesHas(scope, names, refs, r, d);
    }
  }

  lemma {:induction false} FilesEdgesIff(scope: string, names: seq<string>, read: string -> Syntax.Node, fs: seq<string>, d: string)
    ensures d in FilesEdges(scope, names, read, fs)
        <==> exists f :: f in fs && FileHasEdge(scope, names, read, f, d)
    decreases |fs|
  {
    if fs != [] {
      var init, last := fs[..|fs| - 1], fs[|fs| - 1];
      var here := Resolution.ResolvedEdges(scope, names, Syntax.FileReferences(read, last));
      assert fs == init + [last];
      assert d in FilesEdges(scope, names, read, fs)
        <==> d in FilesEdges(scope, names, read, init) || d in here;
      assert d in here <==> FileHasEdge(scope, names, read, last, d) by {
        ResolvedEdgesIff(scope, names, Syntax.FileReferences(read, last), d);
      }
      FilesEdgesIff(scope, names, read, init, d);
      assert (exists f :: f in fs && FileHasEdge(scope, names, read, f, d))
        <==> (exists f :: f in init && FileHasEdge(scope, names, read, f, d))
             || FileHasEdge(scope, names, read, last, d);
    }
  }

  lemma {:induction false} EdgesOfIff(scope: string, names: seq<string>, read: string -> Syntax.Node, ps: seq<Projects.Project>, n: string, d: string)
    ensures d in EdgesOf(scope, names, read, ps, n)
        <==> exists p, f :: p in ps && p.name == n && f in p.files && FileHasEdge(scope, names, read, f, d)
    decreases |ps|
  {
    if ps != [] {
      var init, last := ps[..|ps| - 1], ps[|ps| - 1];
      EdgesOfIff(scope, names, read, init, n, d);
      FilesEdgesIff(scope, names, read, last.files, d);
      assert ps == init + [last];
    }
  }

  /** An edge `n -> d` is in the graph exactly when some file of a project
      named `n` holds a reference that resolves, against all the project
      names in order, to `d`. */
  lemma DirectGraphEdges(scope: string, ps: seq<Projects.Project>, read: string -> Syntax.Node, n: string, d: string)
    requires n in DirectGraph(scope, ps, read)
    ensures d in DirectGraph(scope, ps, read)[n]
        <==> exists p, f :: p in ps && p.name == n && f in p.files
                            && FileHasEdge(scope, Projects.Names(ps), read, f, d)
  {
    assert ps[..|ps|] == ps;
    EdgesOfIff(scope, Projects.Names(ps), read, ps, n, d);
  }

  /** A file that is not `.ts` adds no edge. */
  lemma NonTsFileHasNoEdges(scope: string, names: seq<string>, read: string -> Syntax.Node, f: string, d: string)
    requires !Syntax.IsTs(f)
    ensures !FileHasEdge(scope, names, read, f, d)
  {
  }

  /** The state of one computation: the scope, the project list it sorts in
      place, the file reader (reading and parsing in one) and the direct-edge
      graph it builds. */
  class Deps {
    const npmScope: string
    const projects: array<Projects.Project>
    const fileRead: string -> Syntax.Node
    var deps: Graph.DepGraph

    /** The names in the list's current order, as `projectNames` gives them. */
    function ProjectNames(): (r: seq<string>)
      reads projects
      ensures |r| == projects.Length
      ensures forall i :: 0 <= i < projects.Length ==> r[i] == projects[i].name
    {
      Projects.Names(projects[..])
    }

    /** Keeps the reader and the scope and sorts the caller's list in place,
        longest name first. */
    constructor (npmScope: string, projects: array<Projects.Project>, fileRead: string -> Syntax.Node)
      modifies projects
      ensures this.npmScope == npmScope && this.projects == projects && this.fileRead == fileRead
      ensures projects[..] == Projects.SortLongestFirst(old(projects[..]))
      ensures deps == map[]
    {
      this.npmScope := npmScope;
      this.projects := projects;
      this.fileRead := fileRead;
      deps := map[];
      new;
      var sorted := Projects.SortLongestFirst(projects[..]);
      forall i | 0 <= i < projects.Length {
        projects[i] := sorted[i];
      }
    }

    /** calculateDeps: an empty edge list per project name, the edges of every
        file, then every project's closure. */
    method CalculateDeps() returns (res: map<string, seq<string>>)
      modifies this`deps
      ensures deps == DirectGraph(npmScope, projects[..], fileRead)
      ensures Graph.Closed(deps)
      ensures res == Graph.ClosureTable(deps)
    {
      deps := map n | n in Graph.Elems(ProjectNames()) :: [];
      assert deps == GraphAfter(npmScope, projects[..], fileRead, 0);
      ProcessAllFiles();
      DirectGraphClosed(npmScope, projects[..], fileRead);
      res := IncludeTransitive();
    }

    /** processAllFiles: every file of every project, in list order. */
    method ProcessAllFiles()
      requires deps == GraphAfter(npmScope, projects[..], fileRead, 0)
      modifies this`deps
      ensures deps == DirectGraph(npmScope, projects[..], fileRead)
    {
      ghost var ps, names := projects[..], ProjectNames();
      var i := 0;
      while i < projects.Length
        invariant 0 <= i <= projects.Length
        invariant deps == GraphAfter(npmScope, ps, fileRead, i)
      {
        var p := projects[i];
        GraphAfterStep(npmScope, ps, fileRead, i);
        ghost var before := deps;
        assert p.files[..0] == [];
        AppendNothing(before, p.name);
        var j := 0;
        while j < |p.files|
          invariant 0 <= j <= |p.files|
          invariant deps == before[p.name := before[p.name] + FilesEdges(npmScope, names, fileRead, p.files[..j])]
        {
          ghost var done := FilesEdges(npmScope, names, fileRead, p.files[..j]);
          ghost var here := Resolution.ResolvedEdges(npmScope, names, Syntax.FileReferences(fileRead, p.files[j]));
          ProcessFile(p.name, p.files[j]);
          FilesEdgesStep(npmScope, names, fileRead, p.files, j);
          AppendTwice(before, p.name, done, here);
          j := j + 1;
        }
        assert p.files[..j] == p.files;
        i := i + 1;
      }
    }

    /** includeTransitive: the closure of every project that has an entry. */
    method IncludeTransitive() returns (res: map<string, seq<string>>)
      requires Graph.Closed(deps)
      ensures res == Graph.ClosureTable(deps)
    {
      res := map[];
      var keys := deps.Keys;
      while keys != {}
        invariant keys <= deps.Keys
        invariant res == map k | k in deps.Keys - keys :: Graph.TransitiveDeps(deps, k, [k])
        decreases keys
      {
        var project :| project in keys;
        var closure := TransitiveDeps(project, [project]);
        res := res[project := closure];
        keys := keys - {project};
      }
    }

    /** transitiveDeps: `project` followed by what the calls for its direct
        dependencies that are not on `path` return, with repeats removed. */
    method TransitiveDeps(project: string, path: seq<string>) returns (res: seq<string>)
      requires Graph.Closed(deps) && project in deps && Graph.Elems(path) <= deps.Keys
      ensures res == Graph.TransitiveDeps(deps, project, path)
      decreases |deps.Keys - Graph.Elems(path)|
    {
      res := [project];
      var ds := deps[project];
      var i := 0;
      while i < |ds|
        invariant 0 <= i <= |ds|
        invariant res == Graph.Accumulate(deps, project, path, i)
      {
        var d := ds[i];
        Graph.AccumulateStep(deps, project, path, i);
        if d !in path {
          Graph.PathGrows(deps, path, d);
          var sub := TransitiveDeps(d, path + [d]);
          res := res + sub;
        }
        i := i + 1;
      }
      res := Graph.Dedup(res);
    }

    /** processFile: a `.ts` file is read, parsed and walked; any other file
        is skipped. */
    method ProcessFile(projectName: string, filePath: string)
      requires projectName in deps
      modifies this`deps
      ensures deps == old(deps)[projectName := old(deps)[projectName]
        + Resolution.ResolvedEdges(npmScope, ProjectNames(), Syntax.FileReferences(fileRead, filePath))]
    {
      if Syntax.IsTs(filePath) {
        ProcessNode(projectName, fileRead(filePath));
      } else {
        assert Resolution.ResolvedEdges(npmScope, ProjectNames(), []) == [];
        AppendNothing(deps, projectName);
      }
    }

    /** processNode: an import declaration adds its specifier's edge, a
        `loadChildren` assignment of a string literal adds that literal's
        edge, and any other node is descended into. */
    method ProcessNode(projectName: string, node: Syntax.Node)
      requires projectName in deps
      modifies this`deps
      ensures deps == old(deps)[projectName := old(deps)[projectName]
        + Resolution.ResolvedEdges(npmScope, ProjectNames(), Syntax.References(node))]
      decreases node
    {
      match node
      case ImportDecl(spec) =>
        AddDepIfNeeded(Syntax.LiteralValue(spec), projectName);
        ResolvedEdgesSingle(npmScope, ProjectNames(), Syntax.LiteralValue(spec));
      case PropAssign(key, init) =>
        var name := Syntax.PropertyName(key);
        if name == Some("loadChildren") && init.StringLit? {
          AddDepIfNeeded(Syntax.LiteralValue(init.source), projectName);
          assert Syntax.References(node) == [Syntax.LiteralValue(init.source)];
          ResolvedEdgesSingle(npmScope, ProjectNames(), Syntax.LiteralValue(init.source));
        } else {
          assert Resolution.ResolvedEdges(npmScope, ProjectNames(), []) == [];
          AppendNothing(deps, projectName);
        }
      case StringLit(_) =>
        assert Resolution.ResolvedEdges(npmScope, ProjectNames(), []) == [];
        AppendNothing(deps, projectName);
      case Other(children) =>
        assert Resolution.ResolvedEdges(npmScope, ProjectNames(), Syntax.ReferencesOf(children[..0])) == [];
        AppendNothing(deps, projectName);
        var i := 0;
        while i < |children|
          invariant 0 <= i <= |children|
          invariant projectName in deps
          invariant deps == old(deps)[projectName := old(deps)[projectName]
            + Resolution.ResolvedEdges(npmScope, ProjectNames(), Syntax.ReferencesOf(children[..i]))]
        {
          ghost var names := ProjectNames();
          ghost var done := Syntax.ReferencesOf(children[..i]);
          ghost var mid := deps;
          ProcessNode(projectName, children[i]);
          assert children[..i + 1][..i] == children[..i];
          assert Syntax.ReferencesOf(children[..i + 1]) == done + Syntax.References(children[i]);
          ResolvedEdgesAppend(npmScope, names, done, Syntax.References(children[i]));
          AppendTwice(old(deps), projectName, Resolution.ResolvedEdges(npmScope, names, done),
            Resolution.ResolvedEdges(npmScope, names, Syntax.References(children[i])));
          i := i + 1;
        }
        assert children[..i] == children;
    }

    /** addDepIfNeeded: appends to this project's edges the first name, in
        the sorted order, that the reference resolves to, if any; no other
        entry changes. */
    method AddDepIfNeeded(expr: string, projectName: string)
      requires projectName in deps
      modifies this`deps
      ensures deps == old(deps)[projectName := old(deps)[projectName]
        + Resolution.ResolvedEdge(npmScope, ProjectNames(), expr)]
    {
      var matching := Resolution.FirstMatch(npmScope, ProjectNames(), expr);
      if matching.Some? && matching.value != "" {
        deps := deps[projectName := deps[projectName] + [matching.value]];
      } else {
        AppendNothing(deps, projectName);
      }
    }
  }

  /** dependencies: the closure table of the projects; as a side effect the
      caller's list is left sorted longest name first. */
  method Dependencies(npmScope: string, projects: array<Projects.Project>, fileRead: string -> Syntax.Node)
    returns (res: map<string, seq<string>>)
    modifies projects
    ensures projects[..] == Projects.SortLongestFirst(old(projects[..]))
    ensures Graph.Closed(DirectGraph(npmScope, projects[..], fileRead))
    ensures res == Graph.ClosureTable(DirectGraph(npmScope, projects[..], fileRead))
  {
    var d := new Deps(npmScope, projects, fileRead);
    res := d.CalculateDeps();
  }
}
