/** A two-project workspace: the app `App1` imports `@org/lib1` from its one
    file, and the library `Lib1` is imported by nothing. */
module Example {
  import opened Wrappers
  import Paths
  import Syntax
  import Projects
  import Resolution
  import Graph
  import DepsBuilder
  import Affected

  const App1 := Projects.Project("app1", true, ["apps/app1/main.ts"])
  const Lib1 := Projects.Project("lib1", false, ["libs/lib1/index.ts"])

  /** The parse of every file: `main.ts` holds `import x from '@org/lib1'`,
      every other file holds nothing of interest. */
  function Read(f: string): Syntax.Node {
    if f == "apps/app1/main.ts" then Syntax.Other([Syntax.ImportDecl("'@org/lib1'")])
    else Syntax.Other([])
  }

  /** The app's path is already canonical, so normalising leaves it alone. */
  lemma AppPathCanonical()
    ensures Paths.NormalizePath("apps/app1/main.ts") == "apps/app1/main.ts"
  {
    var a := "apps/app1/main.ts";
    assert forall i :: 0 <= i < |a| ==> a[i] != '\\';
    assert forall i :: 0 <= i < |a| - 1 ==> !(a[i] == '/' && a[i + 1] == '/');
    Paths.NormalizePathFixesCanonical(a);
  }

  lemma AppFilesNormal()
    ensures Paths.NormalizeFiles(App1.files) == App1.files
  {
    AppPathCanonical();
  }

  /** So is the library's. */
  lemma LibPathCanonical()
    ensures Paths.NormalizePath("libs/lib1/index.ts") == "libs/lib1/index.ts"
  {
    var b := "libs/lib1/index.ts";
    assert forall i :: 0 <= i < |b| ==> b[i] != '\\';
    assert forall i :: 0 <= i < |b| - 1 ==> !(b[i] == '/' && b[i + 1] == '/');
    Paths.NormalizePathFixesCanonical(b);
  }

  lemma LibFilesNormal()
    ensures Paths.NormalizeFiles(Lib1.files) == Lib1.files
  {
    LibPathCanonical();
  }

  /** Normalising the workspace changes nothing. */
  lemma NormalizedWorkspace()
    ensures Projects.NormalizeProjects([App1, Lib1]) == [App1, Lib1]
  {
    AppFilesNormal();
    LibFilesNormal();
    var r := Projects.NormalizeProjects([App1, Lib1]);
    assert r[0] == App1 && r[1] == Lib1;
  }

  /** The longest-first order reverses names of equal length: `lib1`, listed
      second, comes out first. */
  lemma SortedWorkspace()
    ensures Affected.Sorted([App1, Lib1]) == [Lib1, App1]
  {
    NormalizedWorkspace();
    assert Projects.SortLongestFirst([Lib1]) == [Lib1];
    assert Projects.Insert(App1, [Lib1]) == [Lib1, App1];
  }

  /** The one import of `main.ts` names the library. */
  lemma MainReferences()
    ensures Syntax.FileReferences(Read, "apps/app1/main.ts") == ["@org/lib1"]
  {
    var spec := "'@org/lib1'";
    assert spec[1..|spec| - 1] == "@org/lib1";
    assert Syntax.IsTs("apps/app1/main.ts");
    assert Syntax.ReferencesOf([Syntax.ImportDecl(spec)]) == [] + ["@org/lib1"];
  }

  /** The workspace as the dependency computation leaves it. */
  const Workspace := [Lib1, App1]

  /** The project names in the order the resolver tries them. */
  lemma WorkspaceNames()
    ensures Projects.Names(Workspace) == ["lib1", "app1"]
    ensures Graph.Elems(Projects.Names(Workspace)) == {"lib1", "app1"}
  {
    assert Projects.Names(Workspace) == ["lib1", "app1"];
  }

  /** The resolver sends `@org/lib1` to `lib1` and nowhere else. */
  lemma MainResolves()
    ensures Resolution.ResolvedEdges("org", ["lib1", "app1"], ["@org/lib1"]) == ["lib1"]
  {
    assert Resolution.Matches("org", "lib1", "@org/lib1");
    assert Resolution.ResolvedEdge("org", ["lib1", "app1"], "@org/lib1") == ["lib1"];
    DepsBuilder.ResolvedEdgesSingle("org", ["lib1", "app1"], "@org/lib1");
  }

  /** The app's files give exactly the one edge to `lib1`. */
  lemma AppFilesEdges()
    ensures DepsBuilder.FilesEdges("org", ["lib1", "app1"], Read, App1.files) == ["lib1"]
  {
    MainReferences();
    MainResolves();
    assert App1.files[..0] == [];
  }

  /** The edges recorded under `app1`: those of its files and nothing else. */
  lemma AppEdgesOf()
    ensures DepsBuilder.EdgesOf("org", ["lib1", "app1"], Read, Workspace, "app1") == ["lib1"]
  {
    AppFilesEdges();
    assert Workspace[..1] == [Lib1] && [Lib1][..0] == [];
    assert DepsBuilder.EdgesOf("org", ["lib1", "app1"], Read, [Lib1], "app1") == [];
  }

  /** `index.ts` holds no reference at all. */
  lemma IndexHasNoEdge(d: string)
    ensures !DepsBuilder.FileHasEdge("org", Projects.Names(Workspace), Read, "libs/lib1/index.ts", d)
  {
    assert Read("libs/lib1/index.ts") == Syntax.Other([]);
  }

  /** The graph has one entry per project and no edge leaves it. */
  lemma ExampleKeys()
    ensures var g := DepsBuilder.DirectGraph("org", Workspace, Read);
      g.Keys == {"lib1", "app1"} && Graph.Closed(g)
  {
    WorkspaceNames();
    DepsBuilder.DirectGraphClosed("org", Workspace, Read);
  }

  /** `app1` has exactly the one edge, to `lib1`. */
  lemma AppEdge()
    ensures var g := DepsBuilder.DirectGraph("org", Workspace, Read);
      "app1" in g && g["app1"] == ["lib1"]
  {
    ExampleKeys();
    WorkspaceNames();
    AppEdgesOf();
    assert Workspace[..|Workspace|] == Workspace;
  }

  /** `lib1` has no edge. */
  lemma LibNoEdge()
    ensures var g := DepsBuilder.DirectGraph("org", Workspace, Read);
      "lib1" in g && g["lib1"] == []
  {
    ExampleKeys();
    var g := DepsBuilder.DirectGraph("org", Workspace, Read);
    if g["lib1"] != [] {
      var d := g["lib1"][0];
      DepsBuilder.DirectGraphEdges("org", Workspace, Read, "lib1", d);
      IndexHasNoEdge(d);
    }
  }

  /** The only direct edge runs from `app1` to `lib1`. */
  lemma ExampleEdges()
    ensures var g := DepsBuilder.DirectGraph("org", Workspace, Read);
      && g.Keys == {"lib1", "app1"} && Graph.Closed(g)
      && g["app1"] == ["lib1"] && g["lib1"] == []
  {
    ExampleKeys();
    AppEdge();
    LibNoEdge();
  }

  /** `app1` reaches `lib1`, so its closure lists it. */
  lemma AppClosure()
    ensures var g := DepsBuilder.DirectGraph("org", Workspace, Read);
      && Graph.Closed(g) && Affected.Covers(Workspace, Graph.ClosureTable(g))
      && "app1" in g && "lib1" in Graph.ClosureTable(g)["app1"]
  {
    var g := DepsBuilder.DirectGraph("org", Workspace, Read);
    ExampleEdges();
    Affected.TableCovers("org", Workspace, Read);
    Graph.DirectInClosure(g, "app1", "lib1");
  }

  /** The library's file is owned by `lib1`. */
  lemma LibOwner()
    ensures Affected.Owner(Workspace, "libs/lib1/index.ts") == Some("lib1")
  {
  }

  /** The library's file, normalised, is owned by `lib1`. */
  lemma LibTouched()
    ensures Affected.TouchedProjects(Workspace, Paths.NormalizeFiles(Lib1.files)) == [Some("lib1")]
  {
    LibFilesNormal();
    LibOwner();
  }

  /** `nowhere.ts` is already canonical. */
  lemma NowhereCanonical()
    ensures Paths.NormalizeFiles(["nowhere.ts"]) == ["nowhere.ts"]
  {
    var n := "nowhere.ts";
    assert forall i :: 0 <= i < |n| ==> n[i] != '\\' && n[i] != '/';
    Paths.NormalizePathFixesCanonical(n);
  }

  /** No project owns `nowhere.ts`. */
  lemma NowhereOwner()
    ensures Affected.Owner(Workspace, "nowhere.ts") == None
  {
  }

  /** `nowhere.ts`, normalised, is owned by no project. */
  lemma NowhereTouched()
    ensures Affected.TouchedProjects(Workspace, Paths.NormalizeFiles(["nowhere.ts"])) == [None]
  {
    NowhereCanonical();
    NowhereOwner();
  }

  /** With any table in which `app1` reaches `lib1`, a change to `lib1`
      alone selects `app1` alone. */
  lemma SelectsApp(table: map<string, seq<string>>, touched: seq<string>)
    requires Affected.Covers(Workspace, table)
    requires Affected.TouchedProjects(Workspace, touched) == [Some("lib1")]
    requires "app1" in table && "lib1" in table["app1"]
    ensures Affected.AffectedFrom(Workspace, table, touched) == ["app1"]
  {
    var tp := [Some("lib1")];
    assert Affected.Hit(table["app1"], tp);
    assert Workspace[..1] == [Lib1];
    assert Affected.Selected([Lib1], table, tp) == [];
  }

  /** Over the sorted workspace, touching the library's file selects `app1`. */
  lemma LibSelectsApp()
    ensures var g := DepsBuilder.DirectGraph("org", Workspace, Read);
      && Graph.Closed(g) && Affected.Covers(Workspace, Graph.ClosureTable(g))
      && Affected.AffectedFrom(Workspace, Graph.ClosureTable(g), Paths.NormalizeFiles(Lib1.files)) == ["app1"]
  {
    AppClosure();
    LibTouched();
    SelectsApp(Graph.ClosureTable(DepsBuilder.DirectGraph("org", Workspace, Read)), Paths.NormalizeFiles(Lib1.files));
  }

  /** Touching the library's file affects the app that imports it. */
  lemma TouchingLibAffectsApp()
    ensures var ps := Affected.Sorted([App1, Lib1]);
      var g := DepsBuilder.DirectGraph("org", ps, Read);
      && Graph.Closed(g) && Affected.Covers(ps, Graph.ClosureTable(g))
      && Affected.AffectedFrom(ps, Graph.ClosureTable(g), Paths.NormalizeFiles(Lib1.files)) == ["app1"]
  {
    SortedWorkspace();
    LibSelectsApp();
  }

  /** Touching a file no project owns affects every app, here the only one. */
  lemma TouchingUnownedAffectsApp()
    ensures var ps := Affected.Sorted([App1, Lib1]);
      var g := DepsBuilder.DirectGraph("org", ps, Read);
      && Graph.Closed(g) && Affected.Covers(ps, Graph.ClosureTable(g))
      && Affected.AffectedFrom(ps, Graph.ClosureTable(g), Paths.NormalizeFiles(["nowhere.ts"])) == ["app1"]
  {
    SortedWorkspace();
    AppClosure();
    NowhereTouched();
    assert Affected.AppNames([Lib1]) == [];
    assert Affected.AppNames(Workspace) == ["app1"];
  }
}
