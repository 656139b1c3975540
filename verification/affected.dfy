/** The apps a change set affects: every touched file is mapped to the
    project that owns it; a file no project owns makes every app affected,
    and otherwise an app is affected when its closure holds a touched
    project. */
module Affected {
  import opened Wrappers
  import Paths
  import Syntax
  import Projects
  import Graph
  import DepsBuilder

  /** The first project in the list whose files include `f`, by name. */
  function Owner(ps: seq<Projects.Project>, f: string): (r: Option<string>)
    ensures r.None? <==> forall i :: 0 <= i < |ps| ==> f !in ps[i].files
    ensures r.Some? ==>
      exists i :: (0 <= i < |ps| && ps[i].name == r.value && f in ps[i].files
                   && forall j :: 0 <= j < i ==> f !in ps[j].files)
  {
    if ps == [] then None
    else if f in ps[0].files then Some(ps[0].name)
    else
      var r := Owner(ps[1..], f);
      assert r.Some? ==>
        exists i :: (1 <= i < |ps| && ps[i].name == r.value && f in ps[i].files
                     && forall j :: 1 <= j < i ==> f !in ps[j].files);
      r
  }

  /** touchedProjects: the owner of every touched file, `None` for a file
      nobody owns. */
  function TouchedProjects(ps: seq<Projects.Project>, touched: seq<string>): (r: seq<Option<string>>)
    ensures |r| == |touched|
    ensures forall i :: 0 <= i < |touched| ==> r[i] == Owner(ps, touched[i])
  {
    seq(|touched|, i requires 0 <= i < |touched| => Owner(ps, touched[i]))
  }

  /** The names of the apps, in list order. */
  function AppNames(ps: seq<Projects.Project>): (r: seq<string>)
    ensures forall x :: x in r <==> exists i :: 0 <= i < |ps| && ps[i].isApp && ps[i].name == x
  {
    if ps == [] then []
    else
      var init := ps[..|ps| - 1];
      assert forall i :: 0 <= i < |init| ==> init[i] == ps[i];
      AppNames(init) + (if ps[|ps| - 1].isApp then [ps[|ps| - 1].name] else [])
  }

  /** Some project of the closure is among the touched projects. */
  predicate Hit(closure: seq<string>, touchedProjects: seq<Option<string>>) {
    exists d :: d in closure && Some(d) in touchedProjects
  }

  /** Every project named in the list has an entry in the table. */
  predicate Covers(ps: seq<Projects.Project>, table: map<string, seq<string>>) {
    forall i :: 0 <= i < |ps| ==> ps[i].name in table
  }

  /** The names of the apps whose closure holds a touched project, in list order. */
  function Selected(ps: seq<Projects.Project>, table: map<string, seq<string>>, touchedProjects: seq<Option<string>>): (r: seq<string>)
    requires Covers(ps, table)
    ensures forall x :: x in r <==>
      exists i :: 0 <= i < |ps| && ps[i].isApp && ps[i].name == x && Hit(table[x], touchedProjects)
  {
    if ps == [] then []
    else
      var init, p := ps[..|ps| - 1], ps[|ps| - 1];
      assert forall i :: 0 <= i < |init| ==> init[i] == ps[i];
      Selected(init, table, touchedProjects)
      + (if p.isApp && Hit(table[p.name], touchedProjects) then [p.name] else [])
  }

  /** The result of affectedApps once the projects are normalised and in the
      order the dependency computation left them, given the closure table and
      the normalised touched files. */
  function AffectedFrom(ps: seq<Projects.Project>, table: map<string, seq<string>>, touched: seq<string>): (r: seq<string>)
    requires Covers(ps, table)
    ensures forall x :: x in r ==> exists i :: 0 <= i < |ps| && ps[i].isApp && ps[i].name == x
  {
    var tp := TouchedProjects(ps, touched);
    if None in tp then AppNames(ps) else Selected(ps, table, tp)
  }

  /** One touched file that no project owns makes the result the name of
      every app, whatever else was touched. */
  lemma {:induction false} UnownedFileAffectsAllApps(ps: seq<Projects.Project>, table: map<string, seq<string>>, touched: seq<string>, f: string)
    requires Covers(ps, table)
    requires f in touched && forall i :: 0 <= i < |ps| ==> f !in ps[i].files
    ensures AffectedFrom(ps, table, touched) == AppNames(ps)
  {
    var k :| 0 <= k < |touched| && touched[k] == f;
    assert TouchedProjects(ps, touched)[k] == None;
  }

  /** When every touched file has an owner, an app is in the result exactly
      when its closure holds the owner of some touched file; nothing but app
      names is ever in it. */
  lemma {:induction false} AffectedExact(ps: seq<Projects.Project>, table: map<string, seq<string>>, touched: seq<string>, x: string)
    requires Covers(ps, table)
    requires forall f :: f in touched ==> Owner(ps, f).Some?
    ensures x in AffectedFrom(ps, table, touched) <==>
      (exists i :: 0 <= i < |ps| && ps[i].isApp && ps[i].name == x)
      && exists d, f :: d in table[x] && f in touched && Owner(ps, f) == Some(d)
  {
    var tp := TouchedProjects(ps, touched);
    assert None !in tp;
    if exists i :: 0 <= i < |ps| && ps[i].isApp && ps[i].name == x {
      if Hit(table[x], tp) {
        var d :| d in table[x] && Some(d) in tp;
        var k :| 0 <= k < |tp| && tp[k] == Some(d);
        assert touched[k] in touched && Owner(ps, touched[k]) == Some(d);
      }
      if exists d, f :: d in table[x] && f in touched && Owner(ps, f) == Some(d) {
        var d, f :| d in table[x] && f in touched && Owner(ps, f) == Some(d);
        var k :| 0 <= k < |touched| && touched[k] == f;
        assert tp[k] == Some(d);
      }
    }
  }

  lemma {:induction false} SelectedAgree(ps: seq<Projects.Project>, table: map<string, seq<string>>,
                                         tp1: seq<Option<string>>, tp2: seq<Option<string>>)
    requires Covers(ps, table)
    requires forall o :: o in tp1 <==> o in tp2
    ensures Selected(ps, table, tp1) == Selected(ps, table, tp2)
    decreases |ps|
  {
    if ps != [] {
      var init, p := ps[..|ps| - 1], ps[|ps| - 1];
      SelectedAgree(init, table, tp1, tp2);
      assert Hit(table[p.name], tp1) == Hit(table[p.name], tp2);
    }
  }

  /** The result depends on the touched files only as a set: reordering or
      repeating them changes nothing. */
  lemma {:induction false} TouchedOrderIrrelevant(ps: seq<Projects.Project>, table: map<string, seq<string>>, t1: seq<string>, t2: seq<string>)
    requires Covers(ps, table)
    requires forall f :: f in t1 <==> f in t2
    ensures AffectedFrom(ps, table, t1) == AffectedFrom(ps, table, t2)
  {
    var tp1, tp2 := TouchedProjects(ps, t1), TouchedProjects(ps, t2);
    forall o | o in tp1 ensures o in tp2 {
      var k :| 0 <= k < |tp1| && tp1[k] == o;
      assert t1[k] in t2;
      var l :| 0 <= l < |t2| && t2[l] == t1[k];
      assert tp2[l] == o;
    }
    forall o | o in tp2 ensures o in tp1 {
      var k :| 0 <= k < |tp2| && tp2[k] == o;
      assert t2[k] in t1;
      var l :| 0 <= l < |t1| && t1[l] == t2[k];
      assert tp1[l] == o;
    }
    SelectedAgree(ps, table, tp1, tp2);
  }

  /** A permutation of the touched files gives the same result. */
  lemma {:induction false} TouchedPermutation(ps: seq<Projects.Project>, table: map<string, seq<string>>, t1: seq<string>, t2: seq<string>)
    requires Covers(ps, table)
    requires multiset(t1) == multiset(t2)
    ensures AffectedFrom(ps, table, t1) == AffectedFrom(ps, table, t2)
  {
    assert forall f :: f in t1 <==> f in multiset(t1);
    assert forall f :: f in t2 <==> f in multiset(t2);
    TouchedOrderIrrelevant(ps, table, t1, t2);
  }

  /** The raw touched files, before normalisation, matter only as a set too:
      two lists with the same members, repeats and order aside, give the
      same apps over the normalised, sorted workspace. */
  lemma RawTouchedSameMembers(scope: string, projects: seq<Projects.Project>, read: string -> Syntax.Node,
                              t1: seq<string>, t2: seq<string>)
    requires forall f :: f in t1 <==> f in t2
    ensures var ps := Sorted(projects);
      var g := DepsBuilder.DirectGraph(scope, ps, read);
      && Covers(ps, Graph.ClosureTable(g))
      && AffectedFrom(ps, Graph.ClosureTable(g), Paths.NormalizeFiles(t1))
         == AffectedFrom(ps, Graph.ClosureTable(g), Paths.NormalizeFiles(t2))
  {
    var ps := Sorted(projects);
    TableCovers(scope, ps, read);
    Paths.NormalizeFilesSameMembers(t1, t2);
    TouchedOrderIrrelevant(ps, Graph.ClosureTable(DepsBuilder.DirectGraph(scope, ps, read)),
                           Paths.NormalizeFiles(t1), Paths.NormalizeFiles(t2));
  }

  /** In particular, a permutation of the raw touched files gives the same
      apps. */
  lemma RawTouchedPermutation(scope: string, projects: seq<Projects.Project>, read: string -> Syntax.Node,
                              t1: seq<string>, t2: seq<string>)
    requires multiset(t1) == multiset(t2)
    ensures var ps := Sorted(projects);
      var g := DepsBuilder.DirectGraph(scope, ps, read);
      && Covers(ps, Graph.ClosureTable(g))
      && AffectedFrom(ps, Graph.ClosureTable(g), Paths.NormalizeFiles(t1))
         == AffectedFrom(ps, Graph.ClosureTable(g), Paths.NormalizeFiles(t2))
  {
    assert forall f :: f in t1 <==> f in multiset(t1);
    assert forall f :: f in t2 <==> f in multiset(t2);
    RawTouchedSameMembers(scope, projects, read, t1, t2);
  }

  /** The project list affectedApps works on once dependencies has returned:
      the normalised copy, sorted longest name first in place. */
  function Sorted(projects: seq<Projects.Project>): (r: seq<Projects.Project>)
    ensures Projects.LongestFirst(r)
    ensures multiset(r) == multiset(Projects.NormalizeProjects(projects))
    ensures |r| == |projects|
  {
    Projects.SortLongestFirst(Projects.NormalizeProjects(projects))
  }

  /** The closure table gives every project of the list an entry. */
  lemma {:induction false} TableCovers(scope: string, ps: seq<Projects.Project>, read: string -> Syntax.Node)
    ensures Graph.Closed(DepsBuilder.DirectGraph(scope, ps, read))
    ensures Covers(ps, Graph.ClosureTable(DepsBuilder.DirectGraph(scope, ps, read)))
  {
    DepsBuilder.DirectGraphClosed(scope, ps, read);
    forall i | 0 <= i < |ps| ensures ps[i].name in Graph.ClosureTable(DepsBuilder.DirectGraph(scope, ps, read)) {
      assert Projects.Names(ps)[i] == ps[i].name;
    }
  }

  /** affectedApps: normalise the projects and the touched files, compute the
      closure table (which sorts the normalised list in place), and select. */
  method AffectedApps(npmScope: string, projects: seq<Projects.Project>, fileRead: string -> Syntax.Node, touchedFiles: seq<string>)
    returns (apps: seq<string>)
    ensures var ps := Sorted(projects);
      var g := DepsBuilder.DirectGraph(npmScope, ps, fileRead);
      && Graph.Closed(g)
      && Covers(ps, Graph.ClosureTable(g))
      && apps == AffectedFrom(ps, Graph.ClosureTable(g), Paths.NormalizeFiles(touchedFiles))
  {
    var normalized := Projects.NormalizeProjects(projects);
    var list := new Projects.Project[|normalized|](i requires 0 <= i < |normalized| => normalized[i]);
    var files := Paths.NormalizeFiles(touchedFiles);
    assert list[..] == normalized;
    var deps := DepsBuilder.Dependencies(npmScope, list, fileRead);
    TableCovers(npmScope, list[..], fileRead);
    apps := AffectedFrom(list[..], deps, files);
  }

  /** An app that depends, directly or through other projects, on the owner
      of a touched file is always in the result: with every touched file
      owned because its closure holds that owner, otherwise because every
      app is. */
  lemma {:induction false} DependentAppAffected(scope: string, projects: seq<Projects.Project>, read: string -> Syntax.Node,
                             touched: seq<string>, i: nat, f: string, o: string)
    requires var ps := Sorted(projects); i < |ps| && ps[i].isApp
    requires f in Paths.NormalizeFiles(touched) && Owner(Sorted(projects), f) == Some(o)
    requires Graph.Reachable(DepsBuilder.DirectGraph(scope, Sorted(projects), read), Sorted(projects)[i].name, o)
    ensures var ps := Sorted(projects);
      var g := DepsBuilder.DirectGraph(scope, ps, read);
      Graph.Closed(g) && Covers(ps, Graph.ClosureTable(g))
      && ps[i].name in AffectedFrom(ps, Graph.ClosureTable(g), Paths.NormalizeFiles(touched))
  {
    var ps := Sorted(projects);
    var g := DepsBuilder.DirectGraph(scope, ps, read);
    var files := Paths.NormalizeFiles(touched);
    TableCovers(scope, ps, read);
    var x := ps[i].name;
    Graph.ClosureTableExact(g);
    if forall h :: h in files ==> Owner(ps, h).Some? {
      AffectedExact(ps, Graph.ClosureTable(g), files, x);
    } else {
      var h :| h in files && Owner(ps, h).None?;
      UnownedFileAffectsAllApps(ps, Graph.ClosureTable(g), files, h);
    }
  }

  /** When every touched file, once normalised, has an owner, an app is
      affected exactly when a touched project is reachable from it in the
      direct-edge graph; the closure table stands for reachability. */
  lemma {:induction false} AffectedIffReachable(scope: string, projects: seq<Projects.Project>, read: string -> Syntax.Node,
                             touched: seq<string>, x: string)
    requires forall f :: f in Paths.NormalizeFiles(touched) ==> Owner(Sorted(projects), f).Some?
    ensures var ps := Sorted(projects);
      var g := DepsBuilder.DirectGraph(scope, ps, read);
      Graph.Closed(g) && Covers(ps, Graph.ClosureTable(g))
      && (x in AffectedFrom(ps, Graph.ClosureTable(g), Paths.NormalizeFiles(touched)) <==>
          (exists i :: 0 <= i < |ps| && ps[i].isApp && ps[i].name == x)
          && exists o, f :: f in Paths.NormalizeFiles(touched) && Owner(ps, f) == Some(o)
                            && Graph.Reachable(g, x, o))
  {
    var ps := Sorted(projects);
    var g := DepsBuilder.DirectGraph(scope, ps, read);
    var files := Paths.NormalizeFiles(touched);
    TableCovers(scope, ps, read);
    Graph.ClosureTableExact(g);
    AffectedExact(ps, Graph.ClosureTable(g), files, x);
    if exists i :: 0 <= i < |ps| && ps[i].isApp && ps[i].name == x {
      var i :| 0 <= i < |ps| && ps[i].isApp && ps[i].name == x;
      assert x in g;
    }
  }
}
