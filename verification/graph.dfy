/** The project dependency graph and its transitive closure, computed by a
    depth-first walk that carries the current path instead of a visited set. */
module Graph {

  /** Each project name to the names its files reference directly, in the
      order they were found; repeats allowed. */
  type DepGraph = map<string, seq<string>>

  /** Every edge ends at a project that has an entry of its own. */
  predicate Closed(g: DepGraph) {
    forall p, d :: p in g && d in g[p] ==> d in g
  }

  function Elems(s: seq<string>): set<string> {
    set x | x in s
  }

  predicate NoDup(s: seq<string>) {
    forall i, j :: 0 <= i < j < |s| ==> s[i] != s[j]
  }

  /** A walk: a non-empty list of names, each joined to the next by an edge. */
  ghost predicate IsWalk(g: DepGraph, w: seq<string>) {
    |w| >= 1 && forall i :: 0 <= i < |w| - 1 ==> w[i] in g && w[i + 1] in g[w[i]]
  }

  /** `y` is reached from `x` by following edges zero or more times. */
  ghost predicate Reachable(g: DepGraph, x: string, y: string) {
    exists w :: IsWalk(g, w) && w[0] == x && w[|w| - 1] == y
  }

  /** `y` is reached from `x` by a walk none of whose steps enters `avoid`. */
  ghost predicate ReachableAvoiding(g: DepGraph, x: string, y: string, avoid: set<string>) {
    exists w :: IsWalk(g, w) && w[0] == x && w[|w| - 1] == y
      && forall i :: 1 <= i < |w| ==> w[i] !in avoid
  }

  /** `Array.from(new Set(s))`: the first occurrence of every element, in order. */
  function Dedup(s: seq<string>): (r: seq<string>)
    ensures forall x :: x in r <==> x in s
    ensures NoDup(r)
    ensures s != [] ==> r != [] && r[0] == s[0]
  {
    if s == [] then []
    else
      var r := Dedup(s[..|s| - 1]);
      assert s == s[..|s| - 1] + [s[|s| - 1]];
      if s[|s| - 1] in r then r else r + [s[|s| - 1]]
  }

  lemma ElemsAppend(path: seq<string>, d: string)
    ensures Elems(path + [d]) == Elems(path) + {d}
  {
  }

  /** transitiveDeps(project, path): `project` first, then whatever the calls
      for its direct dependencies not on `path` return, duplicates removed. */
  function TransitiveDeps(g: DepGraph, project: string, path: seq<string>): (r: seq<string>)
    requires Closed(g) && project in g && Elems(path) <= g.Keys
    ensures r != [] && r[0] == project
    ensures NoDup(r)
    ensures forall y :: y in r ==> y in g
    decreases |g.Keys - Elems(path)|, 1
  {
    Dedup(Accumulate(g, project, path, |g[project]|))
  }

  /** The `res` of transitiveDeps after the loop has looked at the first `k`
      direct dependencies of `project`. */
  function Accumulate(g: DepGraph, project: string, path: seq<string>, k: nat): (r: seq<string>)
    requires Closed(g) && project in g && Elems(path) <= g.Keys && k <= |g[project]|
    ensures r != [] && r[0] == project
    ensures forall y :: y in r ==> y in g
    decreases |g.Keys - Elems(path)|, 0, k
  {
    if k == 0 then [project]
    else
      var res := Accumulate(g, project, path, k - 1);
      var d := g[project][k - 1];
      if d !in path then
        ElemsAppend(path, d);
        assert g.Keys - Elems(path + [d]) < g.Keys - Elems(path);
        res + TransitiveDeps(g, d, path + [d])
      else
        res
  }

  /** Adding a name that is not on the path shrinks what is left off it. */
  lemma PathGrows(g: DepGraph, path: seq<string>, d: string)
    requires Elems(path) <= g.Keys && d in g && d !in path
    ensures Elems(path + [d]) <= g.Keys
    ensures |g.Keys - Elems(path + [d])| < |g.Keys - Elems(path)|
  {
    ElemsAppend(path, d);
    assert g.Keys - Elems(path + [d]) < g.Keys - Elems(path);
  }

  /** One more step of the loop. */
  lemma AccumulateStep(g: DepGraph, project: string, path: seq<string>, k: nat)
    requires Closed(g) && project in g && Elems(path) <= g.Keys && k < |g[project]|
    ensures var d := g[project][k];
      d in g && (d !in path ==> Elems(path + [d]) <= g.Keys)
      && Accumulate(g, project, path, k + 1)
         == if d !in path then Accumulate(g, project, path, k) + TransitiveDeps(g, d, path + [d])
            else Accumulate(g, project, path, k)
  {
    if g[project][k] !in path {
      ElemsAppend(path, g[project][k]);
    }
  }

  /** What the loop has collected after `k` steps: `project` and the results
      of the calls for the first `k` dependencies that were not on the path. */
  lemma {:induction false} AccumulateElems(g: DepGraph, project: string, path: seq<string>, k: nat, y: string)
    requires Closed(g) && project in g && Elems(path) <= g.Keys && k <= |g[project]|
    ensures y in Accumulate(g, project, path, k) <==>
      (y == project || exists i :: 0 <= i < k && g[project][i] !in path
                                   && y in TransitiveDeps(g, g[project][i], path + [g[project][i]]))
  {
    if k > 0 {
      AccumulateElems(g, project, path, k - 1, y);
      var d := g[project][k - 1];
      if d !in path {
        ElemsAppend(path, d);
      }
    }
  }

  /** One edge `project -> d` in front of a walk from `d` that avoids the
      path and `d` itself is a walk from `project` that avoids the path. */
  lemma ExtendWalk(g: DepGraph, project: string, d: string, y: string, avoid: set<string>)
    requires project in g && d in g[project] && d !in avoid
    requires y == d || ReachableAvoiding(g, d, y, avoid + {d})
    ensures ReachableAvoiding(g, project, y, avoid)
  {
    var w: seq<string>;
    if y == d {
      w := [d];
    } else {
      w :| IsWalk(g, w) && w[0] == d && w[|w| - 1] == y
           && forall i :: 1 <= i < |w| ==> w[i] !in avoid + {d};
    }
    var w' := [project] + w;
    assert IsWalk(g, w');
    assert forall i :: 1 <= i < |w'| ==> w'[i] !in avoid;
  }

  /** Everything transitiveDeps returns is reached from `project` without
      stepping onto the path. */
  lemma {:induction false} TransitiveDepsSound(g: DepGraph, project: string, path: seq<string>, y: string)
    requires Closed(g) && project in g && Elems(path) <= g.Keys
    requires y in TransitiveDeps(g, project, path)
    ensures y == project || ReachableAvoiding(g, project, y, Elems(path))
    decreases |g.Keys - Elems(path)|
  {
    AccumulateElems(g, project, path, |g[project]|, y);
    if y != project {
      var i :| 0 <= i < |g[project]| && g[project][i] !in path
               && y in TransitiveDeps(g, g[project][i], path + [g[project][i]]);
      var d := g[project][i];
      ElemsAppend(path, d);
      assert g.Keys - Elems(path + [d]) < g.Keys - Elems(path);
      TransitiveDepsSound(g, d, path + [d], y);
      ExtendWalk(g, project, d, y, Elems(path));
    }
  }

  /** A walk from `project` whose steps avoid the path ends at something
      transitiveDeps returns: the path guard cuts repeated visits only, never
      a reachable project. */
  lemma {:induction false} TransitiveDepsComplete(g: DepGraph, project: string, path: seq<string>, w: seq<string>)
    requires Closed(g) && project in g && Elems(path) <= g.Keys
    requires IsWalk(g, w) && w[0] == project
    requires forall i :: 1 <= i < |w| ==> w[i] !in Elems(path)
    ensures w[|w| - 1] in TransitiveDeps(g, project, path)
    decreases |g.Keys - Elems(path)|
  {
    var y := w[|w| - 1];
    AccumulateElems(g, project, path, |g[project]|, y);
    if |w| > 1 {
      var d := w[1];
      var k :| 0 <= k < |g[project]| && g[project][k] == d;
      ElemsAppend(path, d);
      assert g.Keys - Elems(path + [d]) < g.Keys - Elems(path);
      var rest := RestartWalk(g, path, w);
      TransitiveDepsComplete(g, d, path + [d], rest);
      assert 0 <= k < |g[project]| && g[project][k] !in path
             && y in TransitiveDeps(g, g[project][k], path + [g[project][k]]);
    }
  }

  /** The tail of a walk from its last visit to its second node: a walk from
      that node, to the same end, that never comes back to it. */
  lemma RestartWalk(g: DepGraph, path: seq<string>, w: seq<string>) returns (rest: seq<string>)
    requires IsWalk(g, w) && |w| > 1
    requires forall i :: 1 <= i < |w| ==> w[i] !in Elems(path)
    ensures IsWalk(g, rest) && rest[0] == w[1] && rest[|rest| - 1] == w[|w| - 1]
    ensures forall i :: 1 <= i < |rest| ==> rest[i] !in Elems(path + [w[1]])
  {
    var last := LastIndexOf(w, w[1], 1);
    SuffixWalk(g, w, last);
    rest := w[last..];
    ElemsAppend(path, w[1]);
    assert forall i :: 1 <= i < |rest| ==> rest[i] == w[last + i];
  }

  /** The index of the last occurrence of `x` in `w`, given one at `from` or later. */
  ghost function LastIndexOf(w: seq<string>, x: string, from: nat): (r: nat)
    requires from < |w| && w[from] == x
    ensures from <= r < |w| && w[r] == x
    ensures forall i :: r < i < |w| ==> w[i] != x
    decreases |w| - from
  {
    if exists i :: from < i < |w| && w[i] == x then
      var i :| from < i < |w| && w[i] == x;
      LastIndexOf(w, x, i)
    else
      from
  }

  /** A suffix of a walk is a walk. */
  lemma SuffixWalk(g: DepGraph, w: seq<string>, k: nat)
    requires IsWalk(g, w) && k < |w|
    ensures IsWalk(g, w[k..])
  {
    var rest := w[k..];
    forall i | 0 <= i < |rest| - 1 ensures rest[i] in g && rest[i + 1] in g[rest[i]] {
      assert rest[i] == w[k + i] && rest[i + 1] == w[k + i + 1];
    }
  }

  /** The tail of a walk from the last visit to its first node. */
  lemma LastVisit(g: DepGraph, w: seq<string>) returns (rest: seq<string>)
    requires IsWalk(g, w)
    ensures IsWalk(g, rest) && rest[0] == w[0] && rest[|rest| - 1] == w[|w| - 1]
    ensures forall i :: 1 <= i < |rest| ==> rest[i] != w[0]
  {
    var last := LastIndexOf(w, w[0], 0);
    SuffixWalk(g, w, last);
    rest := w[last..];
    assert forall i :: 1 <= i < |rest| ==> rest[i] == w[last + i];
  }

  /** Everything reachable from `p` is in transitiveDeps(p, [p]). */
  lemma ClosureComplete(g: DepGraph, p: string, y: string)
    requires Closed(g) && p in g && Reachable(g, p, y)
    ensures y in TransitiveDeps(g, p, [p])
  {
    var w :| IsWalk(g, w) && w[0] == p && w[|w| - 1] == y;
    var rest := LastVisit(g, w);
    assert forall i :: 1 <= i < |rest| ==> rest[i] !in Elems([p]) by {
      assert Elems([p]) == {p};
    }
    TransitiveDepsComplete(g, p, [p], rest);
  }

  /** transitiveDeps(p, [p]) is exactly the set of projects reachable from
      `p`, `p` itself included; it lists each of them once. */
  lemma {:induction false} ClosureExact(g: DepGraph, p: string, y: string)
    requires Closed(g) && p in g
    ensures y in TransitiveDeps(g, p, [p]) <==> Reachable(g, p, y)
  {
    if y in TransitiveDeps(g, p, [p]) {
      assert Elems([p]) == {p};
      TransitiveDepsSound(g, p, [p], y);
      if y == p {
        assert IsWalk(g, [p]);
      }
    }
    if Reachable(g, p, y) {
      ClosureComplete(g, p, y);
    }
  }

  /** includeTransitive: every project's closure, keyed by project name. */
  function ClosureTable(g: DepGraph): (t: map<string, seq<string>>)
    requires Closed(g)
    ensures t.Keys == g.Keys
  {
    map p | p in g :: TransitiveDeps(g, p, [p])
  }

  /** The closure table lists, for every project, itself first and then every
      project it reaches, each once and nothing else; so it is closed too. */
  lemma ClosureTableExact(g: DepGraph)
    requires Closed(g)
    ensures forall p :: p in g ==> ClosureTable(g)[p] != [] && ClosureTable(g)[p][0] == p
    ensures forall p :: p in g ==> NoDup(ClosureTable(g)[p])
    ensures forall p, y :: p in g ==> (y in ClosureTable(g)[p] <==> Reachable(g, p, y))
    ensures Closed(ClosureTable(g))
  {
    forall p, y | p in g
      ensures y in ClosureTable(g)[p] <==> Reachable(g, p, y)
    {
      ClosureExact(g, p, y);
    }
  }

  /** A direct dependency is in the closure. */
  lemma DirectInClosure(g: DepGraph, p: string, d: string)
    requires Closed(g) && p in g && d in g[p]
    ensures d in ClosureTable(g)[p]
  {
    assert IsWalk(g, [p, d]);
    ClosureExact(g, p, d);
  }

  /** No walk leaves a set of projects that no edge leaves. */
  lemma {:induction false} WalkStaysIn(g: DepGraph, s: set<string>, w: seq<string>)
    requires forall p, d :: p in s && p in g && d in g[p] ==> d in s
    requires IsWalk(g, w) && w[0] in s
    ensures w[|w| - 1] in s
    decreases |w|
  {
    if |w| > 1 {
      assert IsWalk(g, w[..|w| - 1]);
      WalkStaysIn(g, s, w[..|w| - 1]);
    }
  }

  /** The cycle A -> B -> C -> A. */
  function Cycle(): (g: DepGraph)
    ensures Closed(g) && g.Keys == {"A", "B", "C"}
  {
    map["A" := ["B"], "B" := ["C"], "C" := ["A"]]
  }

  lemma CycleReach(p: string, y: string)
    requires p in {"A", "B", "C"}
    ensures Reachable(Cycle(), p, y) <==> y in {"A", "B", "C"}
  {
    var g, s := Cycle(), {"A", "B", "C"};
    if Reachable(g, p, y) {
      var w :| IsWalk(g, w) && w[0] == p && w[|w| - 1] == y;
      WalkStaysIn(g, s, w);
    }
    if y in s {
      var next := if p == "A" then "B" else if p == "B" then "C" else "A";
      var w := if y == p then [p] else if y == next then [p, y] else [p, next, y];
      assert IsWalk(g, w);
    }
  }

  /** On the cycle A -> B -> C -> A the walk stops at the cycle and still
      gives each of the three all three. */
  lemma ThreeCycle(p: string)
    requires p in {"A", "B", "C"}
    ensures Elems(TransitiveDeps(Cycle(), p, [p])) == {"A", "B", "C"}
  {
    forall y ensures y in TransitiveDeps(Cycle(), p, [p]) <==> y in {"A", "B", "C"} {
      ClosureExact(Cycle(), p, y);
      CycleReach(p, y);
    }
  }
}
