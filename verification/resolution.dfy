/** Resolution of a dependency reference to a project of the workspace:
    `@<scope>/<name>`, `@<scope>/<name>#…` and `@<scope>/<name>/…` name the
    project `<name>`; every other string is an external dependency. */
module Resolution {
  import opened Wrappers

  /** `@<scope>/<name>`, the package name a project is imported by. */
  function Qualified(scope: string, name: string): (r: string)
    ensures |r| == |scope| + |name| + 2
    ensures r[|scope| + 2..] == name
  {
    "@" + scope + "/" + name
  }

  /** The test addDepIfNeeded applies to one project name. */
  predicate Matches(scope: string, name: string, expr: string) {
    var q := Qualified(scope, name);
    expr == q || q + "#" <= expr || q + "/" <= expr
  }

  /** `projectNames.filter(matches)[0]`: the first name in list order that the
      reference matches, `None` when there is none. */
  function FirstMatch(scope: string, names: seq<string>, expr: string): (r: Option<string>)
    ensures r.Some? ==> r.value in names && Matches(scope, r.value, expr)
  {
    if names == [] then None
    else if Matches(scope, names[0], expr) then Some(names[0])
    else FirstMatch(scope, names[1..], expr)
  }

  /** The search finds nothing exactly when no name matches; otherwise it
      finds the matching name of lowest index. */
  lemma {:induction false} FirstMatchSpec(scope: string, names: seq<string>, expr: string)
    ensures var r := FirstMatch(scope, names, expr);
      && (r.None? <==> forall i :: 0 <= i < |names| ==> !Matches(scope, names[i], expr))
      && (r.Some? ==>
           exists i :: (0 <= i < |names| && names[i] == r.value && Matches(scope, r.value, expr)
                        && forall j :: 0 <= j < i ==> !Matches(scope, names[j], expr)))
    decreases |names|
  {
    if names != [] && !Matches(scope, names[0], expr) {
      FirstMatchSpec(scope, names[1..], expr);
      var r := FirstMatch(scope, names, expr);
      if r.Some? {
        var i :| 0 <= i < |names| - 1 && names[1..][i] == r.value && Matches(scope, r.value, expr)
                 && forall j :: 0 <= j < i ==> !Matches(scope, names[1..][j], expr);
        assert names[i + 1] == r.value;
        assert forall j :: 0 <= j < i + 1 ==> !Matches(scope, names[j], expr);
      }
    }
  }

  /** The edges addDepIfNeeded appends for one reference: the first matching
      name, unless there is none or it is the empty name (`if
      (matchingProject)` is false for ""). At most one edge, naming a project. */
  function ResolvedEdge(scope: string, names: seq<string>, expr: string): (r: seq<string>)
    ensures |r| <= 1
    ensures forall x :: x in r ==> x in names && x != ""
  {
    FirstMatchSpec(scope, names, expr);
    match FirstMatch(scope, names, expr)
    case Some(m) => if m != "" then [m] else []
    case None => []
  }

  /** The edges of a list of references, in order. */
  function ResolvedEdges(scope: string, names: seq<string>, refs: seq<string>): (r: seq<string>)
    ensures forall x :: x in r ==> x in names && x != ""
    ensures |r| <= |refs|
  {
    if refs == [] then []
    else ResolvedEdges(scope, names, refs[..|refs| - 1]) + ResolvedEdge(scope, names, refs[|refs| - 1])
  }

  /** No name is followed by a longer one. */
  predicate LongestFirst(names: seq<string>) {
    forall i, j :: 0 <= i < j < |names| ==> |names[i]| >= |names[j]|
  }

  /** The three reference forms name the project, and a longer name that
      merely starts with it (`@scope/namex`) does not. */
  lemma MatchForms(scope: string, name: string, tail: string)
    ensures Matches(scope, name, Qualified(scope, name))
    ensures Matches(scope, name, Qualified(scope, name) + "#" + tail)
    ensures Matches(scope, name, Qualified(scope, name) + "/" + tail)
    ensures tail != [] && tail[0] != '#' && tail[0] != '/'
      ==> !Matches(scope, name, Qualified(scope, name) + tail)
  {
    var q := Qualified(scope, name);
    assert q + "#" <= q + "#" + tail;
    assert q + "/" <= q + "/" + tail;
    if tail != [] && tail[0] != '#' && tail[0] != '/' {
      var e := q + tail;
      assert e[|q|] == tail[0];
      assert (q + "#")[|q|] == '#' && (q + "/")[|q|] == '/';
      assert |e| != |q|;
    }
  }

  /** Two names of the same length never match the same reference: both
      would be the same slice of it. */
  lemma MatchUnique(scope: string, a: string, b: string, expr: string)
    requires Matches(scope, a, expr) && Matches(scope, b, expr)
    requires |a| == |b|
    ensures a == b
  {
    var qa, qb := Qualified(scope, a), Qualified(scope, b);
    assert qa == expr[..|qa|];
    assert qb == expr[..|qb|];
    assert a == qa[|scope| + 2..] && b == qb[|scope| + 2..];
  }

  /** With the names in longest-first order, the first match is a longest
      matching name: a reference that could name both `lib` and `lib/sub`
      names the longer. */
  lemma LongestMatchWins(scope: string, names: seq<string>, expr: string, k: nat)
    requires LongestFirst(names)
    requires k < |names| && Matches(scope, names[k], expr)
    ensures FirstMatch(scope, names, expr).Some?
    ensures |names[k]| <= |FirstMatch(scope, names, expr).value|
  {
    FirstMatchSpec(scope, names, expr);
    var m := FirstMatch(scope, names, expr);
    var i :| 0 <= i < |names| && names[i] == m.value
      && forall j :: 0 <= j < i ==> !Matches(scope, names[j], expr);
    assert i <= k;
  }

  /** How a longest-first order breaks ties between names of equal length
      does not change what any reference resolves to. */
  lemma ResolutionIgnoresTies(scope: string, names1: seq<string>, names2: seq<string>, expr: string)
    requires LongestFirst(names1) && LongestFirst(names2)
    requires multiset(names1) == multiset(names2)
    ensures FirstMatch(scope, names1, expr) == FirstMatch(scope, names2, expr)
    ensures ResolvedEdge(scope, names1, expr) == ResolvedEdge(scope, names2, expr)
  {
    FirstMatchSpec(scope, names1, expr);
    FirstMatchSpec(scope, names2, expr);
    var m1, m2 := FirstMatch(scope, names1, expr), FirstMatch(scope, names2, expr);
    if m1.None? {
      forall k | 0 <= k < |names2| ensures !Matches(scope, names2[k], expr) {
        assert names2[k] in multiset(names1);
      }
    } else {
      var i :| 0 <= i < |names1| && names1[i] == m1.value && Matches(scope, m1.value, expr);
      assert names1[i] in multiset(names2);
      var k :| 0 <= k < |names2| && names2[k] == m1.value;
      LongestMatchWins(scope, names2, expr, k);
      var j :| 0 <= j < |names2| && names2[j] == m2.value && Matches(scope, m2.value, expr);
      assert names2[j] in multiset(names1);
      var l :| 0 <= l < |names1| && names1[l] == m2.value;
      LongestMatchWins(scope, names1, expr, l);
      MatchUnique(scope, m1.value, m2.value, expr);
    }
  }
}
