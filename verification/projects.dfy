/** Projects of the workspace as the computation receives them, their
    normalisation, and the longest-name-first order the resolver relies on. */
module Projects {
  import Paths

  /** A project: its unique name, whether it is a deployable app, and the
      paths of the files it owns. */
  datatype Project = Project(name: string, isApp: bool, files: seq<string>)

  /** normalizeProjects: a fresh list with every project's file paths
      normalised and nothing else changed. */
  function NormalizeProjects(ps: seq<Project>): (r: seq<Project>)
    ensures |r| == |ps|
    ensures forall i :: 0 <= i < |r| ==>
      && r[i].name == ps[i].name
      && r[i].isApp == ps[i].isApp
      && r[i].files == Paths.NormalizeFiles(ps[i].files)
  {
    seq(|ps|, i requires 0 <= i < |ps| => ps[i].(files := Paths.NormalizeFiles(ps[i].files)))
  }

  /** projectNames: the names, in list order. */
  function Names(ps: seq<Project>): (r: seq<string>)
    ensures |r| == |ps|
    ensures forall i :: 0 <= i < |ps| ==> r[i] == ps[i].name
  {
    seq(|ps|, i requires 0 <= i < |ps| => ps[i].name)
  }

  /** No project's name is followed by a longer one. */
  predicate LongestFirst(ps: seq<Project>) {
    forall i, j :: 0 <= i < j < |ps| ==> |ps[i].name| >= |ps[j].name|
  }

  /** `p` placed before the first project whose name is strictly shorter. */
  function Insert(p: Project, s: seq<Project>): (r: seq<Project>)
    requires LongestFirst(s)
    ensures LongestFirst(r)
    ensures multiset(r) == multiset(s) + multiset{p}
    ensures forall x :: x in r ==> x == p || x in s
  {
    if s == [] || |s[0].name| < |p.name| then
      [p] + s
    else
      var rest := Insert(p, s[1..]);
      assert s == [s[0]] + s[1..];
      assert forall x :: x in s[1..] ==> |x.name| <= |s[0].name|;
      ConsLongestFirst(s[0], rest);
      [s[0]] + rest
  }

  /** A project no shorter than any of a longest-first list can go in front. */
  lemma ConsLongestFirst(h: Project, t: seq<Project>)
    requires LongestFirst(t)
    requires forall x :: x in t ==> |x.name| <= |h.name|
    ensures LongestFirst([h] + t)
  {
    var r := [h] + t;
    forall i, j | 0 <= i < j < |r| ensures |r[i].name| >= |r[j].name| {
      if i > 0 {
        assert r[i] == t[i - 1] && r[j] == t[j - 1];
      } else {
        assert r[j] in t;
      }
    }
  }

  /** The constructor's `sort`: a permutation of the list in which no name is
      followed by a longer one. Names of equal length come out in the reverse
      of their input order (see `SortReversesTies`). */
  function SortLongestFirst(ps: seq<Project>): (r: seq<Project>)
    ensures LongestFirst(r)
    ensures multiset(r) == multiset(ps)
    ensures |r| == |ps|
  {
    if ps == [] then []
    else
      var r := Insert(ps[0], SortLongestFirst(ps[1..]));
      assert ps == [ps[0]] + ps[1..];
      assert |r| == |multiset(r)| == |ps|;
      r
  }

  /** Ties are reversed: of two names of equal length, the one listed second
      comes out first. */
  lemma SortReversesTies(p: Project, q: Project)
    requires |p.name| == |q.name|
    ensures SortLongestFirst([p, q]) == [q, p]
  {
    assert [p, q][1..] == [q];
    assert SortLongestFirst([q]) == Insert(q, []) == [q];
  }
}
