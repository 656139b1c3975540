/** Path normalisation: every file path, whether it belongs to a project or
    was reported as touched, is rewritten so that each run of `\` and `/`
    characters becomes one `/` before any two paths are compared. */
module Paths {

  /** The characters the collapse treats as separators. */
  predicate IsSep(c: char) {
    c == '/' || c == '\\'
  }

  /** A path with no backslash and no two slashes in a row: what the
      collapse produces, and what it leaves alone. */
  predicate Canonical(s: string) {
    && (forall i :: 0 <= i < |s| ==> s[i] != '\\')
    && (forall i :: 0 <= i < |s| - 1 ==> !(s[i] == '/' && s[i + 1] == '/'))
  }

  /** `s` without its leading run of separators. */
  function DropSeps(s: string): (r: string)
    ensures |r| <= |s| && r == s[|s| - |r|..]
    ensures r == [] || !IsSep(r[0])
    ensures forall i :: 0 <= i < |s| - |r| ==> IsSep(s[i])
  {
    if s != [] && IsSep(s[0]) then
      var r := DropSeps(s[1..]);
      assert forall i :: 1 <= i < |s| - |r| ==> s[i] == s[1..][i - 1];
      r
    else s
  }

  /** The non-separator characters of `s`, in order. */
  function Strip(s: string): (r: string)
    ensures |r| <= |s|
    ensures forall i :: 0 <= i < |r| ==> !IsSep(r[i])
  {
    if s == [] then []
    else if IsSep(s[0]) then Strip(s[1..])
    else [s[0]] + Strip(s[1..])
  }

  /** One path as `f.replace(/[\\\/]+/g, '/')` leaves it: every maximal run
      of separators becomes a single '/'. */
  function NormalizePath(s: string): (r: string)
    ensures |r| <= |s|
    ensures r == [] <==> s == []
    ensures (r != [] && r[0] == '/') <==> (s != [] && IsSep(s[0]))
    ensures Canonical(r)
    decreases |s|
  {
    if s == [] then []
    else if IsSep(s[0]) then
      var rest := NormalizePath(DropSeps(s[1..]));
      assert rest == [] || rest[0] != '/';
      "/" + rest
    else
      [s[0]] + NormalizePath(s[1..])
  }

  /** normalizeFiles: the collapse applied to every path of a list. */
  function NormalizeFiles(files: seq<string>): (r: seq<string>)
    ensures |r| == |files|
    ensures forall i :: 0 <= i < |r| ==> r[i] == NormalizePath(files[i])
  {
    seq(|files|, i requires 0 <= i < |files| => NormalizePath(files[i]))
  }

  lemma {:induction false} StripDropSeps(s: string)
    ensures Strip(DropSeps(s)) == Strip(s)
    decreases |s|
  {
    if s != [] && IsSep(s[0]) {
      StripDropSeps(s[1..]);
    }
  }

  /** The collapse never loses, adds or reorders a character that is not a
      separator: only the separators change. */
  lemma {:induction false} NormalizePathKeepsText(s: string)
    ensures Strip(NormalizePath(s)) == Strip(s)
    decreases |s|
  {
    if s == [] {
    } else if IsSep(s[0]) {
      var t := DropSeps(s[1..]);
      NormalizePathKeepsText(t);
      StripDropSeps(s[1..]);
      assert Strip(NormalizePath(s)) == Strip("/" + NormalizePath(t)) == Strip(NormalizePath(t));
    } else {
      NormalizePathKeepsText(s[1..]);
      assert Strip(NormalizePath(s)) == [s[0]] + Strip(NormalizePath(s[1..]));
    }
  }

  /** A path that is already canonical is left exactly as it is. */
  lemma {:induction false} NormalizePathFixesCanonical(s: string)
    requires Canonical(s)
    ensures NormalizePath(s) == s
    decreases |s|
  {
    if s != [] {
      assert Canonical(s[1..]);
      if IsSep(s[0]) {
        assert s[0] == '/';
        assert s[1..] == [] || !IsSep(s[1..][0]);
        assert DropSeps(s[1..]) == s[1..];
      }
      NormalizePathFixesCanonical(s[1..]);
    }
  }

  /** Normalising twice is normalising once. */
  lemma NormalizePathIdempotent(s: string)
    ensures NormalizePath(NormalizePath(s)) == NormalizePath(s)
  {
    NormalizePathFixesCanonical(NormalizePath(s));
  }

  /** normalizeFiles keeps the list's length, leaves no backslash and no
      doubled slash in any entry, and is idempotent. */
  lemma NormalizeFilesIdempotent(files: seq<string>)
    ensures |NormalizeFiles(files)| == |files|
    ensures forall i :: 0 <= i < |files| ==> Canonical(NormalizeFiles(files)[i])
    ensures NormalizeFiles(NormalizeFiles(files)) == NormalizeFiles(files)
  {
    var once := NormalizeFiles(files);
    forall i | 0 <= i < |files|
      ensures NormalizeFiles(once)[i] == once[i]
    {
      NormalizePathIdempotent(files[i]);
    }
  }

  /** Dropping the leading separators of a piece that ends in another
      character is not affected by what follows it. */
  lemma {:induction false} DropSepsAppend(u: string, y: string)
    requires u != [] && !IsSep(u[|u| - 1])
    ensures DropSeps(u + y) == DropSeps(u) + y
    decreases |u|
  {
    if IsSep(u[0]) {
      assert (u + y)[1..] == u[1..] + y;
      DropSepsAppend(u[1..], y);
    }
  }

  /** A run of separators in front of a piece that does not start with one
      is dropped entirely. */
  lemma {:induction false} DropSepsRun(r: string, b: string)
    requires forall c :: c in r ==> IsSep(c)
    requires b == [] || !IsSep(b[0])
    ensures DropSeps(r + b) == b
    decreases |r|
  {
    if r != [] {
      assert (r + b)[1..] == r[1..] + b;
      DropSepsRun(r[1..], b);
    } else {
      assert r + b == b;
    }
  }

  /** One step of the collapse at a leading separator. */
  lemma SepStep(c: char, t: string)
    requires IsSep(c)
    ensures NormalizePath([c] + t) == "/" + NormalizePath(DropSeps(t))
  {
    assert ([c] + t)[1..] == t;
  }

  /** One step of the collapse at a leading character that is kept. */
  lemma CharStep(c: char, t: string)
    requires !IsSep(c)
    ensures NormalizePath([c] + t) == [c] + NormalizePath(t)
  {
    assert ([c] + t)[1..] == t;
  }

  /** Runs of separators never straddle a point that follows a character
      other than a separator: the collapse can be done on either side. */
  lemma {:induction false} NormalizePathAppend(x: string, y: string)
    requires x == [] || !IsSep(x[|x| - 1])
    ensures NormalizePath(x + y) == NormalizePath(x) + NormalizePath(y)
    decreases |x|, 1
  {
    if x == [] {
      assert x + y == y;
    } else if IsSep(x[0]) {
      AppendAtSep(x, y);
    } else {
      AppendAtChar(x, y);
    }
  }

  /** A piece ending in a kept character keeps that character, however
      many separators lead it. */
  lemma DropSepsKeepsLast(u: string)
    requires u != [] && !IsSep(u[|u| - 1])
    ensures DropSeps(u) != [] && !IsSep(DropSeps(u)[|DropSeps(u)| - 1])
  {
    var v := DropSeps(u);
    assert v[|v| - 1] == u[|u| - 1];
  }

  /** Concatenation regrouped, stated apart from the collapse so that its
      proof sees no facts about it. */
  lemma Regroup(a: string, b: string, c: string)
    ensures a + (b + c) == (a + b) + c
  {
  }

  /** The collapse at a leading separator, with the text after the piece
      carried along. */
  lemma SepHead(c: char, u: string, y: string)
    requires IsSep(c) && u != [] && !IsSep(u[|u| - 1])
    ensures NormalizePath([c] + (u + y)) == "/" + NormalizePath(DropSeps(u) + y)
  {
    SepStep(c, u + y);
    DropSepsAppend(u, y);
  }

  lemma {:induction false} AppendAtSep(x: string, y: string)
    requires x != [] && IsSep(x[0]) && !IsSep(x[|x| - 1])
    ensures NormalizePath(x + y) == NormalizePath(x) + NormalizePath(y)
    decreases |x|, 0
  {
    var u := x[1..];
    assert x == [x[0]] + u;
    assert x + y == [x[0]] + (u + y);
    DropSepsKeepsLast(u);
    var v := DropSeps(u);
    SepHead(x[0], u, y);
    NormalizePathAppend(v, y);
    SepStep(x[0], u);
    Regroup("/", NormalizePath(v), NormalizePath(y));
  }

  lemma {:induction false} AppendAtChar(x: string, y: string)
    requires x != [] && !IsSep(x[0]) && !IsSep(x[|x| - 1])
    ensures NormalizePath(x + y) == NormalizePath(x) + NormalizePath(y)
    decreases |x|, 0
  {
    var u := x[1..];
    assert x == [x[0]] + u;
    assert x + y == [x[0]] + (u + y);
    CharStep(x[0], u + y);
    NormalizePathAppend(u, y);
    CharStep(x[0], u);
    Regroup([x[0]], NormalizePath(u), NormalizePath(y));
  }

  /** Every maximal run of separators, of whatever length and mix of `/`
      and `\`, becomes exactly one `/`: `apps\\app1//main.ts` and
      `apps/app1/main.ts` normalise alike. */
  lemma NormalizePathRun(a: string, r: string, b: string)
    requires a == [] || !IsSep(a[|a| - 1])
    requires r != [] && forall c :: c in r ==> IsSep(c)
    requires b == [] || !IsSep(b[0])
    ensures NormalizePath(a + r + b) == NormalizePath(a) + "/" + NormalizePath(b)
  {
    var t := r[1..] + b;
    assert a + r + b == a + (r + b);
    assert r + b == [r[0]] + t;
    calc {
      NormalizePath(a + r + b);
      { NormalizePathAppend(a, r + b); }
      NormalizePath(a) + NormalizePath([r[0]] + t);
      { SepStep(r[0], t); DropSepsRun(r[1..], b); }
      NormalizePath(a) + ("/" + NormalizePath(b));
      { Regroup(NormalizePath(a), "/", NormalizePath(b)); }
      NormalizePath(a) + "/" + NormalizePath(b);
    }
  }

  /** Lists of paths with the same members still have the same members once
      every path is normalised. */
  lemma NormalizeFilesSameMembers(t1: seq<string>, t2: seq<string>)
    requires forall f :: f in t1 <==> f in t2
    ensures forall f :: f in NormalizeFiles(t1) <==> f in NormalizeFiles(t2)
  {
    var n1, n2 := NormalizeFiles(t1), NormalizeFiles(t2);
    forall f | f in n1 ensures f in n2 {
      var k :| 0 <= k < |n1| && n1[k] == f;
      assert t1[k] in t2;
      var l :| 0 <= l < |t2| && t2[l] == t1[k];
      assert n2[l] == f;
    }
    forall f | f in n2 ensures f in n1 {
      var k :| 0 <= k < |n2| && n2[k] == f;
      assert t2[k] in t1;
      var l :| 0 <= l < |t1| && t1[l] == t2[k];
      assert n1[l] == f;
    }
  }
}
