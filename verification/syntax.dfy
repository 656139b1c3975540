/** The stock Option datatype; `None` stands for the source's `null` and
    `undefined`. */
module Wrappers {
  datatype Option<+T> = None | Some(value: T)
}

/** Dependency references found in one parsed source file: the specifiers of
    `import` declarations and the string-literal values of `loadChildren:`
    properties (lazy-loaded routes). The parser is not modelled; a file is
    given as the tree it parses to, reduced to the node shapes the walk
    tells apart. */
module Syntax {
  import opened Wrappers

  /** The name of a property assignment. */
  datatype PropName =
    | Identifier(text: string)  // `loadChildren: …`, named by its source text
    | StringKey(text: string)   // `'loadChildren': …`, named by its unquoted value
    | OtherKey                  // a numeric or computed name: no name at all

  /** A syntax-tree node. String literals carry their source text, quotes
      included, as the walk reads it. */
  datatype Node =
    | ImportDecl(specifier: string)         // `import … from <specifier>`
    | PropAssign(name: PropName, init: Node) // `<name>: <init>` in an object literal
    | StringLit(source: string)
    | Other(children: seq<Node>)             // every other kind, with its children

  /** getStringLiteralValue: `text.substr(1, text.length - 2)`, which drops the
      first and the last character and yields "" for a text shorter than two. */
  function LiteralValue(source: string): (r: string)
    ensures |source| >= 2 ==> source == [source[0]] + r + [source[|source| - 1]]
    ensures |source| < 2 ==> r == []
  {
    if |source| < 2 then [] else source[1..|source| - 1]
  }

  /** getPropertyAssignmentName: the name an identifier or string-literal key
      spells; `None` for every other kind of key. */
  function PropertyName(k: PropName): (r: Option<string>)
    ensures r.Some? <==> !k.OtherKey?
    ensures r.Some? ==> r.value == k.text
  {
    match k
    case Identifier(t) => Some(t)
    case StringKey(t) => Some(t)
    case OtherKey => None
  }

  /** The references a node contributes by itself, before any descent. */
  function Yield(n: Node): seq<string> {
    match n
    case ImportDecl(spec) => [LiteralValue(spec)]
    case PropAssign(k, init) =>
      if PropertyName(k) == Some("loadChildren") && init.StringLit?
      then [LiteralValue(init.source)]
      else []
    case _ => []
  }

  /** The references processNode reports for a tree, in document order:
      import declarations and property assignments are handled and not
      descended into; every other node is descended into. */
  function References(n: Node): seq<string>
    decreases n
  {
    match n
    case Other(cs) => ReferencesOf(cs)
    case _ => Yield(n)
  }

  /** The references of a list of sibling subtrees, left to right. */
  function ReferencesOf(cs: seq<Node>): seq<string>
    decreases cs
  {
    if cs == [] then [] else ReferencesOf(cs[..|cs| - 1]) + References(cs[|cs| - 1])
  }

  /** The nodes processNode is called on when it walks `n`. */
  ghost function Visited(n: Node): set<Node>
    decreases n
  {
    match n
    case Other(cs) => {n} + VisitedOf(cs)
    case _ => {n}
  }

  ghost function VisitedOf(cs: seq<Node>): set<Node>
    decreases cs
  {
    if cs == [] then {} else VisitedOf(cs[..|cs| - 1]) + Visited(cs[|cs| - 1])
  }

  /** The last extension of a file name is `.ts`: the name ends in `.ts` and
      the character before it exists and is not `/`, so a bare `.ts` basename
      does not count while `..ts` does. */
  predicate IsTs(f: string) {
    |f| > 3 && f[|f| - 3..] == ".ts" && f[|f| - 4] != '/'
  }

  /** processFile: the references of one file, read and parsed through `read`;
      a file that is not `.ts` is skipped. */
  function FileReferences(read: string -> Node, f: string): (r: seq<string>)
    ensures !IsTs(f) ==> r == []
  {
    if IsTs(f) then References(read(f)) else []
  }

  lemma {:induction false} ReferencesOfYields(cs: seq<Node>, r: string)
    ensures r in ReferencesOf(cs) <==> exists m :: m in VisitedOf(cs) && r in Yield(m)
    decreases cs
  {
    if cs != [] {
      var init, last := cs[..|cs| - 1], cs[|cs| - 1];
      ReferencesOfYields(init, r);
      ReferencesYields(last, r);
    }
  }

  /** A string is reported for a tree exactly when some node the walk visits
      is an import declaration with that specifier, or a `loadChildren`
      assignment of a string literal with that value. */
  lemma {:induction false} ReferencesYields(n: Node, r: string)
    ensures r in References(n) <==> exists m :: m in Visited(n) && r in Yield(m)
    decreases n
  {
    match n
    case Other(cs) =>
      ReferencesOfYields(cs, r);
      assert Yield(n) == [];
    case _ =>
      assert Visited(n) == {n};
  }

  /** Every child of a node of another kind is visited. */
  lemma {:induction false} ChildrenVisited(cs: seq<Node>, i: nat)
    requires i < |cs|
    ensures Visited(cs[i]) <= VisitedOf(cs)
    decreases cs
  {
    if i < |cs| - 1 {
      ChildrenVisited(cs[..|cs| - 1], i);
    }
  }

  /** Import declarations and property assignments are never descended into:
      whatever their subtrees hold, they contribute only their own
      reference, at most one. */
  lemma NotDescended(n: Node)
    requires n.ImportDecl? || n.PropAssign?
    ensures Visited(n) == {n}
    ensures |References(n)| <= 1
    ensures n.ImportDecl? ==> References(n) == [LiteralValue(n.specifier)]
  {
  }
}
