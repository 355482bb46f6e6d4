/**
 Collapsing a module import graph to fewer segments (tools/architecture-graph.ts), as a
 quotient of graphs, and the sorted normal form every level is emitted in.
 */
module ModuleCollapse {
  import opened Wrappers
  import opened Ordering
  import opened Occurrences
  import opened Separators

  type Segment = s: string | '.' !in s witness ""

  /** A dotted name, split at its dots. Every text is the text of exactly one name. */
  type Name = n: seq<Segment> | n != [] witness [""]

  type Edge = (Name, Name)

  /** A collapse depth. The configuration accepts positive integers only. */
  type Depth = d: nat | d >= 1 witness 1

  function Text(n: Name): string {
    Joined(n, '.')
  }

  lemma TextInjective(a: Name, b: Name)
    ensures Text(a) == Text(b) ==> a == b
  {
    if Text(a) == Text(b) { JoinedInjective(a, b, '.'); }
  }

  /** The module lies strictly below the package. */
  predicate Below(package: Name, m: Name) {
    package <= m && |package| < |m|
  }

  /** That is the code's test `module.startsWith(package + '.')`. */
  lemma BelowExactly(package: Name, m: Name)
    ensures Below(package, m) <==> Occurs(Text(m), 0, Text(package) + ".")
  {
    ClosedJoined(package, '.');
    ClosedJoined(m, '.');
    ClosedPrefix(package, m, '.');
    var u, t := Closed(package, '.'), Text(m);
    if Occurs(t, 0, u) {
      forall k | 0 <= k < |u| ensures t[k] == u[k] { OccursAt(t, 0, u, k); }
      assert u <= t + ".";
      assert |package| == |m| ==> package == m;
    }
    if Below(package, m) {
      assert m == package + m[|package|..];
      ClosedConcat(package, m[|package|..], '.');
      ClosedJoined(m[|package|..], '.');
      assert t == (u + Closed(m[|package|..], '.'))[..|u| + |Closed(m[|package|..], '.')| - 1];
    }
  }

  /** The node of a module: the package and at most `depth` segments below it. */
  function NodeOf(package: Name, depth: Depth, m: Name): Option<Name> {
    if !Below(package, m) then None
    else Some(m[..if |package| + depth < |m| then |package| + depth else |m|])
  }

  /** Collapsing deep and then shallow is collapsing shallow. */
  lemma NodeOfTwice(package: Name, deep: Depth, shallow: Depth, m: Name)
    requires shallow <= deep
    ensures match NodeOf(package, deep, m)
      case None => NodeOf(package, shallow, m) == None
      case Some(n) => NodeOf(package, shallow, n) == NodeOf(package, shallow, m)
  {
    if Below(package, m) {
      var n := NodeOf(package, deep, m).value;
      assert package <= n;
      var k := if |package| + shallow < |m| then |package| + shallow else |m|;
      assert n[..k] == m[..k];
    }
  }

  // ---- The quotient --------------------------------------------------------------------

  datatype Graph = Graph(nodes: set<Name>, edges: set<Edge>)

  ghost function NodesOf(package: Name, depth: Depth, modules: set<Name>): set<Name> {
    set m | m in modules && NodeOf(package, depth, m).Some? :: NodeOf(package, depth, m).value
  }

  ghost predicate Projects(package: Name, depth: Depth, e: Edge) {
    && NodeOf(package, depth, e.0).Some? && NodeOf(package, depth, e.1).Some?
    && NodeOf(package, depth, e.0) != NodeOf(package, depth, e.1)
  }

  ghost function Project(package: Name, depth: Depth, e: Edge): Edge
    requires Projects(package, depth, e)
  {
    (NodeOf(package, depth, e.0).value, NodeOf(package, depth, e.1).value)
  }

  ghost function EdgesOf(package: Name, depth: Depth, edges: set<Edge>): set<Edge> {
    set e | e in edges && Projects(package, depth, e) :: Project(package, depth, e)
  }

  ghost function Collapse(package: Name, depth: Depth, g: Graph): Graph {
    Graph(NodesOf(package, depth, g.nodes), EdgesOf(package, depth, g.edges))
  }

  /** Collapsing in two steps is collapsing in one. */
  lemma CollapseTwice(package: Name, deep: Depth, shallow: Depth, g: Graph)
    requires shallow <= deep
    ensures Collapse(package, shallow, Collapse(package, deep, g)) == Collapse(package, shallow, g)
  {
    NodesTwice(package, deep, shallow, g.nodes);
    EdgesTwice(package, deep, shallow, g.edges);
  }

  lemma NodesTwice(package: Name, deep: Depth, shallow: Depth, modules: set<Name>)
    requires shallow <= deep
    ensures NodesOf(package, shallow, NodesOf(package, deep, modules)) == NodesOf(package, shallow, modules)
  {
    var once, twice := NodesOf(package, shallow, modules), NodesOf(package, shallow, NodesOf(package, deep, modules));
    forall n | n in once ensures n in twice {
      var m :| m in modules && NodeOf(package, shallow, m) == Some(n);
      NodeOfTwice(package, deep, shallow, m);
      assert NodeOf(package, deep, m).value in NodesOf(package, deep, modules);
    }
    forall n | n in twice ensures n in once {
      var k :| k in NodesOf(package, deep, modules) && NodeOf(package, shallow, k) == Some(n);
      var m :| m in modules && NodeOf(package, deep, m) == Some(k);
      NodeOfTwice(package, deep, shallow, m);
    }
  }

  lemma EdgesTwice(package: Name, deep: Depth, shallow: Depth, edges: set<Edge>)
    requires shallow <= deep
    ensures EdgesOf(package, shallow, EdgesOf(package, deep, edges)) == EdgesOf(package, shallow, edges)
  {
    var once, twice := EdgesOf(package, shallow, edges), EdgesOf(package, shallow, EdgesOf(package, deep, edges));
    forall x | x in once ensures x in twice {
      var e :| e in edges && Projects(package, shallow, e) && Project(package, shallow, e) == x;
      NodeOfTwice(package, deep, shallow, e.0);
      NodeOfTwice(package, deep, shallow, e.1);
      assert Project(package, deep, e) in EdgesOf(package, deep, edges);
    }
    forall x | x in twice ensures x in once {
      var k :| k in EdgesOf(package, deep, edges) && Projects(package, shallow, k) && Project(package, shallow, k) == x;
      var e :| e in edges && Projects(package, deep, e) && Project(package, deep, e) == k;
      NodeOfTwice(package, deep, shallow, e.0);
      NodeOfTwice(package, deep, shallow, e.1);
    }
  }

  /** Every collapsed edge comes from an import between modules of its two nodes. */
  lemma EdgeIsImport(package: Name, depth: Depth, g: Graph, x: Edge) returns (e: Edge)
    requires x in Collapse(package, depth, g).edges
    ensures e in g.edges && x.0 != x.1
    ensures NodeOf(package, depth, e.0) == Some(x.0) && NodeOf(package, depth, e.1) == Some(x.1)
  {
    e :| e in g.edges && Projects(package, depth, e) && Project(package, depth, e) == x;
  }

  ghost predicate IsPath(g: Graph, p: seq<Name>) {
    && p != [] && (forall i | 0 <= i < |p| :: p[i] in g.nodes)
    && forall i | 0 <= i < |p| - 1 :: (p[i], p[i + 1]) in g.edges
  }

  /** The nodes a path of modules runs through, without stuttering. */
  ghost function Projection(package: Name, depth: Depth, p: seq<Name>): (r: seq<Name>)
    requires forall i | 0 <= i < |p| :: Below(package, p[i])
    ensures p == [] <==> r == []
    ensures r != [] ==> Some(r[0]) == NodeOf(package, depth, p[0])
  {
    if p == [] then []
    else
      var node := NodeOf(package, depth, p[0]).value;
      var rest := Projection(package, depth, p[1..]);
      if rest != [] && rest[0] == node then rest else [node] + rest
  }

  lemma {:induction false} ProjectionEnds(package: Name, depth: Depth, p: seq<Name>)
    requires p != [] && forall i | 0 <= i < |p| :: Below(package, p[i])
    ensures var r := Projection(package, depth, p); Some(r[|r| - 1]) == NodeOf(package, depth, p[|p| - 1])
  {
    if |p| > 1 { ProjectionEnds(package, depth, p[1..]); }
  }

  /** An import path below the package projects to a path of the collapsed level with the same ends. */
  lemma {:induction false} PathProjects(package: Name, depth: Depth, g: Graph, p: seq<Name>)
    requires IsPath(g, p) && forall i | 0 <= i < |p| :: Below(package, p[i])
    ensures var r := Projection(package, depth, p);
      && IsPath(Collapse(package, depth, g), r)
      && Some(r[0]) == NodeOf(package, depth, p[0]) && Some(r[|r| - 1]) == NodeOf(package, depth, p[|p| - 1])
  {
    var c := Collapse(package, depth, g);
    var node := NodeOf(package, depth, p[0]).value;
    assert p[0] in g.nodes && node in c.nodes;
    ProjectionEnds(package, depth, p);
    if |p| > 1 {
      assert IsPath(g, p[1..]) by {
        forall i | 0 <= i < |p[1..]| - 1 ensures (p[1..][i], p[1..][i + 1]) in g.edges {
          assert (p[i + 1], p[i + 1 + 1]) in g.edges;
        }
      }
      PathProjects(package, depth, g, p[1..]);
      var rest := Projection(package, depth, p[1..]);
      if rest[0] != node {
        var e := (p[0], p[0 + 1]);
        assert e in g.edges && Projects(package, depth, e) && Project(package, depth, e) == (node, rest[0]);
        Extended(c, node, rest);
      }
    } else {
      assert Projection(package, depth, p[1..]) == [];
    }
  }

  lemma Extended(g: Graph, n: Name, p: seq<Name>)
    requires IsPath(g, p) && n in g.nodes && (n, p[0]) in g.edges
    ensures IsPath(g, [n] + p)
  {
    var q := [n] + p;
    forall i | 0 <= i < |q| - 1 ensures (q[i], q[i + 1]) in g.edges {
      if i > 0 { assert (p[i - 1], p[i - 1 + 1]) in g.edges; }
    }
  }

  // ---- Normal form ---------------------------------------------------------------------

  predicate NameLeq(a: Name, b: Name) {
    StrLeq(Text(a), Text(b))
  }

  predicate EdgeLeq(e: Edge, f: Edge) {
    if e.0 != f.0 then NameLeq(e.0, f.0) else NameLeq(e.1, f.1)
  }

  lemma NameOrder()
    ensures TotalPreorder(NameLeq)
    ensures forall a, b :: NameLeq(a, b) && NameLeq(b, a) ==> a == b
  {
    forall a: Name, b: Name ensures NameLeq(a, b) || NameLeq(b, a) { StrLeqTotal(Text(a), Text(b)); }
    forall a: Name, b: Name, c: Name | NameLeq(a, b) && NameLeq(b, c) ensures NameLeq(a, c) {
      StrLeqTransitive(Text(a), Text(b), Text(c));
    }
    forall a: Name, b: Name | NameLeq(a, b) && NameLeq(b, a) ensures a == b {
      StrLeqTotal(Text(a), Text(b));
      TextInjective(a, b);
    }
  }

  lemma EdgeOrder()
    ensures TotalPreorder(EdgeLeq)
    ensures forall e, f :: EdgeLeq(e, f) && EdgeLeq(f, e) ==> e == f
  {
    NameOrder();
    forall e: Edge, f: Edge ensures EdgeLeq(e, f) || EdgeLeq(f, e) {
      assert NameLeq(e.0, f.0) || NameLeq(f.0, e.0);
      assert NameLeq(e.1, f.1) || NameLeq(f.1, e.1);
    }
  }

  /** The map key of an edge. */
  function Key(e: Edge): string {
    Text(e.0) + [0 as char] + Text(e.1)
  }

  /** `Map.set`: a key that is there keeps its place and takes the new edge. */
  function Set(edges: seq<Edge>, e: Edge): seq<Edge> {
    if edges == [] then [e]
    else if Key(edges[0]) == Key(e) then [e] + edges[1..]
    else [edges[0]] + Set(edges[1..], e)
  }

  function ByKey(edges: seq<Edge>): seq<Edge> {
    if edges == [] then []
    else
      var front := ByKey(edges[..|edges| - 1]);
      var e := edges[|edges| - 1];
      if e.0 != e.1 then Set(front, e) else front
  }

  datatype Level = Level(nodes: seq<Name>, edges: seq<Edge>)

  function Normal(nodes: seq<Name>, edges: seq<Edge>): Level {
    Level(Sort(NameLeq, Distinct(nodes)), Sort(EdgeLeq, ByKey(edges)))
  }

  method NormalizeLevel(nodes: seq<Name>, edges: seq<Edge>) returns (level: Level)
    ensures level == Normal(nodes, edges)
  {
    var byKey: seq<Edge> := [];
    for i := 0 to |edges|
      invariant byKey == ByKey(edges[..i])
    {
      assert edges[..i + 1][..i] == edges[..i];
      if edges[i].0 != edges[i].1 {
        byKey := Set(byKey, edges[i]);
      }
    }
    assert edges[..|edges|] == edges;
    level := Level(Sort(NameLeq, Distinct(nodes)), Sort(EdgeLeq, byKey));
  }

  // ---- The normal form depends on the sets only -------------------------------------------

  /** No two different edges have the same key. */
  ghost predicate KeysApart(edges: seq<Edge>) {
    forall e, f | e in edges && f in edges && e.0 != e.1 && f.0 != f.1 && Key(e) == Key(f) :: e == f
  }

  predicate NoNul(n: Name) {
    forall i | 0 <= i < |n| :: 0 as char !in n[i]
  }

  lemma {:induction false} NoNulClosed(parts: seq<string>)
    requires forall i | 0 <= i < |parts| :: 0 as char !in parts[i]
    ensures 0 as char !in Closed(parts, '.')
  {
    if parts != [] { NoNulClosed(parts[1..]); }
  }

  lemma NoNulText(n: Name)
    requires NoNul(n)
    ensures 0 as char !in Text(n)
  {
    NoNulClosed(n);
  }

  /** Names without a NUL keep the keys of their edges apart. */
  lemma NoNulKeysApart(edges: seq<Edge>)
    requires forall e | e in edges :: NoNul(e.0) && NoNul(e.1)
    ensures KeysApart(edges)
  {
    forall e, f | e in edges && f in edges && Key(e) == Key(f) ensures e == f {
      NoNulText(e.0);
      NoNulText(f.0);
      assert Text(e.0) + [0 as char] + Text(e.1) <= Text(f.0) + [0 as char] + Text(f.1);
      FirstPart(Text(e.0), Text(e.1), Text(f.0), Text(f.1), 0 as char);
      TextInjective(e.0, f.0);
      TextInjective(e.1, f.1);
    }
  }

  /** The edge a key maps to. */
  function Find(edges: seq<Edge>, key: string): Option<Edge> {
    if edges == [] then None
    else if Key(edges[0]) == key then Some(edges[0])
    else Find(edges[1..], key)
  }

  /** No key occurs twice. */
  predicate KeyedOnce(edges: seq<Edge>) {
    edges != [] ==> Find(edges[1..], Key(edges[0])) == None && KeyedOnce(edges[1..])
  }

  lemma {:induction false} FindSet(edges: seq<Edge>, e: Edge, key: string)
    ensures Find(Set(edges, e), key) == if key == Key(e) then Some(e) else Find(edges, key)
  {
    if edges == [] {
    } else if Key(edges[0]) == Key(e) {
      assert Set(edges, e)[1..] == edges[1..];
    } else {
      FindSet(edges[1..], e, key);
      assert Set(edges, e)[1..] == Set(edges[1..], e);
    }
  }

  lemma {:induction false} SetKeyedOnce(edges: seq<Edge>, e: Edge)
    requires KeyedOnce(edges)
    ensures KeyedOnce(Set(edges, e))
  {
    if edges == [] {
    } else if Key(edges[0]) == Key(e) {
      assert Set(edges, e)[1..] == edges[1..];
    } else {
      SetKeyedOnce(edges[1..], e);
      FindSet(edges[1..], e, Key(edges[0]));
      assert Set(edges, e)[1..] == Set(edges[1..], e);
    }
  }

  lemma {:induction false} FindIsMember(edges: seq<Edge>, key: string)
    ensures match Find(edges, key)
      case Some(e) => e in edges && Key(e) == key
      case None => forall e | e in edges :: Key(e) != key
  {
    if edges != [] {
      FindIsMember(edges[1..], key);
      assert edges == [edges[0]] + edges[1..];
    }
  }

  lemma {:induction false} MemberIsFound(edges: seq<Edge>, e: Edge)
    requires KeyedOnce(edges)
    ensures e in edges <==> Find(edges, Key(e)) == Some(e)
  {
    FindIsMember(edges, Key(e));
    if edges != [] {
      MemberIsFound(edges[1..], e);
      assert edges == [edges[0]] + edges[1..];
    }
  }

  lemma {:induction false} KeyedOnceDistinct(edges: seq<Edge>)
    requires KeyedOnce(edges)
    ensures NoDuplicates(edges)
  {
    if edges != [] {
      KeyedOnceDistinct(edges[1..]);
      FindIsMember(edges[1..], Key(edges[0]));
      forall i, j | 0 <= i < j < |edges| ensures edges[i] != edges[j] {
        assert edges[j] == edges[1..][j - 1] && edges[j] in edges[1..];
        if i > 0 { assert edges[i] == edges[1..][i - 1]; }
      }
    }
  }

  /** The last edge between different nodes that has a key. */
  function Last(edges: seq<Edge>, key: string): Option<Edge> {
    if edges == [] then None
    else
      var e := edges[|edges| - 1];
      if e.0 != e.1 && Key(e) == key then Some(e) else Last(edges[..|edges| - 1], key)
  }

  lemma {:induction false} LastIsMember(edges: seq<Edge>, key: string)
    ensures match Last(edges, key)
      case Some(e) => e in edges && e.0 != e.1 && Key(e) == key
      case None => forall e | e in edges && e.0 != e.1 :: Key(e) != key
  {
    if edges != [] {
      var front := edges[..|edges| - 1];
      LastIsMember(front, key);
      assert edges == front + [edges[|edges| - 1]];
    }
  }

  lemma {:induction false} ByKeyFinds(edges: seq<Edge>, key: string)
    ensures KeyedOnce(ByKey(edges)) && Find(ByKey(edges), key) == Last(edges, key)
  {
    if edges != [] {
      var front := edges[..|edges| - 1];
      ByKeyFinds(front, key);
      SetKeyedOnce(ByKey(front), edges[|edges| - 1]);
      FindSet(ByKey(front), edges[|edges| - 1], key);
    }
  }

  /** The map holds, for each key, the last edge that has it. */
  lemma ByKeyHolds(edges: seq<Edge>, e: Edge)
    ensures e in ByKey(edges) <==> Last(edges, Key(e)) == Some(e)
  {
    ByKeyFinds(edges, Key(e));
    MemberIsFound(ByKey(edges), e);
  }

  lemma AllEdgesKept(edges: seq<Edge>)
    requires KeysApart(edges)
    ensures forall e :: e in ByKey(edges) <==> e in edges && e.0 != e.1
  {
    forall e ensures e in ByKey(edges) <==> e in edges && e.0 != e.1 {
      ByKeyHolds(edges, e);
      LastIsMember(edges, Key(e));
    }
  }

  /** The emitted edges are all the edges between different nodes, exactly when the keys are apart. */
  lemma AllEdgesExactly(edges: seq<Edge>)
    ensures (forall e :: e in ByKey(edges) <==> e in edges && e.0 != e.1) <==> KeysApart(edges)
  {
    if KeysApart(edges) { AllEdgesKept(edges); }
    if forall e :: e in ByKey(edges) <==> e in edges && e.0 != e.1 {
      forall e, f | e in edges && f in edges && e.0 != e.1 && f.0 != f.1 && Key(e) == Key(f) ensures e == f {
        ByKeyHolds(edges, e);
        ByKeyHolds(edges, f);
      }
    }
  }

  /** A NUL inside a name makes two different edges one. */
  lemma NulJoinsEdges() returns (e: Edge, f: Edge)
    ensures e != f && e.0 != e.1 && f.0 != f.1 && ByKey([e, f]) == [f]
  {
    var nul := [0 as char];
    var a, b, c, d: Name := ["a"], ["b" + nul + "c"], ["a" + nul + "b"], ["c"];
    e, f := (a, b), (c, d);
    PlainText("a");
    PlainText("b" + nul + "c");
    PlainText("a" + nul + "b");
    PlainText("c");
    assert Key(e) == "a" + nul + "b" + nul + "c" == Key(f);
    assert [e, f][..1] == [e] && [e][..0] == [];
    assert a[0] != b[0] && c[0] != d[0] && a[0] != c[0];
    assert ByKey([e]) == [e];
    assert ByKey([e, f]) == Set(ByKey([e]), f);
  }

  lemma PlainText(s: Segment)
    ensures Text([s]) == s
  {
    assert [s][1..] == [];
    assert Closed([s], '.') == s + ".";
  }

  ghost predicate SameSets(n1: seq<Name>, e1: seq<Edge>, n2: seq<Name>, e2: seq<Edge>) {
    && (forall n :: n in n1 <==> n in n2)
    && forall e: Edge | e.0 != e.1 :: e in e1 <==> e in e2
  }

  /** Levels with the same nodes and the same edges between different nodes are emitted alike. */
  lemma NormalDependsOnSets(n1: seq<Name>, e1: seq<Edge>, n2: seq<Name>, e2: seq<Edge>)
    requires KeysApart(e1) && SameSets(n1, e1, n2, e2)
    ensures Normal(n1, e1) == Normal(n2, e2)
  {
    NameOrder();
    SameElements(Distinct(n1), Distinct(n2));
    SortUnique(NameLeq, Distinct(n1), Distinct(n2));
    SameEdges(e1, e2);
  }

  /** The order in which nodes and edges are met is irrelevant exactly when the keys are apart. */
  lemma NormalDependsOnSetsExactly(nodes: seq<Name>, edges: seq<Edge>)
    ensures (forall n2, e2 | SameSets(nodes, edges, n2, e2) :: Normal(nodes, edges) == Normal(n2, e2))
            <==> KeysApart(edges)
  {
    hide Normal, KeysApart;
    if KeysApart(edges) {
      forall n2, e2 | SameSets(nodes, edges, n2, e2) ensures Normal(nodes, edges) == Normal(n2, e2) {
        NormalDependsOnSets(nodes, edges, n2, e2);
      }
    } else {
      var other := Reordered(nodes, edges);
    }
  }

  /** The same nodes and edges in an order that is emitted differently. */
  lemma Reordered(nodes: seq<Name>, edges: seq<Edge>) returns (other: seq<Edge>)
    requires !KeysApart(edges)
    ensures SameSets(nodes, edges, nodes, other) && Normal(nodes, other) != Normal(nodes, edges)
  {
    hide Normal;
    var e, f :| e in edges && f in edges && e.0 != e.1 && f.0 != f.1 && Key(e) == Key(f) && e != f;
    Repeated(nodes, edges, e);
    Repeated(nodes, edges, f);
    LastWins(nodes, edges, e, f);
    other := if Normal(nodes, edges + [e]) != Normal(nodes, edges) then edges + [e] else edges + [f];
  }

  lemma Repeated(nodes: seq<Name>, edges: seq<Edge>, e: Edge)
    requires e in edges
    ensures SameSets(nodes, edges, nodes, edges + [e])
  {
  }

  /** Of two edges with one key the emitted level has the one that came last. */
  lemma LastWins(nodes: seq<Name>, edges: seq<Edge>, e: Edge, f: Edge)
    requires e.0 != e.1 && f.0 != f.1 && Key(e) == Key(f) && e != f
    ensures Normal(nodes, edges + [e]) != Normal(nodes, edges + [f])
  {
    var x, y := edges + [e], edges + [f];
    assert x[|x| - 1] == e && y[|y| - 1] == f;
    assert Last(x, Key(e)) == Some(e) && Last(y, Key(e)) == Some(f);
    hide Last, ByKey, Sort, Key;
    ByKeyHolds(x, e);
    ByKeyHolds(y, e);
    SortPermutes(EdgeLeq, ByKey(x));
    SortPermutes(EdgeLeq, ByKey(y));
  }

  lemma SameEdges(e1: seq<Edge>, e2: seq<Edge>)
    requires KeysApart(e1)
    requires forall e: Edge | e.0 != e.1 :: e in e1 <==> e in e2
    ensures Sort(EdgeLeq, ByKey(e1)) == Sort(EdgeLeq, ByKey(e2))
  {
    EdgeOrder();
    AllEdgesKept(e1);
    AllEdgesKept(e2);
    ByKeyFinds(e1, "");
    ByKeyFinds(e2, "");
    KeyedOnceDistinct(ByKey(e1));
    KeyedOnceDistinct(ByKey(e2));
    SameElements(ByKey(e1), ByKey(e2));
    SortUnique(EdgeLeq, ByKey(e1), ByKey(e2));
  }

  // ---- The level -----------------------------------------------------------------------

  /** The nodes of a list of modules and the projected imports, in the order they are met. */
  function NodeList(package: Name, depth: Depth, modules: seq<Name>): seq<Name> {
    if modules == [] then []
    else
      var front := NodeList(package, depth, modules[..|modules| - 1]);
      match NodeOf(package, depth, modules[|modules| - 1])
      case Some(node) => front + [node]
      case None => front
  }

  function EdgeList(package: Name, depth: Depth, edges: seq<Edge>): seq<Edge> {
    if edges == [] then []
    else
      var front := EdgeList(package, depth, edges[..|edges| - 1]);
      var e := edges[|edges| - 1];
      match (NodeOf(package, depth, e.0), NodeOf(package, depth, e.1))
      case (Some(from), Some(to)) => front + [(from, to)]
      case _ => front
  }

  function PythonLevel(package: Name, depth: Depth, modules: seq<Name>, edges: seq<Edge>): Level {
    Normal(NodeList(package, depth, modules), EdgeList(package, depth, edges))
  }

  method PythonModulesLevel(package: Name, depth: Depth, modules: seq<Name>, edges: seq<Edge>) returns (level: Level)
    ensures level == PythonLevel(package, depth, modules, edges)
  {
    var nodes: seq<Name> := [];
    for i := 0 to |modules|
      invariant nodes == NodeList(package, depth, modules[..i])
    {
      assert modules[..i + 1][..i] == modules[..i];
      match NodeOf(package, depth, modules[i])
      case Some(node) => nodes := nodes + [node];
      case None =>
    }
    var projected: seq<Edge> := [];
    for i := 0 to |edges|
      invariant projected == EdgeList(package, depth, edges[..i])
    {
      assert edges[..i + 1][..i] == edges[..i];
      var (importer, imported) := edges[i];
      match (NodeOf(package, depth, importer), NodeOf(package, depth, imported))
      case (Some(from), Some(to)) => projected := projected + [(from, to)];
      case _ =>
    }
    assert modules[..|modules|] == modules && edges[..|edges|] == edges;
    level := NormalizeLevel(nodes, projected);
  }

  ghost function GraphOf(modules: seq<Name>, edges: seq<Edge>): Graph {
    Graph(set m | m in modules, set e | e in edges)
  }

  lemma {:induction false} NodeListHolds(package: Name, depth: Depth, modules: seq<Name>)
    ensures forall n :: n in NodeList(package, depth, modules) <==> n in NodesOf(package, depth, set m | m in modules)
  {
    if modules == [] {
    } else {
      var front, last := modules[..|modules| - 1], modules[|modules| - 1];
      assert modules == front + [last];
      NodeListHolds(package, depth, front);
      var all, some := NodesOf(package, depth, set m | m in modules), NodesOf(package, depth, set m | m in front);
      assert NodeOf(package, depth, last).Some? ==> NodeOf(package, depth, last).value in all;
      forall n ensures n in all <==> n in some || NodeOf(package, depth, last) == Some(n) {
        if n in all {
          var m :| m in modules && NodeOf(package, depth, m) == Some(n);
          assert m in front || m == last;
        }
      }
    }
  }

  lemma {:induction false} EdgeListHolds(package: Name, depth: Depth, edges: seq<Edge>)
    ensures forall x: Edge | x.0 != x.1 :: x in EdgeList(package, depth, edges)
              <==> x in EdgesOf(package, depth, set e | e in edges)
  {
    if edges == [] {
    } else {
      var front, last := edges[..|edges| - 1], edges[|edges| - 1];
      assert edges == front + [last];
      EdgeListHolds(package, depth, front);
      var all, some := EdgesOf(package, depth, set e | e in edges), EdgesOf(package, depth, set e | e in front);
      assert Projects(package, depth, last) ==> Project(package, depth, last) in all;
      forall x: Edge | x.0 != x.1
        ensures x in all <==> x in some || (Projects(package, depth, last) && Project(package, depth, last) == x)
      {
        if x in all {
          var e :| e in edges && Projects(package, depth, e) && Project(package, depth, e) == x;
          assert e in front || e == last;
        }
      }
    }
  }

  lemma {:induction false} EdgeListNoNul(package: Name, depth: Depth, edges: seq<Edge>)
    requires forall e | e in edges :: NoNul(e.0) && NoNul(e.1)
    ensures forall x | x in EdgeList(package, depth, edges) :: NoNul(x.0) && NoNul(x.1)
  {
    if edges != [] {
      EdgeListNoNul(package, depth, edges[..|edges| - 1]);
    }
  }

  /**
   The emitted level lists the nodes of the quotient, and its edges exactly when the keys of the
   projected imports are apart; each once and in order.
   */
  lemma LevelIsQuotientExactly(package: Name, depth: Depth, modules: seq<Name>, edges: seq<Edge>)
    ensures var level := PythonLevel(package, depth, modules, edges);
      && (GraphOf(level.nodes, level.edges) == Collapse(package, depth, GraphOf(modules, edges))
          <==> KeysApart(EdgeList(package, depth, edges)))
      && NoDuplicates(level.nodes) && NoDuplicates(level.edges)
      && Sorted(NameLeq, level.nodes) && Sorted(EdgeLeq, level.edges)
  {
    var projected := EdgeList(package, depth, edges);
    LevelNodes(NodeList(package, depth, modules));
    NodeListHolds(package, depth, modules);
    LevelEdges(projected);
    EdgeListHolds(package, depth, edges);
    AllEdgesExactly(projected);
    var level, c := PythonLevel(package, depth, modules, edges), Collapse(package, depth, GraphOf(modules, edges));
    assert forall x | x in c.edges :: x.0 != x.1;
    assert GraphOf(level.nodes, level.edges).nodes == c.nodes;
    forall x ensures x in c.edges <==> x in projected && x.0 != x.1 {}
    if KeysApart(projected) {
      assert GraphOf(level.nodes, level.edges).edges == c.edges;
    }
    if GraphOf(level.nodes, level.edges).edges == c.edges {
      forall x ensures x in ByKey(projected) <==> x in projected && x.0 != x.1 {
        assert x in ByKey(projected) <==> x in level.edges;
      }
    }
  }

  /** Without a NUL in the names the level is the quotient. */
  lemma LevelIsQuotient(package: Name, depth: Depth, modules: seq<Name>, edges: seq<Edge>)
    requires forall e | e in edges :: NoNul(e.0) && NoNul(e.1)
    ensures var level := PythonLevel(package, depth, modules, edges);
      GraphOf(level.nodes, level.edges) == Collapse(package, depth, GraphOf(modules, edges))
  {
    EdgeListNoNul(package, depth, edges);
    NoNulKeysApart(EdgeList(package, depth, edges));
    LevelIsQuotientExactly(package, depth, modules, edges);
  }

  lemma LevelNodes(nodes: seq<Name>)
    ensures var sorted := Sort(NameLeq, Distinct(nodes));
      && (forall n :: n in sorted <==> n in nodes) && NoDuplicates(sorted) && Sorted(NameLeq, sorted)
  {
    NameOrder();
    SortPermutes(NameLeq, Distinct(nodes));
    SortSorted(NameLeq, Distinct(nodes));
    NoDuplicatesPermuted(Distinct(nodes), Sort(NameLeq, Distinct(nodes)));
  }

  lemma HeldEdges(edges: seq<Edge>)
    ensures forall e | e in ByKey(edges) :: e in edges && e.0 != e.1
  {
    hide ByKey, Last, Key;
    forall e | e in ByKey(edges) ensures e in edges && e.0 != e.1 {
      ByKeyHolds(edges, e);
      LastIsMember(edges, Key(e));
    }
  }

  lemma LevelEdges(edges: seq<Edge>)
    ensures var sorted := Sort(EdgeLeq, ByKey(edges));
      && (forall e :: e in sorted <==> e in ByKey(edges)) && NoDuplicates(sorted) && Sorted(EdgeLeq, sorted)
  {
    EdgeOrder();
    ByKeyFinds(edges, "");
    KeyedOnceDistinct(ByKey(edges));
    SortedOnce(ByKey(edges));
  }

  lemma SortedOnce(edges: seq<Edge>)
    requires NoDuplicates(edges) && TotalPreorder(EdgeLeq)
    ensures var sorted := Sort(EdgeLeq, edges);
      && (forall e :: e in sorted <==> e in edges) && NoDuplicates(sorted) && Sorted(EdgeLeq, sorted)
  {
    SortPermutes(EdgeLeq, edges);
    SortSorted(EdgeLeq, edges);
    NoDuplicatesPermuted(edges, Sort(EdgeLeq, edges));
    var sorted := Sort(EdgeLeq, edges);
    forall e ensures e in sorted <==> e in edges {
      assert multiset(sorted)[e] == multiset(edges)[e];
    }
  }

  /** Collapsing an emitted level again emits what collapsing at once would have. */
  lemma LevelTwice(package: Name, deep: Depth, shallow: Depth, modules: seq<Name>, edges: seq<Edge>)
    requires shallow <= deep && forall e | e in edges :: NoNul(e.0) && NoNul(e.1)
    ensures var level := PythonLevel(package, deep, modules, edges);
      PythonLevel(package, shallow, level.nodes, level.edges) == PythonLevel(package, shallow, modules, edges)
  {
    var level := PythonLevel(package, deep, modules, edges);
    LevelIsQuotient(package, deep, modules, edges);
    CollapseTwice(package, deep, shallow, GraphOf(modules, edges));
    EdgeListNoNul(package, deep, edges);
    NoNulKeysApart(EdgeList(package, deep, edges));
    LevelEdges(EdgeList(package, deep, edges));
    HeldEdges(EdgeList(package, deep, edges));
    assert forall e | e in level.edges :: NoNul(e.0) && NoNul(e.1);
    SameQuotient(package, shallow, level.nodes, level.edges, modules, edges);
  }

  lemma SameQuotient(package: Name, depth: Depth, n1: seq<Name>, e1: seq<Edge>, n2: seq<Name>, e2: seq<Edge>)
    requires forall e | e in e1 || e in e2 :: NoNul(e.0) && NoNul(e.1)
    requires Collapse(package, depth, GraphOf(n1, e1)) == Collapse(package, depth, GraphOf(n2, e2))
    ensures PythonLevel(package, depth, n1, e1) == PythonLevel(package, depth, n2, e2)
  {
    NodeListHolds(package, depth, n1);
    NodeListHolds(package, depth, n2);
    EdgeListHolds(package, depth, e1);
    EdgeListHolds(package, depth, e2);
    EdgeListNoNul(package, depth, e1);
    EdgeListNoNul(package, depth, e2);
    NoNulKeysApart(EdgeList(package, depth, e1));
    NoNulKeysApart(EdgeList(package, depth, e2));
    assert forall n :: n in NodeList(package, depth, n1) <==> n in Collapse(package, depth, GraphOf(n1, e1)).nodes;
    assert SameSets(NodeList(package, depth, n1), EdgeList(package, depth, e1),
                    NodeList(package, depth, n2), EdgeList(package, depth, e2)) by {
      assert Collapse(package, depth, GraphOf(n1, e1)).edges == EdgesOf(package, depth, set e | e in e1);
      assert Collapse(package, depth, GraphOf(n2, e2)).edges == EdgesOf(package, depth, set e | e in e2);
    }
    NormalDependsOnSets(NodeList(package, depth, n1), EdgeList(package, depth, e1),
                        NodeList(package, depth, n2), EdgeList(package, depth, e2));
  }
}
