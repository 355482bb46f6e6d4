/**
 Which node a module is collapsed to, stated on its segments and on its text
 (tools/architecture-graph.ts).
 */
module ModuleNodes {
  import opened Wrappers
  import opened Ordering
  import opened Separators
  import opened ReleaseTags
  import opened ModuleCollapse

  function Smaller(a: nat, b: nat): nat {
    if a < b then a else b
  }

  /** `n` is `m` cut off `depth` segments below the package, or `m` itself when it is not that deep. */
  predicate CutTo(package: Name, depth: Depth, m: Name, n: Name) {
    && package <= m && |package| < |m| && n <= m
    && |n| == |package| + Smaller(depth, |m| - |package|)
  }

  lemma NodeExactly(package: Name, depth: Depth, m: Name, n: Name)
    ensures NodeOf(package, depth, m) == Some(n) <==> CutTo(package, depth, m, n)
  {
    if n <= m { assert n == m[..|n|]; }
  }

  /** A module has no node exactly when it does not lie strictly below the package. */
  lemma NoNodeExactly(package: Name, depth: Depth, m: Name)
    ensures NodeOf(package, depth, m) == None <==> !(package <= m && |package| < |m|)
  {
  }

  /** The nodes of a level are the listed modules below the package, each cut to the depth. */
  lemma LevelNodesExactly(package: Name, depth: Depth, modules: seq<Name>, edges: seq<Edge>, n: Name)
    ensures n in PythonLevel(package, depth, modules, edges).nodes <==>
              exists m :: m in modules && CutTo(package, depth, m, n)
  {
    LevelNodes(NodeList(package, depth, modules));
    NodeListHolds(package, depth, modules);
    forall m ensures NodeOf(package, depth, m) == Some(n) <==> CutTo(package, depth, m, n) {
      NodeExactly(package, depth, m, n);
    }
    hide NodeOf, CutTo;
    var all := set m | m in modules;
    if n in NodesOf(package, depth, all) {
      var m :| m in all && NodeOf(package, depth, m) == Some(n);
    }
    if m :| m in modules && CutTo(package, depth, m, n) {
      assert NodeOf(package, depth, m).value in NodesOf(package, depth, all);
    }
  }

  /** Its edges, where no two projected imports share a key, are the imports between different nodes. */
  lemma LevelEdgesExactly(package: Name, depth: Depth, modules: seq<Name>, edges: seq<Edge>, x: Edge)
    requires KeysApart(EdgeList(package, depth, edges))
    ensures x in PythonLevel(package, depth, modules, edges).edges <==>
              x.0 != x.1 && exists e ::
                e in edges && CutTo(package, depth, e.0, x.0) && CutTo(package, depth, e.1, x.1)
  {
    LevelIsQuotientExactly(package, depth, modules, edges);
    var level, all := PythonLevel(package, depth, modules, edges), set e | e in edges;
    assert x in level.edges <==> x in GraphOf(level.nodes, level.edges).edges;
    if x in level.edges {
      var e := EdgeIsImport(package, depth, GraphOf(modules, edges), x);
      NodeExactly(package, depth, e.0, x.0);
      NodeExactly(package, depth, e.1, x.1);
    }
    if x.0 != x.1 && exists e :: e in edges && CutTo(package, depth, e.0, x.0) && CutTo(package, depth, e.1, x.1) {
      var e :| e in edges && CutTo(package, depth, e.0, x.0) && CutTo(package, depth, e.1, x.1);
      NodeExactly(package, depth, e.0, x.0);
      NodeExactly(package, depth, e.1, x.1);
      assert Project(package, depth, e) == x;
      assert x in EdgesOf(package, depth, all);
    }
  }

  // ---- The normal form ---------------------------------------------------------------------

  predicate SameKey(e: Edge, f: Edge) {
    Text(e.0) + [0 as char] + Text(e.1) == Text(f.0) + [0 as char] + Text(f.1)
  }

  /** `e` stands at `i`, between different nodes, and no such edge behind it has its key. */
  predicate LastAt(edges: seq<Edge>, e: Edge, i: nat) {
    && i < |edges| && edges[i] == e && e.0 != e.1
    && forall j | i < j < |edges| && edges[j].0 != edges[j].1 :: !SameKey(edges[j], e)
  }

  ghost predicate Survives(edges: seq<Edge>, e: Edge) {
    exists i: nat :: LastAt(edges, e, i)
  }

  lemma SurvivesStep(front: seq<Edge>, f: Edge, e: Edge)
    ensures Survives(front + [f], e) <==> if f.0 != f.1 && SameKey(f, e) then f == e else Survives(front, e)
  {
    hide SameKey;
    var edges := front + [f];
    if f.0 != f.1 && SameKey(f, e) {
      if f == e { assert LastAt(edges, e, |front|); }
      if i: nat :| LastAt(edges, e, i) { assert edges[|front|] == f; }
    } else {
      if i: nat :| LastAt(edges, e, i) {
        if i == |front| { Itself(e); }
        forall j | i < j < |front| && front[j].0 != front[j].1 ensures !SameKey(front[j], e) {
          assert edges[j] == front[j];
        }
        assert LastAt(front, e, i);
      }
      if i: nat :| LastAt(front, e, i) { assert LastAt(edges, e, i); }
    }
  }

  lemma Itself(e: Edge)
    ensures SameKey(e, e)
  {
  }

  lemma {:induction false} LastExactly(edges: seq<Edge>, e: Edge)
    ensures Last(edges, Key(e)) == Some(e) <==> Survives(edges, e)
  {
    if edges != [] {
      var front, f := edges[..|edges| - 1], edges[|edges| - 1];
      LastExactly(front, e);
      SurvivesStep(front, f, e);
      assert SameKey(f, e) <==> Key(f) == Key(e);
      hide Key, SameKey, Survives;
      assert edges == front + [f];
    }
  }

  /** Every node once; of edges between different nodes with the same key, the last one. */
  lemma NormalHolds(nodes: seq<Name>, edges: seq<Edge>)
    ensures var level := Normal(nodes, edges);
      && NoDuplicates(level.nodes) && (forall n :: n in level.nodes <==> n in nodes)
      && NoDuplicates(level.edges) && forall e :: e in level.edges <==> Survives(edges, e)
  {
    LevelNodes(nodes);
    LevelEdges(edges);
    forall e ensures e in ByKey(edges) <==> Survives(edges, e) {
      ByKeyHolds(edges, e);
      LastExactly(edges, e);
    }
  }

  /** Nodes stand in the order of their texts, edges in that of their first nodes and then of their second. */
  lemma NormalInOrder(nodes: seq<Name>, edges: seq<Edge>)
    ensures var level := Normal(nodes, edges);
      && (forall i, j | 0 <= i < j < |level.nodes| :: StrLeq(Text(level.nodes[i]), Text(level.nodes[j])))
      && forall i, j | 0 <= i < j < |level.edges| ::
           if level.edges[i].0 == level.edges[j].0 then StrLeq(Text(level.edges[i].1), Text(level.edges[j].1))
           else StrLeq(Text(level.edges[i].0), Text(level.edges[j].0))
  {
    hide StrLeq, Text, ByKey;
    LevelNodes(nodes);
    LevelEdges(edges);
    var level := Normal(nodes, edges);
    forall i, j | 0 <= i < j < |level.nodes| ensures StrLeq(Text(level.nodes[i]), Text(level.nodes[j])) {
      assert NameLeq(level.nodes[i], level.nodes[j]);
    }
    forall i, j | 0 <= i < j < |level.edges|
      ensures if level.edges[i].0 == level.edges[j].0 then StrLeq(Text(level.edges[i].1), Text(level.edges[j].1))
              else StrLeq(Text(level.edges[i].0), Text(level.edges[j].0))
    {
      assert EdgeLeq(level.edges[i], level.edges[j]);
    }
  }

  /** What decides the node of a module: its first segments below the package, at most `depth` of them. */
  function Deciding(package: Name, depth: Depth, m: Name): seq<Segment>
    requires package <= m
  {
    m[|package|..][..Smaller(depth, |m| - |package|)]
  }

  /** Two modules share a node exactly when they agree on those segments. */
  lemma SharedNodeExactly(package: Name, depth: Depth, a: Name, b: Name)
    requires Below(package, a) && Below(package, b)
    ensures NodeOf(package, depth, a) == NodeOf(package, depth, b)
            <==> Deciding(package, depth, a) == Deciding(package, depth, b)
  {
    Decided(package, depth, a);
    Decided(package, depth, b);
    hide Deciding, NodeOf;
    if NodeOf(package, depth, a) == NodeOf(package, depth, b) {
      var n := NodeOf(package, depth, a).value;
      assert n == package + Deciding(package, depth, a) == package + Deciding(package, depth, b);
      assert Deciding(package, depth, a) == n[|package|..] == Deciding(package, depth, b);
    }
  }

  lemma Decided(package: Name, depth: Depth, m: Name)
    requires Below(package, m)
    ensures NodeOf(package, depth, m).Some? && NodeOf(package, depth, m).value == package + Deciding(package, depth, m)
  {
  }

  // ---- On texts --------------------------------------------------------------------------

  /** The first `n` parts, or all when there are fewer. */
  function First(parts: seq<string>, n: nat): seq<string> {
    parts[..Smaller(n, |parts|)]
  }

  lemma {:induction false} SplitPart(x: string, rest: string)
    requires '.' !in x
    ensures Split(x + "." + rest, '.') == [x] + Split(rest, '.')
    decreases |x|
  {
    var s := x + "." + rest;
    if x == "" {
      assert s[1..] == rest;
    } else {
      assert s[1..] == x[1..] + "." + rest;
      SplitPart(x[1..], rest);
      assert [s[0]] + x[1..] == x;
    }
  }

  lemma {:induction false} SplitLast(x: string)
    requires '.' !in x
    ensures Split(x, '.') == [x]
    decreases |x|
  {
    if x != "" {
      SplitLast(x[1..]);
      assert [x[0]] + x[1..] == x;
    }
  }

  /** Splitting at the dots undoes joining. */
  lemma {:induction false} SplitJoined(parts: seq<Segment>)
    requires parts != []
    ensures Split(Joined(parts, '.'), '.') == parts
  {
    ClosedJoined(parts, '.');
    var text := Joined(parts, '.');
    if |parts| == 1 {
      assert Closed(parts, '.') == parts[0] + "." + Closed(parts[1..], '.') == parts[0] + ".";
      assert text == parts[0];
      SplitLast(parts[0]);
    } else {
      ClosedJoined(parts[1..], '.');
      assert Closed(parts, '.') == parts[0] + "." + Closed(parts[1..], '.');
      assert text + "." == parts[0] + "." + Joined(parts[1..], '.') + ".";
      assert text == (text + ".")[..|text|] == parts[0] + "." + Joined(parts[1..], '.');
      SplitPart(parts[0], Joined(parts[1..], '.'));
      SplitJoined(parts[1..]);
    }
  }

  /** The node's text: the package, a dot, and the first parts of what stands behind them in the module's text. */
  lemma NodeTextExactly(package: Name, depth: Depth, m: Name)
    requires Below(package, m)
    ensures var prefix := Text(package) + ".";
      && |prefix| <= |Text(m)| && prefix == Text(m)[..|prefix|]
      && Text(NodeOf(package, depth, m).value) == prefix + Joined(First(Split(Text(m)[|prefix|..], '.'), depth), '.')
  {
    var below := m[|package|..];
    assert m == package + below;
    JoinedConcat(package, below);
    SplitJoined(below);
    var n := NodeOf(package, depth, m).value;
    assert n == package + First(below, depth);
    JoinedConcat(package, First(below, depth));
  }

  lemma JoinedConcat(p: seq<Segment>, q: seq<Segment>)
    requires p != [] && q != []
    ensures Joined(p + q, '.') == Joined(p, '.') + "." + Joined(q, '.')
  {
    ClosedConcat(p, q, '.');
    ClosedJoined(p + q, '.');
    ClosedJoined(p, '.');
    ClosedJoined(q, '.');
    var x, y := Joined(p + q, '.'), Joined(p, '.') + "." + Joined(q, '.');
    assert x + "." == y + ".";
    assert x == (x + ".")[..|x|] && y == (y + ".")[..|y|];
  }
}
