/** Unique diagram ids for the nodes of a level (tools/architecture-graph.ts). */
module MermaidIds {
  import opened Decimals
  import opened Separators

  predicate IsAlphanumeric(c: char) {
    'A' <= c <= 'Z' || 'a' <= c <= 'z' || '0' <= c <= '9'
  }

  /** `node.replace(/[^A-Za-z0-9]+/gu, '_')`: each run of other characters becomes one underscore. */
  function Simplified(node: string): string {
    if node == "" then ""
    else if IsAlphanumeric(node[0]) then [node[0]] + Simplified(node[1..])
    else
      var rest := Simplified(node[1..]);
      if |node| > 1 && !IsAlphanumeric(node[1]) then rest else "_" + rest
  }

  predicate AllAlphanumeric(s: string) {
    forall i | 0 <= i < |s| :: IsAlphanumeric(s[i])
  }

  /** A run of at least one other character. */
  predicate IsGap(s: string) {
    s != "" && forall i | 0 <= i < |s| :: !IsAlphanumeric(s[i])
  }

  /** Words with a gap between each two of them; only the first and the last word may be empty. */
  predicate Alternates(words: seq<string>, gaps: seq<string>) {
    && |words| == |gaps| + 1
    && (forall i | 0 <= i < |words| :: AllAlphanumeric(words[i])) && (forall i | 0 <= i < |gaps| :: IsGap(gaps[i]))
    && forall i | 0 < i < |words| - 1 :: words[i] != ""
  }

  function Woven(words: seq<string>, gaps: seq<string>): string
    requires |words| == |gaps| + 1
    decreases gaps
  {
    words[0] + if gaps == [] then "" else gaps[0] + Woven(words[1..], gaps[1..])
  }

  lemma {:induction false} WordStays(word: string, rest: string)
    requires AllAlphanumeric(word)
    ensures Simplified(word + rest) == word + Simplified(rest)
  {
    if word == "" {
      assert word + rest == rest;
    } else {
      WordStays(word[1..], rest);
      assert (word + rest)[1..] == word[1..] + rest;
    }
  }

  lemma {:induction false} GapShrinks(gap: string, rest: string)
    requires IsGap(gap) && (rest == "" || IsAlphanumeric(rest[0]))
    ensures Simplified(gap + rest) == "_" + Simplified(rest)
  {
    assert (gap + rest)[1..] == gap[1..] + rest;
    if |gap| > 1 {
      assert (gap + rest)[1] == gap[1];
      GapShrinks(gap[1..], rest);
    } else if rest != "" {
      assert (gap + rest)[1] == rest[0];
    }
  }

  lemma WovenStart(words: seq<string>, gaps: seq<string>)
    requires |words| == |gaps| + 1 && AllAlphanumeric(words[0]) && (gaps != [] ==> words[0] != "")
    ensures Woven(words, gaps) == "" || IsAlphanumeric(Woven(words, gaps)[0])
  {
  }

  /** Simplifying keeps every word and puts one underscore for each gap. */
  lemma {:induction false} SimplifiedExactly(words: seq<string>, gaps: seq<string>)
    requires Alternates(words, gaps)
    ensures Simplified(Woven(words, gaps)) == Joined(words, '_')
    decreases gaps
  {
    if gaps == [] {
      JoinedOne(words[0], '_');
      WordStays(words[0], "");
      assert words == [words[0]] && words[0] + "" == words[0];
    } else {
      var rest := Woven(words[1..], gaps[1..]);
      SimplifiedExactly(words[1..], gaps[1..]);
      WovenStart(words[1..], gaps[1..]);
      hide Simplified, Joined, Alternates;
      assert words == [words[0]] + words[1..];
      JoinedMore(words[0], words[1..], '_');
      GapShrinks(gaps[0], rest);
      WordStays(words[0], gaps[0] + rest);
      assert words[0] + ("_" + Joined(words[1..], '_')) == words[0] + ['_'] + Joined(words[1..], '_');
    }
  }

  /** Every node name consists of such words and gaps. */
  lemma {:induction false} WordsAndGaps(node: string) returns (words: seq<string>, gaps: seq<string>)
    ensures Alternates(words, gaps) && Woven(words, gaps) == node
  {
    if node == "" {
      words, gaps := [""], [];
    } else {
      var c := [node[0]];
      assert node == c + node[1..];
      var ws, gs := WordsAndGaps(node[1..]);
      if IsAlphanumeric(node[0]) {
        words, gaps := [c + ws[0]] + ws[1..], gs;
        assert words[1..] == ws[1..];
      } else if ws[0] == "" && gs != [] {
        words, gaps := ws, [c + gs[0]] + gs[1..];
        assert gaps[1..] == gs[1..];
      } else {
        words, gaps := [""] + ws, [c] + gs;
        assert words[1..] == ws && gaps[1..] == gs;
      }
    }
  }

  function Base(node: string): string {
    "n_" + Simplified(node)
  }

  /** The id tried in turn `k`: the base itself, then the base with a suffix from 2 on. */
  function Candidate(base: string, k: nat): string {
    if k <= 1 then base else base + "_" + Decimal(k)
  }

  lemma CandidatesDiffer(base: string, i: nat, j: nat)
    requires 1 <= i && 1 <= j && Candidate(base, i) == Candidate(base, j)
    ensures i == j
  {
    var s := Candidate(base, i);
    if i > 1 && j > 1 {
      assert Decimal(i) == s[|base| + 1..] == Decimal(j);
      DecimalInjective(i, j);
    }
  }

  ghost predicate Taken(used: set<string>, base: string, k: nat) {
    forall j | 1 <= j < k :: Candidate(base, j) in used
  }

  /** That many tries can fail only against as many used ids. */
  lemma {:induction false} TriesBounded(used: set<string>, base: string, k: nat)
    requires 1 <= k && Taken(used, base, k)
    ensures k <= |used| + 1
    decreases k
  {
    if k > 1 {
      var last := Candidate(base, k - 1);
      forall j | 1 <= j < k - 1 ensures Candidate(base, j) in used - {last} {
        if Candidate(base, j) == last { CandidatesDiffer(base, j, k - 1); }
      }
      TriesBounded(used - {last}, base, k - 1);
    }
  }

  /** The first try that is free. */
  function FirstFree(used: set<string>, base: string, k: nat): (r: nat)
    requires 1 <= k && Taken(used, base, k)
    ensures k <= r && Taken(used, base, r) && Candidate(base, r) !in used
    decreases |used| + 1 - k
  {
    if Candidate(base, k) !in used then k
    else
      TriesBounded(used, base, k + 1);
      FirstFree(used, base, k + 1)
  }

  /** The id is the base, or the base with the least number from 2 on that makes it new. */
  lemma FreeIdExactly(used: set<string>, node: string)
    ensures var base, id := "n_" + Simplified(node), FreeId(used, node);
      if base !in used then id == base
      else exists k: nat :: k >= 2 && id == base + "_" + Decimal(k) && id !in used
             && forall j | 2 <= j < k :: base + "_" + Decimal(j) in used
  {
    var base := Base(node);
    var k := FirstFree(used, base, 1);
    if base in used {
      assert k >= 2;
      forall j | 2 <= j < k ensures base + "_" + Decimal(j) in used { assert Candidate(base, j) in used; }
    } else {
      assert Candidate(base, 1) == base;
    }
  }

  datatype Ids = Ids(ids: map<string, string>, used: set<string>)

  function FreeId(used: set<string>, node: string): string {
    Candidate(Base(node), FirstFree(used, Base(node), 1))
  }

  function Assigned(nodes: seq<string>): Ids {
    if nodes == [] then Ids(map[], {})
    else
      var before := Assigned(nodes[..|nodes| - 1]);
      var node := nodes[|nodes| - 1];
      var id := FreeId(before.used, node);
      Ids(before.ids[node := id], before.used + {id})
  }

  /** The suffix search ends, because only finitely many ids are used. */
  method FindId(used: set<string>, node: string) returns (id: string)
    ensures id == FreeId(used, node)
  {
    var base := Base(node);
    id := base;
    var suffix := 2;
    while id in used
      invariant 2 <= suffix && id == Candidate(base, suffix - 1) && Taken(used, base, suffix - 1)
      invariant FirstFree(used, base, suffix - 1) == FirstFree(used, base, 1)
      decreases |used| + 2 - suffix
    {
      TriesBounded(used, base, suffix);
      id := base + "_" + Decimal(suffix);
      suffix := suffix + 1;
    }
  }

  method MermaidIds(nodes: seq<string>) returns (ids: map<string, string>)
    ensures ids == Assigned(nodes).ids
  {
    ids := map[];
    var used: set<string> := {};
    for i := 0 to |nodes|
      invariant Ids(ids, used) == Assigned(nodes[..i])
    {
      assert nodes[..i + 1][..i] == nodes[..i];
      var id := FindId(used, nodes[i]);
      used := used + {id};
      ids := ids[nodes[i] := id];
    }
    assert nodes[..|nodes|] == nodes;
  }

  /** Every node has an id, and different nodes have different ids, whatever the list. */
  lemma {:induction false} IdsAreUnique(nodes: seq<string>)
    ensures forall n :: n in Assigned(nodes).ids <==> n in nodes
    ensures forall n | n in Assigned(nodes).ids :: Assigned(nodes).ids[n] in Assigned(nodes).used
    ensures forall a, b | a in nodes && b in nodes && a != b :: Assigned(nodes).ids[a] != Assigned(nodes).ids[b]
  {
    if nodes != [] {
      var front := nodes[..|nodes| - 1];
      IdsAreUnique(front);
      assert nodes == front + [nodes[|nodes| - 1]];
    }
  }

  predicate Safe(s: string) {
    forall i | 0 <= i < |s| :: IsAlphanumeric(s[i]) || s[i] == '_'
  }

  lemma {:induction false} SimplifiedIsSafe(node: string)
    ensures Safe(Simplified(node))
  {
    if node != "" { SimplifiedIsSafe(node[1..]); }
  }

  /** An id is made of letters, digits and underscores, and begins like every id. */
  lemma {:induction false} IdsAreSafe(nodes: seq<string>)
    ensures forall n | n in Assigned(nodes).ids :: Safe(Assigned(nodes).ids[n]) && "n_" <= Assigned(nodes).ids[n]
  {
    if nodes != [] {
      var front, node := nodes[..|nodes| - 1], nodes[|nodes| - 1];
      IdsAreSafe(front);
      SimplifiedIsSafe(node);
      var base := Base(node);
      assert Safe(base);
      assert "n_" <= base;
      var id := FreeId(Assigned(front).used, node);
      assert base <= id;
    }
  }
}
