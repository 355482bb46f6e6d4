/** Repository-relative paths as lists of segments, and what the code's string tests mean on them. */
module Paths {
  import opened Occurrences
  import opened Separators

  predicate IsSegment(s: string) {
    s != "" && s != "." && '/' !in s
  }

  type Segment = s: string | IsSegment(s) witness "a"

  /** The empty path is `.`, the workspace itself. */
  type Path = seq<Segment>

  function Slashed(p: Path): string {
    Closed(p, '/')
  }

  function Text(p: Path): string {
    if p == [] then "." else Joined(p, '/')
  }

  function Parent(p: Path): Path {
    if p == [] then [] else p[..|p| - 1]
  }

  /** `file === prefix || file.startsWith(prefix + '/')`, on texts. */
  predicate Under(prefix: string, file: string) {
    file == prefix || Occurs(file, 0, prefix + "/")
  }

  lemma SlashedText(p: Path)
    requires p != []
    ensures Slashed(p) == Text(p) + "/" && |Text(p)| > 0
  {
    ClosedJoined(p, '/');
    assert |Slashed(p)| >= |p[0]| + 1;
  }

  lemma UnderSlashed(p: Path, f: Path)
    requires p != [] && f != []
    ensures Under(Text(p), Text(f)) <==> Slashed(p) <= Slashed(f)
  {
    SlashedText(p);
    SlashedText(f);
    var u, v := Text(p) + "/", Text(f) + "/";
    if Occurs(Text(f), 0, u) {
      forall k | 0 <= k < |u| ensures v[k] == u[k] { OccursAt(Text(f), 0, u, k); }
    }
    if u <= v {
      if |u| == |v| {
        assert Text(f) == v[..|v| - 1] == u[..|u| - 1] == Text(p);
      } else {
        forall k | 0 <= k < |u| ensures Text(f)[k] == u[k] { assert v[k] == u[k]; }
      }
    }
  }

  /** The string test is the ancestor test. */
  lemma UnderExactly(p: Path, f: Path)
    requires p != [] && f != []
    ensures Under(Text(p), Text(f)) <==> p <= f
  {
    UnderSlashed(p, f);
    ClosedPrefix(p, f, '/');
  }

  lemma TextInjective(p: Path, q: Path)
    ensures Text(p) == Text(q) ==> p == q
  {
    if p != [] && q != [] && Text(p) == Text(q) {
      JoinedInjective(p, q, '/');
    }
    if p != [] { NotDot(p); }
    if q != [] { NotDot(q); }
  }

  lemma NotDot(p: Path)
    requires p != []
    ensures Text(p) != "."
  {
    ClosedJoined(p, '/');
    if |p| == 1 {
      assert p[1..] == [];
      assert Text(p) == p[0];
    } else {
      SlashedText(p[1..]);
      assert |Slashed(p)| == |p[0]| + 1 + |Slashed(p[1..])|;
    }
  }

  /** The length the code ranks a matching prefix by: `.` counts as nothing. */
  function Rank(p: Path): nat {
    if p == [] then 0 else |Text(p)|
  }

  /** Of two ancestors of a file the longer text is the deeper directory. */
  lemma RankExactly(p: Path, q: Path, f: Path)
    requires p <= f && q <= f
    ensures Rank(p) < Rank(q) <==> |p| < |q|
  {
    if |p| < |q| {
      RankGrows(p, q);
    } else if |q| < |p| {
      RankGrows(q, p);
    } else {
      assert p == q;
    }
  }

  lemma RankGrows(p: Path, q: Path)
    requires p <= q && |p| < |q|
    ensures Rank(p) < Rank(q)
  {
    assert q == p + q[|p|..];
    ClosedConcat(p, q[|p|..], '/');
    SlashedText(q);
    SlashedText(q[|p|..]);
    if p != [] { SlashedText(p); }
  }

  /** `posix.dirname` of a relative path text: what stands before the last slash. */
  function Dirname(s: string): string {
    if '/' !in s then "." else BeforeLastSlash(s)
  }

  function BeforeLastSlash(s: string): string
    requires '/' in s
  {
    if s[|s| - 1] == '/' then s[..|s| - 1] else BeforeLastSlash(s[..|s| - 1])
  }

  lemma {:induction false} LastSlash(x: string, y: string)
    requires '/' !in y
    ensures BeforeLastSlash(x + "/" + y) == x
    decreases |y|
  {
    var s := x + "/" + y;
    if y == "" {
      assert s[..|s| - 1] == x;
    } else {
      LastSlash(x, y[..|y| - 1]);
      assert s[|s| - 1] == y[|y| - 1];
      assert s[..|s| - 1] == x + "/" + y[..|y| - 1];
    }
  }

  /** Dropping the last segment is what `dirname` does to the text. */
  lemma DirnameExactly(p: Path)
    requires p != []
    ensures Dirname(Text(p)) == Text(Parent(p))
  {
    var last := p[|p| - 1];
    assert p == Parent(p) + [last];
    ClosedConcat(Parent(p), [last], '/');
    SlashedText(p);
    assert Slashed([last]) == last + "/";
    if |p| == 1 {
      assert Text(p) == last;
    } else {
      SlashedText(Parent(p));
      assert Text(p) == Text(Parent(p)) + "/" + last;
      LastSlash(Text(Parent(p)), last);
    }
  }
}
