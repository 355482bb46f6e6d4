/** Texts made of parts between separators: paths by slashes, module names by dots. */
module Separators {

  /** The parts with a separator behind each of them. */
  function Closed(parts: seq<string>, sep: char): string {
    if parts == [] then "" else parts[0] + [sep] + Closed(parts[1..], sep)
  }

  /** `parts.join(sep)`. */
  function Joined(parts: seq<string>, sep: char): string {
    if parts == [] then "" else Closed(parts, sep)[..|Closed(parts, sep)| - 1]
  }

  ghost predicate Apart(parts: seq<string>, sep: char) {
    forall i | 0 <= i < |parts| :: sep !in parts[i]
  }

  lemma {:induction false} ClosedJoined(parts: seq<string>, sep: char)
    requires parts != []
    ensures Closed(parts, sep) == Joined(parts, sep) + [sep]
  {
    if |parts| > 1 {
      ClosedJoined(parts[1..], sep);
    }
  }

  lemma JoinedOne(part: string, sep: char)
    ensures Joined([part], sep) == part
  {
    assert Closed([part], sep) == part + [sep] + Closed([], sep);
  }

  lemma JoinedMore(part: string, rest: seq<string>, sep: char)
    requires rest != []
    ensures Joined([part] + rest, sep) == part + [sep] + Joined(rest, sep)
  {
    ClosedJoined(rest, sep);
    ClosedJoined([part] + rest, sep);
    assert ([part] + rest)[1..] == rest;
  }

  /** The first separator closes the first part. */
  lemma FirstPart(a: string, x: string, b: string, y: string, sep: char)
    requires sep !in a && sep !in b && a + [sep] + x <= b + [sep] + y
    ensures a == b && x <= y
  {
    var u, v := a + [sep] + x, b + [sep] + y;
    assert u[|a|] == sep == v[|a|];
    assert v[|b|] == sep;
    var k := if |b| < |a| then |b| else |a|;
    assert u[k] == (a + [sep])[k];
    var n := if |a| < |b| then |a| else |b|;
    assert v[n] == (b + [sep])[n];
    assert a == u[..|a|] == v[..|a|] == b;
    assert x == u[|a| + 1..] && y == v[|b| + 1..];
  }

  /** One closed text begins another exactly when the parts do. */
  lemma {:induction false} ClosedPrefix(p: seq<string>, q: seq<string>, sep: char)
    requires Apart(p, sep) && Apart(q, sep)
    ensures Closed(p, sep) <= Closed(q, sep) <==> p <= q
    decreases |p|
  {
    if p == [] {
    } else if q == [] {
    } else {
      ClosedPrefix(p[1..], q[1..], sep);
      if Closed(p, sep) <= Closed(q, sep) {
        FirstPart(p[0], Closed(p[1..], sep), q[0], Closed(q[1..], sep), sep);
        assert p == [p[0]] + p[1..] && q == [q[0]] + q[1..];
      }
      if p <= q {
        assert p[1..] <= q[1..];
      }
    }
  }

  lemma JoinedInjective(p: seq<string>, q: seq<string>, sep: char)
    requires p != [] && q != [] && Apart(p, sep) && Apart(q, sep) && Joined(p, sep) == Joined(q, sep)
    ensures p == q
  {
    ClosedJoined(p, sep);
    ClosedJoined(q, sep);
    ClosedPrefix(p, q, sep);
    ClosedPrefix(q, p, sep);
  }

  lemma {:induction false} ClosedConcat(p: seq<string>, q: seq<string>, sep: char)
    ensures Closed(p + q, sep) == Closed(p, sep) + Closed(q, sep)
    decreases |p|
  {
    if p == [] {
      assert p + q == q;
    } else {
      ClosedConcat(p[1..], q, sep);
      assert (p + q)[1..] == p[1..] + q;
    }
  }
}
