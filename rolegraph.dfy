/** The role definition `g = _, _`: grouping rules are edges `member -> group`,
    and `g(a, b)` holds when `b` can be reached from `a` along those edges. */
module RoleGraph {

  /** One grouping rule (`ptype = g`, columns v0 and v1). */
  datatype Grouping = Grouping(member: string, group: string)

  /** `path` follows grouping edges from `path[0]` to its last element. */
  ghost predicate IsPath(edges: seq<Grouping>, path: seq<string>)
  {
    |path| >= 1 &&
    forall i :: 0 <= i < |path| - 1 ==> Grouping(path[i], path[i + 1]) in edges
  }

  /** Reference definition of role inheritance: some path leads from `from` to `to`.
      The path of length one makes every name reach itself. */
  ghost predicate Reachable(edges: seq<Grouping>, from: string, to: string)
  {
    exists path :: IsPath(edges, path) && path[0] == from && path[|path| - 1] == to
  }

  /** Every name that occurs as the group of some edge. */
  function Groups(edges: seq<Grouping>): set<string>
  {
    set e | e in edges :: e.group
  }

  /** `s` together with every group one edge away from a member of `s`. */
  function Step(edges: seq<Grouping>, s: set<string>): (t: set<string>)
    ensures s <= t
    ensures t - s <= Groups(edges)
  {
    s + set e | e in edges && e.member in s :: e.group
  }

  /** The least set containing `s` that is closed under `Step`. It terminates on
      cyclic grouping rules: every round adds a group not seen before. */
  function Closure(edges: seq<Grouping>, s: set<string>): (c: set<string>)
    ensures s <= c
    ensures Step(edges, c) == c
    decreases |Groups(edges) - s|
  {
    var t := Step(edges, s);
    if t == s then s
    else
      SmallerRemainder(Groups(edges), s, t);
      Closure(edges, t)
  }

  lemma SmallerRemainder(all: set<string>, s: set<string>, t: set<string>)
    requires s <= t && t != s && t - s <= all
    ensures |all - t| < |all - s|
  {
    assert t - s != {};
    var x :| x in t && x !in s;
    assert x in all - s;
    assert all - t <= (all - s) - {x};
    SubsetCardinality(all - t, (all - s) - {x});
  }

  lemma {:induction false} SubsetCardinality(a: set<string>, b: set<string>)
    requires a <= b
    ensures |a| <= |b|
    decreases |a|
  {
    if a != {} {
      var x :| x in a;
      SubsetCardinality(a - {x}, b - {x});
    }
  }

  /** `g(a, b)` of the matcher, computed as the closure of `{a}`. */
  predicate HasLink(edges: seq<Grouping>, a: string, b: string)
  {
    b in Closure(edges, {a})
  }

  lemma ReachableByEdge(edges: seq<Grouping>, a: string, m: string, g: string)
    requires Reachable(edges, a, m) && Grouping(m, g) in edges
    ensures Reachable(edges, a, g)
  {
    var path :| IsPath(edges, path) && path[0] == a && path[|path| - 1] == m;
    var longer := path + [g];
    assert forall i :: 0 <= i < |longer| - 1 ==> Grouping(longer[i], longer[i + 1]) in edges by {
      forall i | 0 <= i < |longer| - 1
        ensures Grouping(longer[i], longer[i + 1]) in edges
      {
        if i < |path| - 1 {
          assert longer[i] == path[i] && longer[i + 1] == path[i + 1];
        }
      }
    }
    assert IsPath(edges, longer);
  }

  /** Everything the closure computes is reachable from `a`. */
  lemma {:induction false} ClosureSound(edges: seq<Grouping>, a: string, s: set<string>)
    requires forall y :: y in s ==> Reachable(edges, a, y)
    ensures forall y :: y in Closure(edges, s) ==> Reachable(edges, a, y)
    decreases |Groups(edges) - s|
  {
    var t := Step(edges, s);
    forall y | y in t
      ensures Reachable(edges, a, y)
    {
      if y !in s {
        var e :| e in edges && e.member in s && e.group == y;
        ReachableByEdge(edges, a, e.member, y);
      }
    }
    if t != s {
      SmallerRemainder(Groups(edges), s, t);
      ClosureSound(edges, a, t);
    }
  }

  /** A set closed under `Step` contains the end of every path that starts in it. */
  lemma {:induction false} ClosedContainsPathEnd(edges: seq<Grouping>, c: set<string>, path: seq<string>)
    requires Step(edges, c) == c
    requires IsPath(edges, path) && path[0] in c
    ensures path[|path| - 1] in c
    decreases |path|
  {
    if |path| > 1 {
      var e := Grouping(path[0], path[1]);
      assert e in edges;
      assert path[1] in Step(edges, c);
      var rest := path[1..];
      assert forall i :: 0 <= i < |rest| - 1 ==> Grouping(rest[i], rest[i + 1]) in edges by {
        forall i | 0 <= i < |rest| - 1
          ensures Grouping(rest[i], rest[i + 1]) in edges
        {
          assert rest[i] == path[i + 1] && rest[i + 1] == path[i + 2];
        }
      }
      ClosedContainsPathEnd(edges, c, rest);
    }
  }

  /** The computed `g` agrees with path reachability in both directions. */
  lemma HasLinkIsReachable(edges: seq<Grouping>, a: string, b: string)
    ensures HasLink(edges, a, b) <==> Reachable(edges, a, b)
  {
    assert IsPath(edges, [a]);
    ClosureSound(edges, a, {a});
    if Reachable(edges, a, b) {
      var path :| IsPath(edges, path) && path[0] == a && path[|path| - 1] == b;
      ClosedContainsPathEnd(edges, Closure(edges, {a}), path);
    }
  }

  /** More grouping rules never remove an inherited role. */
  lemma HasLinkMonotone(edges: seq<Grouping>, more: seq<Grouping>, a: string, b: string)
    requires forall e :: e in edges ==> e in more
    requires HasLink(edges, a, b)
    ensures HasLink(more, a, b)
  {
    HasLinkIsReachable(edges, a, b);
    var path :| IsPath(edges, path) && path[0] == a && path[|path| - 1] == b;
    assert IsPath(more, path);
    HasLinkIsReachable(more, a, b);
  }

  /** Inheritance is transitive: member -> group1 -> group2 grants group2. */
  lemma HasLinkTransitive(edges: seq<Grouping>, a: string, b: string, c: string)
    requires HasLink(edges, a, b) && HasLink(edges, b, c)
    ensures HasLink(edges, a, c)
  {
    HasLinkIsReachable(edges, a, b);
    HasLinkIsReachable(edges, b, c);
    var p :| IsPath(edges, p) && p[0] == a && p[|p| - 1] == b;
    var q :| IsPath(edges, q) && q[0] == b && q[|q| - 1] == c;
    var pq := p + q[1..];
    assert forall i :: 0 <= i < |pq| - 1 ==> Grouping(pq[i], pq[i + 1]) in edges by {
      forall i | 0 <= i < |pq| - 1
        ensures Grouping(pq[i], pq[i + 1]) in edges
      {
        if i < |p| - 1 {
          assert pq[i] == p[i] && pq[i + 1] == p[i + 1];
        } else {
          var k := i - (|p| - 1);
          assert pq[i] == q[k] && pq[i + 1] == q[k + 1];
        }
      }
    }
    assert IsPath(edges, pq);
    HasLinkIsReachable(edges, a, c);
  }

  /** A name with no outgoing grouping rule inherits only itself. */
  lemma NoEdgesOnlySelf(edges: seq<Grouping>, a: string, b: string)
    requires forall e :: e in edges ==> e.member != a
    ensures HasLink(edges, a, b) <==> b == a
  {
    assert Step(edges, {a}) == {a};
  }
}
