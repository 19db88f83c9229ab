/**
 * The graph as a value: every node name maps to the latencies of its outgoing edges, keyed by
 * child name. The object graph built from GraphNode objects is related to this view by
 * GraphNodes.View; all specifications of the traversal queries are stated over it.
 */
module GraphViews {
  import opened Wrappers

  /** node name -> (child name -> edge latency) */
  type Graph = map<string, map<string, int>>

  /** Names of the dependents of `u`; a name without an entry has none. */
  function Children(g: Graph, u: string): (cs: set<string>)
  {
    if u in g then g[u].Keys else {}
  }

  predicate HasEdge(g: Graph, a: string, b: string)
  {
    a in g && b in g[a]
  }

  /** `p` is a literal walk of `g`: every consecutive pair of names is an edge. */
  predicate IsPath(g: Graph, p: seq<string>)
  {
    forall i :: 0 <= i < |p| - 1 ==> HasEdge(g, p[i], p[i + 1])
  }

  lemma PathPrefix(g: Graph, p: seq<string>, n: nat)
    requires IsPath(g, p) && n <= |p|
    ensures IsPath(g, p[..n])
  {
    forall i | 0 <= i < n - 1
      ensures HasEdge(g, p[..n][i], p[..n][i + 1])
    {
      assert p[..n][i] == p[i] && p[..n][i + 1] == p[i + 1];
    }
  }

  /** Sum of the edge latencies along a walk (0 for a walk of fewer than two names). */
  function Latency(g: Graph, p: seq<string>): (lat: int)
    requires IsPath(g, p)
  {
    if |p| <= 1 then 0
    else
      PathPrefix(g, p, |p| - 1);
      assert HasEdge(g, p[|p| - 2], p[|p| - 1]);
      Latency(g, p[..|p| - 1]) + g[p[|p| - 2]][p[|p| - 1]]
  }

  /** A walk of two or more names is a first edge followed by a walk. */
  lemma PathCons(g: Graph, w: seq<string>)
    requires |w| >= 2
    ensures IsPath(g, w) <==> HasEdge(g, w[0], w[1]) && IsPath(g, w[1..])
  {
    var v := w[1..];
    if HasEdge(g, w[0], w[1]) && IsPath(g, v) {
      forall i | 0 <= i < |w| - 1
        ensures HasEdge(g, w[i], w[i + 1])
      {
        if i > 0 {
          assert w[i] == v[i - 1] && w[i + 1] == v[i];
        }
      }
    }
    if IsPath(g, w) {
      forall i | 0 <= i < |v| - 1
        ensures HasEdge(g, v[i], v[i + 1])
      {
        assert v[i] == w[i + 1] && v[i + 1] == w[i + 2];
      }
    }
  }

  /** Extending a walk by one edge adds that edge's latency. */
  lemma PathExtend(g: Graph, p: seq<string>, x: string)
    requires IsPath(g, p) && |p| >= 1 && HasEdge(g, p[|p| - 1], x)
    ensures IsPath(g, p + [x])
    ensures Latency(g, p + [x]) == Latency(g, p) + g[p[|p| - 1]][x]
  {
    var px := p + [x];
    forall i | 0 <= i < |px| - 1
      ensures HasEdge(g, px[i], px[i + 1])
    {
      if i < |p| - 1 {
        assert px[i] == p[i] && px[i + 1] == p[i + 1];
      }
    }
    assert px[..|px| - 1] == p;
  }

  /** A missing edge between two consecutive names breaks a walk. */
  lemma NotPath(g: Graph, p: seq<string>, j: nat)
    requires j + 1 < |p| && !HasEdge(g, p[j], p[j + 1])
    ensures !IsPath(g, p)
  {
  }

  /** Joining two walks at a shared name yields a walk whose latency is the sum of both. */
  lemma {:induction false} LatencyAppend(g: Graph, p: seq<string>, q: seq<string>)
    requires IsPath(g, p) && IsPath(g, q)
    requires |p| >= 1 && |q| >= 1 && p[|p| - 1] == q[0]
    ensures IsPath(g, p + q[1..])
    ensures Latency(g, p + q[1..]) == Latency(g, p) + Latency(g, q)
    decreases |q|
  {
    var pq := p + q[1..];
    forall i | 0 <= i < |pq| - 1
      ensures HasEdge(g, pq[i], pq[i + 1])
    {
      if i < |p| - 1 {
        assert pq[i] == p[i] && pq[i + 1] == p[i + 1];
      } else {
        assert pq[i] == q[i - |p| + 1] && pq[i + 1] == q[i - |p| + 2];
      }
    }
    if |q| > 1 {
      var q' := q[..|q| - 1];
      PathPrefix(g, q, |q| - 1);
      LatencyAppend(g, p, q');
      assert pq[..|pq| - 1] == p + q'[1..];
      assert pq[|pq| - 2] == q[|q| - 2] && pq[|pq| - 1] == q[|q| - 1];
    } else {
      assert pq == p;
    }
  }

  /**
   * What a walk count asks for: walks ending at `end` (at any node when `end` is None),
   * of exactly k hops when `exact` holds and of at most k hops otherwise.
   */
  datatype Query = Query(end: Option<string>, exact: bool)

  /** 1 when the zero-hop walk [u] is one the query counts with k hops left, else 0. */
  function Base(q: Query, u: string, k: nat): (b: nat)
  {
    if (k == 0 || !q.exact) && (q.end.None? || q.end.value == u) then 1 else 0
  }

  ghost function Pick(s: set<string>): (x: string)
    requires s != {}
    ensures x in s
  {
    var x :| x in s; x
  }

  /**
   * The number of walks u = v0 -> v1 -> ... -> vj of g that the query counts for the hop bound k
   * (j == k, or j <= k), cycles allowed.
   */
  ghost function Walks(g: Graph, q: Query, u: string, k: nat): (n: nat)
    decreases k, 0, 0
  {
    Base(q, u, k) + if k == 0 then 0 else SumWalks(g, q, Children(g, u), k - 1)
  }

  /** Sum of Walks(g, q, c, k) over the names c in cs. */
  ghost function SumWalks(g: Graph, q: Query, cs: set<string>, k: nat): (n: nat)
    decreases k, 1, |cs|
  {
    if cs == {} then 0
    else
      var c := Pick(cs);
      Walks(g, q, c, k) + SumWalks(g, q, cs - {c}, k)
  }

  /** The sum does not depend on the order in which the names are taken. */
  lemma {:induction false} SumWalksRemove(g: Graph, q: Query, cs: set<string>, k: nat, x: string)
    requires x in cs
    ensures SumWalks(g, q, cs, k) == Walks(g, q, x, k) + SumWalks(g, q, cs - {x}, k)
    decreases |cs|
  {
    var c := Pick(cs);
    if c != x {
      SumWalksRemove(g, q, cs - {c}, k, x);
      SumWalksRemove(g, q, cs - {x}, k, c);
      assert cs - {c} - {x} == cs - {x} - {c};
    }
  }

  /** Counting walks of exactly k hops never yields more than counting those of at most k hops. */
  lemma {:induction false} ExactAtMostWalks(g: Graph, end: Option<string>, u: string, k: nat)
    ensures Walks(g, Query(end, true), u, k) <= Walks(g, Query(end, false), u, k)
    decreases k, 0, 0
  {
    if k > 0 {
      ExactAtMostSum(g, end, Children(g, u), k - 1);
    }
  }

  lemma {:induction false} ExactAtMostSum(g: Graph, end: Option<string>, cs: set<string>, k: nat)
    ensures SumWalks(g, Query(end, true), cs, k) <= SumWalks(g, Query(end, false), cs, k)
    decreases k, 1, |cs|
  {
    if cs != {} {
      var c := Pick(cs);
      ExactAtMostWalks(g, end, c, k);
      ExactAtMostSum(g, end, cs - {c}, k);
    }
  }

  // ---------------------------------------------------------------------------------------------
  // The counts above, read as numbers of walk sequences.

  /** `w` is one of the walks from `u` that the query counts for the hop bound k. */
  predicate Counted(g: Graph, q: Query, w: seq<string>, u: string, k: nat)
  {
    && |w| >= 1
    && w[0] == u
    && IsPath(g, w)
    && (if q.exact then |w| - 1 == k else |w| - 1 <= k)
    && (q.end.None? || w[|w| - 1] == q.end.value)
  }

  ghost function Prefixed(u: string, s: set<seq<string>>): (ps: set<seq<string>>)
  {
    set w | w in s :: [u] + w
  }

  lemma PrefixedMember(u: string, s: set<seq<string>>, w: seq<string>)
    ensures w in Prefixed(u, s) <==> |w| >= 1 && w[0] == u && w[1..] in s
  {
    if |w| >= 1 && w[0] == u && w[1..] in s {
      assert w == [u] + w[1..];
    }
    if w in Prefixed(u, s) {
      var v :| v in s && w == [u] + v;
      assert w[1..] == v;
    }
  }

  /** The walks counted by Walks(g, q, u, k), built the same way. */
  ghost function WalkSet(g: Graph, q: Query, u: string, k: nat): (walks: set<seq<string>>)
    decreases k, 0, 0
  {
    (if Base(q, u, k) == 1 then {[u]} else {})
    + if k == 0 then {} else Prefixed(u, SumWalkSet(g, q, Children(g, u), k - 1))
  }

  ghost function SumWalkSet(g: Graph, q: Query, cs: set<string>, k: nat): (walks: set<seq<string>>)
    decreases k, 1, |cs|
  {
    if cs == {} then {}
    else
      var c := Pick(cs);
      WalkSet(g, q, c, k) + SumWalkSet(g, q, cs - {c}, k)
  }

  lemma {:induction false} WalkSetMember(g: Graph, q: Query, u: string, k: nat, w: seq<string>)
    ensures w in WalkSet(g, q, u, k) <==> Counted(g, q, w, u, k)
    decreases k, 0, 0
  {
    if |w| >= 2 && k > 0 {
      var w' := w[1..];
      assert w == [u] + w' <== w[0] == u;
      SumWalkSetMember(g, q, Children(g, u), k - 1, w');
      if Counted(g, q, w, u, k) {
        assert HasEdge(g, w[0], w[1]);
        forall i | 0 <= i < |w'| - 1
          ensures HasEdge(g, w'[i], w'[i + 1])
        {
          assert w'[i] == w[i + 1] && w'[i + 1] == w[i + 2];
        }
        assert w' in SumWalkSet(g, q, Children(g, u), k - 1);
      }
      if w in WalkSet(g, q, u, k) {
        assert w in Prefixed(u, SumWalkSet(g, q, Children(g, u), k - 1));
        var v :| v in SumWalkSet(g, q, Children(g, u), k - 1) && w == [u] + v;
        assert v == w';
        forall i | 0 <= i < |w| - 1
          ensures HasEdge(g, w[i], w[i + 1])
        {
          if i > 0 {
            assert w[i] == w'[i - 1] && w[i + 1] == w'[i];
          }
        }
      }
    } else if k > 0 {
      forall v | v in SumWalkSet(g, q, Children(g, u), k - 1)
        ensures |[u] + v| >= 2
      {
        SumWalkSetMember(g, q, Children(g, u), k - 1, v);
      }
      assert w !in Prefixed(u, SumWalkSet(g, q, Children(g, u), k - 1));
    }
    if |w| == 1 {
      assert w == [u] <==> w[0] == u;
    } else {
      assert w != [u];
    }
  }

  lemma {:induction false} SumWalkSetMember(g: Graph, q: Query, cs: set<string>, k: nat, w: seq<string>)
    ensures w in SumWalkSet(g, q, cs, k) <==> |w| >= 1 && w[0] in cs && Counted(g, q, w, w[0], k)
    decreases k, 1, |cs|
  {
    if cs != {} {
      var c := Pick(cs);
      WalkSetMember(g, q, c, k, w);
      SumWalkSetMember(g, q, cs - {c}, k, w);
    }
  }

  lemma {:induction false} PrefixedSize(u: string, s: set<seq<string>>)
    ensures |Prefixed(u, s)| == |s|
    decreases |s|
  {
    if s != {} {
      var w :| w in s;
      PrefixedSize(u, s - {w});
      forall v | v in s - {w}
        ensures [u] + v != [u] + w
      {
        assert ([u] + v)[1..] == v && ([u] + w)[1..] == w;
      }
      assert Prefixed(u, s) == Prefixed(u, s - {w}) + {[u] + w};
    }
  }

  /** Putting [u] beside the walks that leave u adds one sequence, since none of those is [u]. */
  lemma PrefixedSplit(u: string, b: bool, tails: set<seq<string>>)
    requires [] !in tails
    ensures |(if b then {[u]} else {}) + Prefixed(u, tails)| == (if b then 1 else 0) + |tails|
  {
    PrefixedSize(u, tails);
    PrefixedMember(u, tails, [u]);
    assert [u][1..] == [];
    if b {
      assert {[u]} * Prefixed(u, tails) == {};
    }
  }

  /** Every counted walk names at least its start. */
  lemma NoEmptyWalk(g: Graph, q: Query, cs: set<string>, k: nat)
    ensures [] !in SumWalkSet(g, q, cs, k)
  {
    SumWalkSetMember(g, q, cs, k, []);
  }

  /** WalkSet(g, q, u, k) holds the walks of its tails, one more each, besides [u] when counted. */
  lemma WalkSetSplit(g: Graph, q: Query, u: string, k: nat)
    requires k > 0
    ensures |WalkSet(g, q, u, k)| == Base(q, u, k) + |SumWalkSet(g, q, Children(g, u), k - 1)|
  {
    var tails := SumWalkSet(g, q, Children(g, u), k - 1);
    NoEmptyWalk(g, q, Children(g, u), k - 1);
    PrefixedSplit(u, Base(q, u, k) == 1, tails);
  }

  lemma {:induction false} WalkSetSize(g: Graph, q: Query, u: string, k: nat)
    ensures |WalkSet(g, q, u, k)| == Walks(g, q, u, k)
    decreases k, 0, 0
  {
    if k > 0 {
      SumWalkSetSize(g, q, Children(g, u), k - 1);
      WalkSetSplit(g, q, u, k);
    }
  }

  lemma {:induction false} SumWalkSetSize(g: Graph, q: Query, cs: set<string>, k: nat)
    ensures |SumWalkSet(g, q, cs, k)| == SumWalks(g, q, cs, k)
    decreases k, 1, |cs|
  {
    if cs != {} {
      var c := Pick(cs);
      WalkSetSize(g, q, c, k);
      SumWalkSetSize(g, q, cs - {c}, k);
      forall w | w in WalkSet(g, q, c, k)
        ensures w !in SumWalkSet(g, q, cs - {c}, k)
      {
        WalkSetMember(g, q, c, k, w);
        SumWalkSetMember(g, q, cs - {c}, k, w);
      }
      assert WalkSet(g, q, c, k) !! SumWalkSet(g, q, cs - {c}, k);
    }
  }

  /**
   * Walks(g, q, u, k) is the number of name sequences w = [u, ..., end] that are walks of g
   * with the hop count the query asks for.
   */
  lemma WalksCountsWalkSequences(g: Graph, q: Query, u: string, k: nat)
    ensures |WalkSet(g, q, u, k)| == Walks(g, q, u, k)
    ensures forall w :: w in WalkSet(g, q, u, k) <==> Counted(g, q, w, u, k)
  {
    WalkSetSize(g, q, u, k);
    forall w
      ensures w in WalkSet(g, q, u, k) <==> Counted(g, q, w, u, k)
    {
      WalkSetMember(g, q, u, k, w);
    }
  }
}
