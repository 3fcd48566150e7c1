/**
 Finite directed graphs, as both the variable table and the policy resolver
 see them: a node maps to the set of nodes it refers to.  A reference may point
 at something that is not a node (an undefined policy name).
 */
module Digraph {

  type Graph<V> = map<V, set<V>>

  ghost predicate Edge<V>(g: Graph<V>, v: V, w: V) {
    v in g && w in g[v]
  }

  ghost predicate IsPath<V>(g: Graph<V>, p: seq<V>) {
    |p| > 0 && forall k :: 0 < k < |p| ==> Edge(g, p[k - 1], p[k])
  }

  /** A closed path: at least one edge, ending where it started. */
  ghost predicate IsCycle<V>(g: Graph<V>, p: seq<V>) {
    |p| > 1 && IsPath(g, p) && p[0] == p[|p| - 1]
  }

  ghost predicate Acyclic<V(!new)>(g: Graph<V>) {
    forall p: seq<V> :: !IsCycle(g, p)
  }

  ghost predicate Reaches<V(!new)>(g: Graph<V>, v: V, w: V) {
    exists p: seq<V> :: IsPath(g, p) && p[0] == v && p[|p| - 1] == w
  }

  /** `rank` orders every node above all the nodes it refers to. */
  ghost predicate RankedBy<V>(g: Graph<V>, rank: map<V, nat>) {
    && g.Keys <= rank.Keys
    && forall v, w :: v in g && w in g[v] && w in g ==> rank[w] < rank[v]
  }

  /** A ranking of some of the nodes, closed under references. */
  ghost predicate PartialRank<V>(g: Graph<V>, rank: map<V, nat>) {
    && rank.Keys <= g.Keys
    && (forall v, w :: v in rank && w in g[v] && w in g ==> w in rank && rank[w] < rank[v])
    && forall v :: v in rank ==> rank[v] < |rank|
  }

  lemma PathDescends<V>(g: Graph<V>, rank: map<V, nat>, p: seq<V>, k: nat)
    requires RankedBy(g, rank) && IsPath(g, p)
    requires k < |p| && p[|p| - 1] in g
    ensures p[k] in g && rank[p[|p| - 1]] <= rank[p[k]]
    ensures k < |p| - 1 ==> rank[p[|p| - 1]] < rank[p[k]]
    decreases |p| - k
  {
    if k < |p| - 1 {
      assert Edge(g, p[k + 1 - 1], p[k + 1]);
      PathDescends(g, rank, p, k + 1);
    }
  }

  /** A ranking rules out every closed path. */
  lemma RankedIsAcyclic<V(!new)>(g: Graph<V>, rank: map<V, nat>)
    requires RankedBy(g, rank)
    ensures Acyclic(g)
  {
    forall p: seq<V> ensures !IsCycle(g, p) {
      if IsCycle(g, p) {
        assert Edge(g, p[1 - 1], p[1]);
        PathDescends(g, rank, p, 0);
      }
    }
  }

  lemma PathSnoc<V>(g: Graph<V>, p: seq<V>, v: V)
    requires p == [] || (IsPath(g, p) && Edge(g, p[|p| - 1], v))
    ensures IsPath(g, p + [v])
  {
    var q := p + [v];
    forall k | 0 < k < |q| ensures Edge(g, q[k - 1], q[k]) {
      if k < |p| {
        assert Edge(g, p[k - 1], p[k]);
      }
    }
  }

  /** Reaching back into the path being explored closes a cycle. */
  lemma ClosesCycle<V>(g: Graph<V>, p: seq<V>, k: nat, v: V)
    requires k < |p| && p[k] == v && IsPath(g, p) && Edge(g, p[|p| - 1], v)
    ensures IsCycle(g, p[k..] + [v])
  {
    var q := p[k..];
    forall j | 0 < j < |q| ensures Edge(g, q[j - 1], q[j]) {
      assert Edge(g, p[k + j - 1], p[k + j]);
    }
    PathSnoc(g, q, v);
  }

  /** Adding one node whose references are all ranked keeps a partial ranking. */
  lemma RankOneMore<V>(g: Graph<V>, rank: map<V, nat>, v: V)
    requires PartialRank(g, rank) && v in g && v !in rank
    requires forall w :: w in g[v] && w in g ==> w in rank
    ensures PartialRank(g, rank[v := |rank|])
  {
    var r := rank[v := |rank|];
    assert r.Keys == rank.Keys + {v};
    assert |r| == |r.Keys| == |rank.Keys| + 1;
  }

  /** Depth-first ranking of `todo`, all of it reached along `path`. */
  lemma {:induction false} Explore<V(!new)>(g: Graph<V>, path: seq<V>, todo: set<V>, rank: map<V, nat>)
    returns (r: map<V, nat>)
    requires Acyclic(g) && PartialRank(g, rank)
    requires path == [] || IsPath(g, path)
    requires forall v :: v in todo ==> v in g && (path == [] || Edge(g, path[|path| - 1], v))
    ensures PartialRank(g, r)
    ensures rank.Keys + todo <= r.Keys
    decreases g.Keys - (set v | v in path), todo
  {
    if todo == {} {
      return rank;
    }
    var v :| v in todo;
    r := rank;
    if v !in rank {
      if v in path {
        var k :| 0 <= k < |path| && path[k] == v;
        ClosesCycle(g, path, k, v);
        assert false;
      }
      PathSnoc(g, path, v);
      assert (set u | u in path + [v]) == (set u | u in path) + {v};
      r := Explore(g, path + [v], g[v] * g.Keys, rank);
      if v !in r {
        RankOneMore(g, r, v);
        r := r[v := |r|];
      }
    }
    r := Explore(g, path, todo - {v}, r);
  }

  /** Without closed paths, a ranking exists; with `RankedIsAcyclic`, exactly then. */
  lemma AcyclicIsRanked<V(!new)>(g: Graph<V>)
    requires Acyclic(g)
    ensures exists rank: map<V, nat> :: RankedBy(g, rank)
  {
    var r := Explore(g, [], g.Keys, map[]);
    assert RankedBy(g, r);
  }

  ghost function Rank<V(!new)>(g: Graph<V>): (rank: map<V, nat>)
    requires Acyclic(g)
    ensures RankedBy(g, rank)
  {
    AcyclicIsRanked(g);
    var rank :| RankedBy(g, rank);
    rank
  }

  lemma ReachesSelf<V(!new)>(g: Graph<V>, v: V)
    ensures Reaches(g, v, v)
  {
    assert IsPath(g, [v]);
  }

  lemma ReachesStep<V(!new)>(g: Graph<V>, u: V, v: V, w: V)
    requires Edge(g, u, v) && Reaches(g, v, w)
    ensures Reaches(g, u, w)
  {
    var p: seq<V> :| IsPath(g, p) && p[0] == v && p[|p| - 1] == w;
    var q := [u] + p;
    forall k | 0 < k < |q| ensures Edge(g, q[k - 1], q[k]) {
      if k > 1 {
        assert Edge(g, p[k - 2], p[k - 1]);
      }
    }
    assert IsPath(g, q) && q[0] == u && q[|q| - 1] == w;
  }

  lemma ReachesBack<V(!new)>(g: Graph<V>, v: V, w: V)
    requires Edge(g, v, w) && Reaches(g, w, v)
    ensures !Acyclic(g)
  {
    var p: seq<V> :| IsPath(g, p) && p[0] == w && p[|p| - 1] == v;
    PathSnoc(g, p, w);
    assert IsCycle(g, p + [w]);
  }

  /** Reachability, one edge at a time. */
  lemma ReachesUnfold<V(!new)>(g: Graph<V>, u: V, w: V)
    ensures Reaches(g, u, w) <==> u == w || exists v :: Edge(g, u, v) && Reaches(g, v, w)
  {
    if Reaches(g, u, w) && u != w {
      var p: seq<V> :| IsPath(g, p) && p[0] == u && p[|p| - 1] == w;
      var q := p[1..];
      assert Edge(g, p[1 - 1], p[1]);
      forall k | 0 < k < |q| ensures Edge(g, q[k - 1], q[k]) {
        assert Edge(g, p[k], p[k + 1]);
      }
      assert IsPath(g, q) && q[0] == p[1] && q[|q| - 1] == w;
    }
    if u == w {
      ReachesSelf(g, u);
    }
    forall v | Edge(g, u, v) && Reaches(g, v, w) ensures Reaches(g, u, w) {
      ReachesStep(g, u, v, w);
    }
  }
}
