/** Addresses coalesced by shared stable identities: the first-owner links of `devices()` yield
    exactly the connected components. */
module Coalesce {
  import opened Registry
  import opened UnionFind

  /** The stable identities seen at each tracked address. */
  type Graph = map<IpAddr, set<string>>

  function GraphOf(t: Table): Graph {
    map a | a in t :: t[a].identities
  }

  // ----- sharing an identity, through any chain -----

  ghost predicate Shares(g: Graph, a: IpAddr, b: IpAddr) {
    a in g && b in g && exists id :: id in g[a] && id in g[b]
  }

  ghost predicate Chain(g: Graph, p: seq<IpAddr>) {
    p != [] && (forall i :: 0 <= i < |p| ==> p[i] in g)
    && forall i :: 0 <= i < |p| - 1 ==> Shares(g, p[i], p[i + 1])
  }

  /** Reflexive-transitive closure of sharing an identity. */
  ghost predicate Connected(g: Graph, a: IpAddr, b: IpAddr) {
    exists p: seq<IpAddr> :: Chain(g, p) && p[0] == a && p[|p| - 1] == b
  }

  lemma ConnectedItself(g: Graph, a: IpAddr)
    requires a in g
    ensures Connected(g, a, a)
  {
    assert Chain(g, [a]);
  }

  lemma SharingConnects(g: Graph, a: IpAddr, b: IpAddr, id: string)
    requires a in g && b in g && id in g[a] && id in g[b]
    ensures Connected(g, a, b)
  {
    assert Shares(g, a, b);
    assert Chain(g, [a, b]);
    assert [a, b][0] == a && [a, b][1] == b;
  }

  lemma ConnectedTransitive(g: Graph, a: IpAddr, b: IpAddr, c: IpAddr)
    requires Connected(g, a, b) && Connected(g, b, c)
    ensures Connected(g, a, c)
  {
    var p :| Chain(g, p) && p[0] == a && p[|p| - 1] == b;
    var q :| Chain(g, q) && q[0] == b && q[|q| - 1] == c;
    var r := p + q[1..];
    forall i | 0 <= i < |r| - 1 ensures Shares(g, r[i], r[i + 1]) {
      if i < |p| - 1 {
        assert Shares(g, p[i], p[i + 1]);
      } else {
        assert r[i] == q[i - (|p| - 1)] && r[i + 1] == q[i - (|p| - 1) + 1];
        assert Shares(g, q[i - (|p| - 1)], q[i - (|p| - 1) + 1]);
      }
    }
    assert Chain(g, r);
  }

  lemma ConnectedSymmetric(g: Graph, a: IpAddr, b: IpAddr)
    requires Connected(g, a, b)
    ensures Connected(g, b, a)
  {
    var p :| Chain(g, p) && p[0] == a && p[|p| - 1] == b;
    var r := seq(|p|, i requires 0 <= i < |p| => p[|p| - 1 - i]);
    forall i | 0 <= i < |r| - 1 ensures Shares(g, r[i], r[i + 1]) {
      assert Shares(g, p[|p| - 2 - i], p[|p| - 2 - i + 1]);
    }
    assert Chain(g, r);
  }

  /** Any labelling that agrees across shared identities agrees across connected addresses. */
  lemma LabelsFollowChains(g: Graph, mark: map<IpAddr, nat>, a: IpAddr, b: IpAddr)
    requires mark.Keys == g.Keys
    requires forall x, y :: Shares(g, x, y) ==> mark[x] == mark[y]
    requires Connected(g, a, b)
    ensures a in g && b in g && mark[a] == mark[b]
  {
    var p :| Chain(g, p) && p[0] == a && p[|p| - 1] == b;
    LabelAlong(g, mark, p, |p| - 1);
  }

  lemma {:induction false} LabelAlong(g: Graph, mark: map<IpAddr, nat>, p: seq<IpAddr>, k: nat)
    requires mark.Keys == g.Keys
    requires forall x, y :: Shares(g, x, y) ==> mark[x] == mark[y]
    requires Chain(g, p) && k < |p|
    ensures p[k] in g && mark[p[k]] == mark[p[0]]
  {
    if k == 0 {
    } else {
      LabelAlong(g, mark, p, k - 1);
      assert Shares(g, p[k - 1], p[k - 1 + 1]);
    }
  }

  // ----- linking -----

  predicate Addresses(g: Graph, addrs: seq<IpAddr>) {
    (forall i :: 0 <= i < |addrs| ==> addrs[i] in g)
    && (forall a :: a in g ==> a in addrs)
  }

  /** Every link so far is justified by a chain of shared identities. */
  ghost predicate Justified(g: Graph, addrs: seq<IpAddr>, root: seq<nat>)
    requires |root| == |addrs|
  {
    forall x, y :: 0 <= x < |addrs| && 0 <= y < |addrs| && root[x] == root[y] ==> Connected(g, addrs[x], addrs[y])
  }

  /** Address `i` has been linked to the first owner of `id`. */
  predicate Owned(owner: map<string, nat>, root: seq<nat>, i: nat, id: string)
    requires i < |root|
  {
    id in owner && owner[id] < |root| && root[owner[id]] == root[i]
  }

  ghost predicate OwnersShare(g: Graph, addrs: seq<IpAddr>, owner: map<string, nat>)
    requires Addresses(g, addrs)
  {
    forall id :: id in owner ==> owner[id] < |addrs| && id in g[addrs[owner[id]]]
  }

  lemma {:induction false} LinkJustified(g: Graph, addrs: seq<IpAddr>, root: seq<nat>, i: nat, j: nat, id: string)
    requires Addresses(g, addrs) && |root| == |addrs| && Justified(g, addrs, root)
    requires i < |addrs| && j < |addrs| && id in g[addrs[i]] && id in g[addrs[j]]
    ensures Justified(g, addrs, Relabel(root, root[i], root[j]))
  {
    var r := Relabel(root, root[i], root[j]);
    forall x, y | 0 <= x < |addrs| && 0 <= y < |addrs| && r[x] == r[y] ensures Connected(g, addrs[x], addrs[y]) {
      SharingConnects(g, addrs[i], addrs[j], id);
      if root[x] != root[y] {
        var u, v := if root[x] == root[i] then x else y, if root[x] == root[i] then y else x;
        ConnectedTransitive(g, addrs[u], addrs[i], addrs[j]);
        ConnectedTransitive(g, addrs[u], addrs[j], addrs[v]);
        ConnectedSymmetric(g, addrs[u], addrs[v]);
      }
    }
  }

  ghost predicate OwnedAt(owner: map<string, nat>, root: seq<nat>, i: nat, ids: set<string>)
    requires i < |root|
  {
    forall id :: id in ids ==> Owned(owner, root, i, id)
  }

  ghost predicate OwnedBelow(g: Graph, addrs: seq<IpAddr>, owner: map<string, nat>, root: seq<nat>, n: nat)
    requires Addresses(g, addrs) && n <= |addrs| == |root|
  {
    forall k: nat :: k < n ==> OwnedAt(owner, root, k, g[addrs[k]])
  }

  lemma RelabelKeepsOwned(owner: map<string, nat>, root: seq<nat>, a: nat, b: nat, i: nat, ids: set<string>)
    requires i < |root| && OwnedAt(owner, root, i, ids)
    ensures OwnedAt(owner, Relabel(root, a, b), i, ids)
  {
  }

  lemma NewOwnerKeepsOwned(owner: map<string, nat>, root: seq<nat>, id: string, j: nat, i: nat, ids: set<string>)
    requires i < |root| && j < |root| && id !in owner && OwnedAt(owner, root, i, ids)
    ensures OwnedAt(owner[id := j], root, i, ids)
  {
  }

  /** Unites the trees of `i` and `j`, which share `id`. */
  method Unite(g: Graph, addrs: seq<IpAddr>, parent: array<nat>, i: nat, j: nat, ghost id: string,
               ghost root: seq<nat>, ghost height: seq<nat>, ghost bound: nat)
      returns (ghost root': seq<nat>, ghost height': seq<nat>, ghost bound': nat)
    requires Addresses(g, addrs) && parent.Length == |addrs| == |root|
    requires Forest(parent[..], root, height, bound) && Justified(g, addrs, root)
    requires i < |addrs| && j < |addrs| && id in g[addrs[i]] && id in g[addrs[j]]
    modifies parent
    ensures Forest(parent[..], root', height', bound') && |root'| == |addrs| && Justified(g, addrs, root')
    ensures root' == Relabel(root, root[i], root[j])
  {
    var a := Find(parent, i, root, height, bound);
    var b := Find(parent, j, root, height, bound);
    LinkJustified(g, addrs, root, i, j, id);
    root', height', bound' := Relabel(root, a, b), height, bound;
    if a != b {
      assert Node(parent[..], root, height, bound, i) && Node(parent[..], root, height, bound, j);
      Link(parent[..], root, height, bound, a, b);
      ghost var before := parent[..];
      parent[a] := b;
      assert parent[..] == before[a := b];
      height', bound' := Lift(root, height, b, bound + 1), 2 * bound + 1;
    } else {
      assert root' == root;
    }
  }

  /** What holds after the first `n` addresses and the identities `done` of the next one. */
  ghost predicate Linked(g: Graph, addrs: seq<IpAddr>, parent: seq<nat>, owner: map<string, nat>,
                         root: seq<nat>, height: seq<nat>, bound: nat, n: nat, done: set<string>)
    requires Addresses(g, addrs)
  {
    && |root| == |addrs| == |parent| && n <= |addrs|
    && Forest(parent, root, height, bound)
    && Justified(g, addrs, root)
    && OwnersShare(g, addrs, owner)
    && OwnedBelow(g, addrs, owner, root, n)
    && (done != {} ==> n < |addrs| && OwnedAt(owner, root, n, done))
  }

  /** Processes one identity of address `i`. */
  method LinkIdentity(g: Graph, addrs: seq<IpAddr>, parent: array<nat>, owner: map<string, nat>, i: nat, id: string,
                      ghost done: set<string>, ghost root: seq<nat>, ghost height: seq<nat>, ghost bound: nat)
      returns (owner': map<string, nat>, ghost root': seq<nat>, ghost height': seq<nat>, ghost bound': nat)
    requires Addresses(g, addrs) && i < |addrs| && id in g[addrs[i]]
    requires Linked(g, addrs, parent[..], owner, root, height, bound, i, done)
    modifies parent
    ensures Linked(g, addrs, parent[..], owner', root', height', bound', i, done + {id})
  {
    hide Forest, Justified, Relabel, OwnedAt;
    owner', root', height', bound' := owner, root, height, bound;
    if done == {} {
      OwnedNothing(owner, root, i);
    }
    if id in owner {
      var j := owner[id];
      root', height', bound' := Unite(g, addrs, parent, i, j, id, root, height, bound);
      forall k: nat | k < i ensures OwnedAt(owner, root', k, g[addrs[k]]) {
        RelabelKeepsOwned(owner, root, root[i], root[j], k, g[addrs[k]]);
      }
      RelabelKeepsOwned(owner, root, root[i], root[j], i, done);
      RelabelJoins(root, i, j);
    } else {
      owner' := owner[id := i];
      forall k: nat | k < i ensures OwnedAt(owner', root, k, g[addrs[k]]) {
        NewOwnerKeepsOwned(owner, root, id, i, k, g[addrs[k]]);
      }
      NewOwnerKeepsOwned(owner, root, id, i, i, done);
    }
    OwnedMore(owner', root', i, done, id);
  }

  lemma LinkedStart(g: Graph, addrs: seq<IpAddr>)
    requires Addresses(g, addrs)
    ensures Linked(g, addrs, Identity(|addrs|), map[], Identity(|addrs|), seq(|addrs|, _ => 0), 0, 0, {})
  {
    IdentityIsForest(|addrs|);
    IdentityJustified(g, addrs);
  }

  lemma LinkedNext(g: Graph, addrs: seq<IpAddr>, parent: seq<nat>, owner: map<string, nat>,
                   root: seq<nat>, height: seq<nat>, bound: nat, n: nat)
    requires Addresses(g, addrs) && n < |addrs|
    requires Linked(g, addrs, parent, owner, root, height, bound, n, g[addrs[n]])
    ensures Linked(g, addrs, parent, owner, root, height, bound, n + 1, {})
  {
  }

  /** All links made: the roots agree along every shared identity, and only along chains of them. */
  lemma LinkedEnd(g: Graph, addrs: seq<IpAddr>, parent: seq<nat>, owner: map<string, nat>,
                  root: seq<nat>, height: seq<nat>, bound: nat)
    requires Addresses(g, addrs)
    requires Linked(g, addrs, parent, owner, root, height, bound, |addrs|, {})
    ensures |root| == |addrs| == |parent| && Forest(parent, root, height, bound) && Justified(g, addrs, root)
    ensures forall i, j :: 0 <= i < |addrs| && 0 <= j < |addrs| && Shares(g, addrs[i], addrs[j]) ==> root[i] == root[j]
  {
  }

  /** Links the addresses in order, identities in any order: each to the first owner of the identity. */
  method LinkShared(g: Graph, addrs: seq<IpAddr>)
      returns (parent: array<nat>, ghost root: seq<nat>, ghost height: seq<nat>, ghost bound: nat)
    requires Addresses(g, addrs)
    ensures fresh(parent) && parent.Length == |addrs| == |root|
    ensures Forest(parent[..], root, height, bound)
    ensures Justified(g, addrs, root)
    ensures forall i, j :: 0 <= i < |addrs| && 0 <= j < |addrs| && Shares(g, addrs[i], addrs[j]) ==> root[i] == root[j]
  {
    hide Forest, Justified, Shares, Linked;
    parent := new nat[|addrs|](i => i);
    root, height, bound := Identity(|addrs|), seq(|addrs|, _ => 0), 0;
    assert parent[..] == Identity(|addrs|);
    LinkedStart(g, addrs);
    var owner: map<string, nat> := map[];
    for i := 0 to |addrs|
      invariant Linked(g, addrs, parent[..], owner, root, height, bound, i, {})
    {
      var ids := g[addrs[i]];
      var todo := ids;
      assert ids - todo == {};
      while todo != {}
        invariant todo <= ids
        invariant Linked(g, addrs, parent[..], owner, root, height, bound, i, ids - todo)
        decreases todo
      {
        var id :| id in todo;
        owner, root, height, bound := LinkIdentity(g, addrs, parent, owner, i, id, ids - todo, root, height, bound);
        assert ids - (todo - {id}) == (ids - todo) + {id};
        todo := todo - {id};
      }
      assert ids - todo == ids;
      LinkedNext(g, addrs, parent[..], owner, root, height, bound, i);
    }
    LinkedEnd(g, addrs, parent[..], owner, root, height, bound);
  }

  lemma IdentityJustified(g: Graph, addrs: seq<IpAddr>)
    requires Addresses(g, addrs)
    ensures Justified(g, addrs, Identity(|addrs|))
  {
    forall x | 0 <= x < |addrs| ensures Connected(g, addrs[x], addrs[x]) {
      ConnectedItself(g, addrs[x]);
    }
  }

  lemma OwnedNothing(owner: map<string, nat>, root: seq<nat>, i: nat)
    requires i < |root|
    ensures OwnedAt(owner, root, i, {})
  {
  }

  lemma OwnedMore(owner: map<string, nat>, root: seq<nat>, i: nat, ids: set<string>, id: string)
    requires i < |root| && OwnedAt(owner, root, i, ids) && Owned(owner, root, i, id)
    ensures OwnedAt(owner, root, i, ids + {id})
  {
  }

  lemma RelabelJoins(root: seq<nat>, i: nat, j: nat)
    requires i < |root| && j < |root|
    ensures Relabel(root, root[i], root[j])[i] == Relabel(root, root[i], root[j])[j]
  {
  }

  /** One link of the loop, on a forest too flat to halve: addresses `i` and `j` share an identity, and
      the root of `i` is put under the root of `j`. */
  ghost predicate LinkStep(g: Graph, addrs: seq<IpAddr>, before: seq<nat>, after: seq<nat>, i: nat, j: nat)
    requires Addresses(g, addrs)
  {
    && i < |addrs| == |before| && j < |addrs| && Shares(g, addrs[i], addrs[j])
    && exists root: seq<nat>, height: seq<nat>, bound: nat ::
         Forest(before, root, height, bound) && root[i] != root[j] && root[i] < |before|
         && after == before[root[i] := root[j]]
  }

  lemma LinkFrom(g: Graph, addrs: seq<IpAddr>, before: seq<nat>, root: seq<nat>, height: seq<nat>, bound: nat,
                 i: nat, j: nat)
    requires Addresses(g, addrs) && i < |addrs| == |before| && j < |addrs| && Shares(g, addrs[i], addrs[j])
    requires Forest(before, root, height, bound) && root[i] != root[j] && root[i] < |before|
    ensures LinkStep(g, addrs, before, before[root[i] := root[j]], i, j)
  {
  }

  /** Index order is no termination measure. Of three addresses the last shares one identity with the
      first and another with the second; its two links leave a link to a smaller index and a link to a
      larger one in one forest. */
  lemma {:induction false} LinksGoBothWays(g: Graph, addrs: seq<IpAddr>, x: string, y: string)
    requires Addresses(g, addrs) && |addrs| == 3
    requires g[addrs[0]] == {x} && g[addrs[1]] == {y} && g[addrs[2]] == {x, y}
    ensures LinkStep(g, addrs, Identity(3), [0, 1, 0], 2, 0)
    ensures LinkStep(g, addrs, [0, 1, 0], [1, 1, 0], 2, 1)
    ensures exists root: seq<nat>, height: seq<nat>, bound: nat :: Forest([1, 1, 0], root, height, bound)
  {
    hide Forest;
    assert x in g[addrs[2]] && x in g[addrs[0]] && y in g[addrs[2]] && y in g[addrs[1]];
    var p0: seq<nat>, h0: seq<nat> := Identity(3), seq(3, _ => 0);
    IdentityIsForest(3);
    Link(p0, p0, h0, 0, 2, 0);
    LinkFrom(g, addrs, p0, p0, h0, 0, 2, 0);
    var p1, r1, h1 := p0[2 := 0], Relabel(p0, 2, 0), Lift(p0, h0, 0, 1);
    assert p1 == [0, 1, 0];
    Link(p1, r1, h1, 1, 0, 1);
    LinkFrom(g, addrs, p1, r1, h1, 1, 2, 1);
    assert p1[0 := 1] == [1, 1, 0];
  }
}
