/** A union-find forest in a parent array: path halving, no ranks, links in any index direction. */
module UnionFind {

  /** One element of a forest: `root` names its root, `height` rises along its link, so there is no
      cycle although links go to larger and to smaller indices. */
  ghost predicate Node(parent: seq<nat>, root: seq<nat>, height: seq<nat>, bound: nat, x: nat)
    requires |root| == |height| == |parent| && x < |parent|
  {
    && parent[x] < |parent| && root[x] < |parent|
    && root[parent[x]] == root[x] && root[root[x]] == root[x]
    && (parent[x] == x <==> root[x] == x)
    && height[x] <= bound
    && (parent[x] != x ==> height[x] < height[parent[x]])
  }

  ghost predicate Forest(parent: seq<nat>, root: seq<nat>, height: seq<nat>, bound: nat) {
    |root| == |height| == |parent| && forall x: nat :: x < |parent| ==> Node(parent, root, height, bound, x)
  }

  function Identity(n: nat): (r: seq<nat>)
    ensures |r| == n
  {
    seq(n, i => i)
  }

  lemma IdentityIsForest(n: nat)
    ensures Forest(Identity(n), Identity(n), seq(n, _ => 0), 0)
  {
  }

  /** The roots are a property of the parent array alone. */
  lemma {:induction false} RootUnique(parent: seq<nat>, root1: seq<nat>, height1: seq<nat>, bound1: nat,
                                      root2: seq<nat>, height2: seq<nat>, bound2: nat, x: nat)
    requires Forest(parent, root1, height1, bound1) && Forest(parent, root2, height2, bound2)
    requires x < |parent|
    ensures root1[x] == root2[x]
    decreases bound1 - height1[x]
  {
    assert Node(parent, root1, height1, bound1, x) && Node(parent, root2, height2, bound2, x);
    if parent[x] == x {
    } else {
      assert Node(parent, root1, height1, bound1, parent[x]);
      RootUnique(parent, root1, height1, bound1, root2, height2, bound2, parent[x]);
    }
  }

  /** Root lookup with path halving: it ends, answers the root, and moves nobody to another root. */
  method Find(parent: array<nat>, start: nat, ghost root: seq<nat>, ghost height: seq<nat>, ghost bound: nat)
      returns (x: nat)
    requires start < parent.Length
    requires Forest(parent[..], root, height, bound)
    modifies parent
    ensures Forest(parent[..], root, height, bound)
    ensures x == root[start] && x < parent.Length && parent[x] == x
  {
    x := start;
    while parent[x] != x
      invariant x < parent.Length && root[x] == root[start]
      invariant Forest(parent[..], root, height, bound)
      decreases bound - height[x]
    {
      Halve(parent[..], root, height, bound, x);
      ghost var before := parent[..];
      parent[x] := parent[parent[x]];
      assert parent[..] == before[x := before[before[x]]];
      x := parent[x];
    }
    assert Node(parent[..], root, height, bound, x);
  }

  /** Pointing an element at its grandparent keeps the forest and every root. */
  lemma Halve(parent: seq<nat>, root: seq<nat>, height: seq<nat>, bound: nat, x: nat)
    requires Forest(parent, root, height, bound)
    requires x < |parent| && parent[x] != x
    ensures parent[x] < |parent| && parent[parent[x]] < |parent| && parent[parent[x]] != x
    ensures height[x] < height[parent[parent[x]]] <= bound && root[parent[parent[x]]] == root[x]
    ensures Forest(parent[x := parent[parent[x]]], root, height, bound)
  {
    assert Node(parent, root, height, bound, x);
    var p := parent[x];
    assert Node(parent, root, height, bound, p);
    var g := parent[p];
    assert Node(parent, root, height, bound, g);
    var halved := parent[x := g];
    forall y: nat | y < |halved| ensures Node(halved, root, height, bound, y) {
      assert Node(parent, root, height, bound, y);
    }
  }

  function Relabel(root: seq<nat>, a: nat, b: nat): (r: seq<nat>)
    ensures |r| == |root|
  {
    seq(|root|, i requires 0 <= i < |root| => if root[i] == a then b else root[i])
  }

  function Lift(root: seq<nat>, height: seq<nat>, b: nat, lift: nat): (r: seq<nat>)
    requires |height| == |root|
    ensures |r| == |root|
  {
    seq(|root|, i requires 0 <= i < |root| => if root[i] == b then height[i] + lift else height[i])
  }

  /** Linking root `a` under another root `b` merges exactly those two components: members of `a`'s
      tree get root `b`, everyone else keeps theirs. */
  lemma Link(parent: seq<nat>, root: seq<nat>, height: seq<nat>, bound: nat, a: nat, b: nat)
    requires Forest(parent, root, height, bound)
    requires a < |parent| && b < |parent| && a != b && root[a] == a && root[b] == b
    ensures Forest(parent[a := b], Relabel(root, a, b), Lift(root, height, b, bound + 1), 2 * bound + 1)
  {
    var p, r, h := parent[a := b], Relabel(root, a, b), Lift(root, height, b, bound + 1);
    var top := 2 * bound + 1;
    forall x: nat | x < |p| ensures Node(p, r, h, top, x) {
      assert Node(parent, root, height, bound, x);
      assert Node(parent, root, height, bound, parent[x]);
      assert Node(parent, root, height, bound, root[x]);
    }
  }
}
