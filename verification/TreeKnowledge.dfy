/** Knowledge trees: the explicit-stack traversal against recursive preorder, and the depth. */
module TreeKnowledge {

  /** A node with what it carries besides its children. */
  datatype TreeNode<T> = TreeNode(payload: T, children: seq<TreeNode<T>>)

  function Preorder<T>(t: TreeNode<T>): (nodes: seq<TreeNode<T>>)
    ensures nodes != []
  {
    [t] + PreorderAll(t.children)
  }

  function PreorderAll<T>(ts: seq<TreeNode<T>>): seq<TreeNode<T>> {
    if ts == [] then [] else Preorder(ts[0]) + PreorderAll(ts[1..])
  }

  lemma {:induction false} PreorderConcat<T>(a: seq<TreeNode<T>>, b: seq<TreeNode<T>>)
    ensures PreorderAll(a + b) == PreorderAll(a) + PreorderAll(b)
  {
    if a == [] {
      assert a + b == b;
    } else {
      assert (a + b)[1..] == a[1..] + b;
      PreorderConcat(a[1..], b);
    }
  }

  lemma PreorderCons<T>(t: TreeNode<T>, rest: seq<TreeNode<T>>)
    ensures PreorderAll([t] + rest) == Preorder(t) + PreorderAll(rest)
  {
    assert ([t] + rest)[1..] == rest;
  }

  // ------------------------------------------------------------------------------------ the stack

  function Reversed<T>(s: seq<T>): seq<T> {
    if s == [] then [] else Reversed(s[1..]) + [s[0]]
  }

  lemma {:induction false} ReversedConcat<T>(s: seq<T>, t: seq<T>)
    ensures Reversed(s + t) == Reversed(t) + Reversed(s)
  {
    if s == [] {
      assert s + t == t;
    } else {
      assert (s + t)[1..] == s[1..] + t;
      ReversedConcat(s[1..], t);
    }
  }

  lemma {:induction false} ReversedTwice<T>(s: seq<T>)
    ensures Reversed(Reversed(s)) == s
  {
    if s == [] {
    } else {
      ReversedTwice(s[1..]);
      ReversedConcat(Reversed(s[1..]), [s[0]]);
      assert s == [s[0]] + s[1..];
    }
  }

  /** What is still to be visited: the stack, top first. */
  ghost function Pending<T>(stack: seq<TreeNode<T>>): seq<TreeNode<T>> {
    PreorderAll(Reversed(stack))
  }

  /** Popping a node and pushing its children reversed visits exactly that node. */
  lemma PopPush<T>(rest: seq<TreeNode<T>>, node: TreeNode<T>)
    ensures Pending(rest + [node]) == [node] + Pending(rest + Reversed(node.children))
  {
    ReversedConcat(rest, [node]);
    ReversedConcat(rest, Reversed(node.children));
    ReversedTwice(node.children);
    PreorderConcat(node.children, Reversed(rest));
    assert Reversed([node]) == [node];
    var later := Reversed(rest);
    PreorderCons(node, later);
    assert [node] + PreorderAll(node.children) + PreorderAll(later)
        == [node] + (PreorderAll(node.children) + PreorderAll(later));
  }

  method Flatten<T>(root: TreeNode<T>) returns (nodes: seq<TreeNode<T>>)
    ensures nodes == Preorder(root)
  {
    nodes := [];
    var stack := [root];
    PreorderCons(root, []);
    assert Reversed(stack) == [root] == [root] + [];
    while stack != []
      invariant Preorder(root) == nodes + Pending(stack)
      decreases |Pending(stack)|
    {
      var node := stack[|stack| - 1];
      PopPush(stack[..|stack| - 1], node);
      assert stack == stack[..|stack| - 1] + [node];
      nodes := nodes + [node];
      stack := stack[..|stack| - 1] + Reversed(node.children);
    }
  }

  // --------------------------------------------------------------------- every node exactly once

  /** A place in the tree: which child to take at each level. */
  type Path = seq<nat>

  ghost predicate Within<T>(t: TreeNode<T>, p: Path) {
    p == [] || (p[0] < |t.children| && Within(t.children[p[0]], p[1..]))
  }

  ghost function Follow<T>(t: TreeNode<T>, p: Path): TreeNode<T>
    requires Within(t, p)
  {
    if p == [] then t else Follow(t.children[p[0]], p[1..])
  }

  /** The position at which the traversal reaches the place. */
  ghost function Rank<T>(t: TreeNode<T>, p: Path): nat
    requires Within(t, p)
  {
    if p == [] then 0 else 1 + |PreorderAll(t.children[..p[0]])| + Rank(t.children[p[0]], p[1..])
  }

  lemma SplitAround<T>(s: seq<T>, k: nat)
    requires k < |s|
    ensures s == s[..k] + ([s[k]] + s[k + 1..])
  {
  }

  /** The traversal of the children, cut out around one child. */
  lemma {:induction false} ChildBlock<T>(ts: seq<TreeNode<T>>, k: nat)
    requires k < |ts|
    ensures PreorderAll(ts) == PreorderAll(ts[..k]) + (Preorder(ts[k]) + PreorderAll(ts[k + 1..]))
  {
    SplitAround(ts, k);
    PreorderConcat(ts[..k], [ts[k]] + ts[k + 1..]);
    PreorderCons(ts[k], ts[k + 1..]);
  }

  lemma {:induction false} VisitedAtRank<T>(t: TreeNode<T>, p: Path)
    requires Within(t, p)
    ensures Rank(t, p) < |Preorder(t)| && Preorder(t)[Rank(t, p)] == Follow(t, p)
    decreases |p|
  {
    if p == [] {
    } else {
      var (ts, k, rest) := (t.children, p[0], p[1..]);
      VisitedAtRank(ts[k], rest);
      ChildBlock(ts, k);
    }
  }

  /** An earlier child's block ends before a later one's begins. */
  lemma BlocksApart<T>(ts: seq<TreeNode<T>>, j: nat, k: nat)
    requires j < k < |ts|
    ensures |PreorderAll(ts[..j])| + |Preorder(ts[j])| <= |PreorderAll(ts[..k])|
  {
    ChildBlock(ts[..k], j);
    assert ts[..k][..j] == ts[..j];
  }

  lemma {:induction false} RankInjective<T>(t: TreeNode<T>, p: Path, q: Path)
    requires Within(t, p) && Within(t, q) && Rank(t, p) == Rank(t, q)
    ensures p == q
    decreases |p|
  {
    if p != [] && q != [] {
      VisitedAtRank(t.children[p[0]], p[1..]);
      VisitedAtRank(t.children[q[0]], q[1..]);
      if p[0] < q[0] {
        BlocksApart(t.children, p[0], q[0]);
      } else if q[0] < p[0] {
        BlocksApart(t.children, q[0], p[0]);
      } else {
        RankInjective(t.children[p[0]], p[1..], q[1..]);
        assert p == [p[0]] + p[1..] && q == [q[0]] + q[1..];
      }
    }
  }

  /** Which child's block holds the position. */
  lemma {:induction false} BlockOf<T>(ts: seq<TreeNode<T>>, i: nat) returns (k: nat)
    requires i < |PreorderAll(ts)|
    ensures k < |ts|
    ensures |PreorderAll(ts[..k])| <= i < |PreorderAll(ts[..k])| + |Preorder(ts[k])|
  {
    if i < |Preorder(ts[0])| {
      k := 0;
    } else {
      var j := BlockOf(ts[1..], i - |Preorder(ts[0])|);
      k := j + 1;
      assert ts[..k] == [ts[0]] + ts[1..][..j];
      assert ts[..k][1..] == ts[1..][..j];
    }
  }

  lemma {:induction false} RankSurjective<T>(t: TreeNode<T>, i: nat) returns (p: Path)
    requires i < |Preorder(t)|
    ensures Within(t, p) && Rank(t, p) == i
  {
    if i == 0 {
      p := [];
    } else {
      var k := BlockOf(t.children, i - 1);
      var rest := RankSurjective(t.children[k], i - 1 - |PreorderAll(t.children[..k])|);
      p := [k] + rest;
      assert p[1..] == rest;
    }
  }

  /** Positions of the traversal and places in the tree correspond one to one. */
  lemma EveryNodeOnce<T>(t: TreeNode<T>, i: nat)
    requires i < |Preorder(t)|
    ensures exists p :: Within(t, p) && Rank(t, p) == i && Follow(t, p) == Preorder(t)[i]
    ensures forall p, q :: Within(t, p) && Within(t, q) && Rank(t, p) == i && Rank(t, q) == i ==> p == q
  {
    var p := RankSurjective(t, i);
    VisitedAtRank(t, p);
    forall p, q | Within(t, p) && Within(t, q) && Rank(t, p) == i && Rank(t, q) == i
      ensures p == q
    {
      RankInjective(t, p, q);
    }
  }

  // --------------------------------------------------------------------------------------- depth

  function Depth<T>(t: TreeNode<T>, current: nat): nat
    decreases t, 0
  {
    if t.children == [] then current else DeepestOf(t.children, current + 1)
  }

  function DeepestOf<T>(ts: seq<TreeNode<T>>, current: nat): nat
    requires ts != []
    decreases ts, 1
  {
    var first := Depth(ts[0], current);
    if |ts| == 1 then first
    else
      var others := DeepestOf(ts[1..], current);
      if others > first then others else first
  }

  /** The depth is the length of the longest path, counted from `current`. */
  lemma {:induction false} DepthBoundsPaths<T>(t: TreeNode<T>, current: nat, p: Path)
    requires Within(t, p)
    ensures current + |p| <= Depth(t, current)
    decreases |p|
  {
    if p == [] {
      var longest := DepthReached(t, current);
    } else {
      DepthBoundsPaths(t.children[p[0]], current + 1, p[1..]);
      DeepestIsUpper(t.children, current + 1, p[0]);
    }
  }

  lemma {:induction false} DeepestIsUpper<T>(ts: seq<TreeNode<T>>, current: nat, k: nat)
    requires k < |ts|
    ensures Depth(ts[k], current) <= DeepestOf(ts, current)
  {
    if k == 0 {
    } else {
      DeepestIsUpper(ts[1..], current, k - 1);
    }
  }

  lemma {:induction false} DeepestIsReached<T>(ts: seq<TreeNode<T>>, current: nat) returns (k: nat)
    requires ts != []
    ensures k < |ts| && Depth(ts[k], current) == DeepestOf(ts, current)
  {
    k := 0;
    if |ts| > 1 {
      var j := DeepestIsReached(ts[1..], current);
      if Depth(ts[0], current) < Depth(ts[1..][j], current) {
        k := j + 1;
      }
    }
  }

  lemma {:induction false} DepthReached<T>(t: TreeNode<T>, current: nat) returns (p: Path)
    ensures Within(t, p) && current + |p| == Depth(t, current)
    decreases t
  {
    p := [];
    if t.children == [] {
    } else {
      var k := DeepestIsReached(t.children, current + 1);
      var rest := DepthReached(t.children[k], current + 1);
      p := [k] + rest;
      assert p[1..] == rest;
    }
  }

  /** A path is no longer than the traversal position it ends at. */
  lemma {:induction false} RankBoundsPath<T>(t: TreeNode<T>, p: Path)
    requires Within(t, p)
    ensures |p| <= Rank(t, p)
    decreases |p|
  {
    if p == [] {
    } else {
      RankBoundsPath(t.children[p[0]], p[1..]);
    }
  }

  /** The depth is strictly less than the number of nodes visited. */
  lemma DepthBelowCount<T>(t: TreeNode<T>)
    ensures Depth(t, 0) < |Preorder(t)|
  {
    var p := DepthReached(t, 0);
    RankBoundsPath(t, p);
    VisitedAtRank(t, p);
  }
}
