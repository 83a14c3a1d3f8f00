/** Parse trees as the AST builders see them (pest `Pair`s): a node has a
    grammar rule, the text it matched, its source span and its children in
    source order. Also the two walks the builders share: "the topmost nodes
    whose rule matches, in pre-order" and "the first child whose rule
    matches". */
module PestTree {
  import opened Wrappers

  /** Byte offsets of the matched text. */
  datatype PestSpan = PestSpan(start: nat, end: nat)

  datatype Pair<R> = Pair(rule: R, text: string, span: PestSpan, inner: seq<Pair<R>>)

  /** A node position: the child indices taken from the root. */
  type TreePath = seq<nat>

  predicate ValidPath<R>(p: Pair<R>, path: TreePath)
    decreases |path|
  {
    path == [] || (path[0] < |p.inner| && ValidPath(p.inner[path[0]], path[1..]))
  }

  function At<R>(p: Pair<R>, path: TreePath): Pair<R>
    requires ValidPath(p, path)
    decreases |path|
  {
    if path == [] then p else At(p.inner[path[0]], path[1..])
  }

  /** `path` leads to a node whose rule matches `m`, and no node above it on
      the way from the root matches. */
  predicate Topmost<R>(p: Pair<R>, m: R -> bool, path: TreePath)
  {
    && ValidPath(p, path)
    && m(At(p, path).rule)
    && forall j :: 0 <= j < |path| ==> ValidPath(p, path[..j]) && !m(At(p, path[..j]).rule)
  }

  /** Strict pre-order between positions neither of which lies above the
      other: the first differing index is smaller. */
  predicate Before(a: TreePath, b: TreePath)
    decreases |a|
  {
    a != [] && b != [] && (a[0] < b[0] || (a[0] == b[0] && Before(a[1..], b[1..])))
  }

  predicate Ordered(ps: seq<TreePath>)
  {
    forall k, l :: 0 <= k < l < |ps| ==> Before(ps[k], ps[l])
  }

  function Prefix(i: nat, ps: seq<TreePath>): (r: seq<TreePath>)
    ensures |r| == |ps| && forall k :: 0 <= k < |ps| ==> r[k] == [i] + ps[k]
  {
    seq(|ps|, k requires 0 <= k < |ps| => [i] + ps[k])
  }

  /** The positions of the topmost nodes matching `m`, in pre-order. */
  function TopPaths<R>(p: Pair<R>, m: R -> bool): seq<TreePath>
    decreases p, 1
  {
    if m(p.rule) then [[]] else TopPathsFrom(p, m, 0)
  }

  /** The same, for the children of `p` from index `i` on. */
  function TopPathsFrom<R>(p: Pair<R>, m: R -> bool, i: nat): seq<TreePath>
    requires i <= |p.inner|
    decreases p, 0, |p.inner| - i
  {
    if i == |p.inner| then [] else Prefix(i, TopPaths(p.inner[i], m)) + TopPathsFrom(p, m, i + 1)
  }

  /** The nodes at `paths`. */
  function Nodes<R>(p: Pair<R>, paths: seq<TreePath>): (r: seq<Pair<R>>)
    requires forall k :: 0 <= k < |paths| ==> ValidPath(p, paths[k])
    ensures |r| == |paths| && forall k :: 0 <= k < |paths| ==> r[k] == At(p, paths[k])
  {
    seq(|paths|, k requires 0 <= k < |paths| => At(p, paths[k]))
  }

  lemma AtCons<R>(p: Pair<R>, i: nat, path: TreePath)
    requires i < |p.inner|
    ensures ValidPath(p, [i] + path) <==> ValidPath(p.inner[i], path)
    ensures ValidPath(p.inner[i], path) ==> At(p, [i] + path) == At(p.inner[i], path)
  {
    assert ([i] + path)[1..] == path;
  }

  /** Every position `TopPaths` lists is a topmost match. */
  lemma {:induction false} TopPathsSound<R>(p: Pair<R>, m: R -> bool)
    ensures forall k :: 0 <= k < |TopPaths(p, m)| ==> Topmost(p, m, TopPaths(p, m)[k])
    decreases p, 1
  {
    if !m(p.rule) {
      TopPathsFromSound(p, m, 0);
    }
  }

  lemma {:induction false} TopPathsFromSound<R>(p: Pair<R>, m: R -> bool, i: nat)
    requires i <= |p.inner| && !m(p.rule)
    ensures forall k :: 0 <= k < |TopPathsFrom(p, m, i)| ==> Topmost(p, m, TopPathsFrom(p, m, i)[k])
    decreases p, 0, |p.inner| - i
  {
    if i < |p.inner| {
      var child := TopPaths(p.inner[i], m);
      TopPathsSound(p.inner[i], m);
      TopPathsFromSound(p, m, i + 1);
      forall k | 0 <= k < |child|
        ensures Topmost(p, m, [i] + child[k])
      {
        ConsTopmost(p, m, i, child[k]);
      }
    }
  }

  /** A topmost match in child `i` is a topmost match in `p` when `p`
      itself does not match. */
  lemma ConsTopmost<R>(p: Pair<R>, m: R -> bool, i: nat, q: TreePath)
    requires i < |p.inner| && !m(p.rule) && Topmost(p.inner[i], m, q)
    ensures Topmost(p, m, [i] + q)
  {
    var path := [i] + q;
    AtCons(p, i, q);
    forall j | 0 <= j < |path|
      ensures ValidPath(p, path[..j]) && !m(At(p, path[..j]).rule)
    {
      if j > 0 {
        assert path[..j] == [i] + q[..j - 1];
        AtCons(p, i, q[..j - 1]);
      }
    }
  }

  /** Every topmost match is listed by `TopPaths`. */
  lemma {:induction false} TopPathsComplete<R>(p: Pair<R>, m: R -> bool, q: TreePath)
    requires Topmost(p, m, q)
    ensures q in TopPaths(p, m)
    decreases p, 1
  {
    if q == [] {
      assert m(p.rule);
    } else {
      assert ValidPath(p, q[..0]) && !m(At(p, q[..0]).rule);
      assert q[..0] == [];
      var i := q[0];
      var rest := q[1..];
      assert q == [i] + rest;
      AtCons(p, i, rest);
      forall j | 0 <= j < |rest|
        ensures ValidPath(p.inner[i], rest[..j]) && !m(At(p.inner[i], rest[..j]).rule)
      {
        assert q[..j + 1] == [i] + rest[..j];
        assert ValidPath(p, q[..j + 1]) && !m(At(p, q[..j + 1]).rule);
        AtCons(p, i, rest[..j]);
      }
      TopPathsComplete(p.inner[i], m, rest);
      TopPathsFromContains(p, m, 0, i, rest);
    }
  }

  lemma {:induction false} TopPathsFromContains<R>(p: Pair<R>, m: R -> bool, from: nat, i: nat, q: TreePath)
    requires from <= i < |p.inner| && q in TopPaths(p.inner[i], m)
    ensures [i] + q in TopPathsFrom(p, m, from)
    decreases i - from
  {
    var child := TopPaths(p.inner[i], m);
    if from == i {
      var k :| 0 <= k < |child| && child[k] == q;
      assert Prefix(i, child)[k] == [i] + q;
    } else {
      TopPathsFromContains(p, m, from + 1, i, q);
    }
  }

  lemma {:induction false} BeforeCons(i: nat, a: TreePath, b: TreePath)
    ensures Before([i] + a, [i] + b) <==> Before(a, b)
  {
    assert ([i] + a)[1..] == a && ([i] + b)[1..] == b;
  }

  /** `TopPaths` lists its positions in strict pre-order, hence each once. */
  lemma {:induction false} TopPathsOrdered<R>(p: Pair<R>, m: R -> bool)
    ensures Ordered(TopPaths(p, m))
    decreases p, 1
  {
    if !m(p.rule) {
      TopPathsFromOrdered(p, m, 0);
    }
  }

  /** A strictly ordered list of positions holds no position twice. */
  lemma OrderedDistinct(ps: seq<TreePath>)
    requires Ordered(ps)
    ensures forall k, l :: 0 <= k < l < |ps| ==> ps[k] != ps[l]
  {
    forall k, l | 0 <= k < l < |ps|
      ensures ps[k] != ps[l]
    {
      BeforeIrreflexive(ps[k]);
    }
  }

  /** `TopPaths` names every topmost match once. */
  lemma TopPathsDistinct<R>(p: Pair<R>, m: R -> bool)
    ensures forall k, l :: 0 <= k < l < |TopPaths(p, m)| ==> TopPaths(p, m)[k] != TopPaths(p, m)[l]
  {
    TopPathsOrdered(p, m);
    OrderedDistinct(TopPaths(p, m));
  }

  lemma {:induction false} TopPathsFromOrdered<R>(p: Pair<R>, m: R -> bool, i: nat)
    requires i <= |p.inner|
    ensures Ordered(TopPathsFrom(p, m, i))
    ensures forall k :: 0 <= k < |TopPathsFrom(p, m, i)| ==>
      TopPathsFrom(p, m, i)[k] != [] && TopPathsFrom(p, m, i)[k][0] >= i
    decreases p, 0, |p.inner| - i
  {
    if i < |p.inner| {
      var head := Prefix(i, TopPaths(p.inner[i], m));
      var tail := TopPathsFrom(p, m, i + 1);
      TopPathsOrdered(p.inner[i], m);
      TopPathsFromOrdered(p, m, i + 1);
      forall k, l | 0 <= k < l < |head|
        ensures Before(head[k], head[l])
      {
        BeforeCons(i, TopPaths(p.inner[i], m)[k], TopPaths(p.inner[i], m)[l]);
      }
      assert forall k :: 0 <= k < |head| ==> head[k][0] == i;
      ConcatOrdered(head, tail);
    }
  }

  lemma ConcatOrdered(a: seq<TreePath>, b: seq<TreePath>)
    requires Ordered(a) && Ordered(b)
    requires forall k, l :: 0 <= k < |a| && 0 <= l < |b| ==> a[k] != [] && b[l] != [] && a[k][0] < b[l][0]
    ensures Ordered(a + b)
  {
  }

  lemma {:induction false} BeforeIrreflexive(a: TreePath)
    ensures !Before(a, a)
    decreases |a|
  {
    if a != [] {
      BeforeIrreflexive(a[1..]);
    }
  }

  /** A node that matches is its own single topmost match. */
  lemma MatchingRootIsOnlyMatch<R>(p: Pair<R>, m: R -> bool)
    requires m(p.rule)
    ensures TopPaths(p, m) == [[]]
  {
  }

  /** Collects the topmost matching nodes into `acc`: a matching node is
      taken whole and not descended into, any other node is searched child by
      child. This is the recursion of `extract_def_members` and
      `extract_usage_members`. */
  function Collect<R>(p: Pair<R>, m: R -> bool, acc: seq<Pair<R>>): (r: seq<Pair<R>>)
    decreases p, 1
  {
    if m(p.rule) then acc + [p] else CollectFrom(p, m, 0, acc)
  }

  function CollectFrom<R>(p: Pair<R>, m: R -> bool, i: nat, acc: seq<Pair<R>>): (r: seq<Pair<R>>)
    requires i <= |p.inner|
    decreases p, 0, |p.inner| - i
  {
    if i == |p.inner| then acc else CollectFrom(p, m, i + 1, Collect(p.inner[i], m, acc))
  }

  /** The walk appends exactly the nodes at the topmost positions, in
      pre-order. */
  lemma {:induction false} CollectIsTopmost<R>(p: Pair<R>, m: R -> bool, acc: seq<Pair<R>>)
    ensures forall k :: 0 <= k < |TopPaths(p, m)| ==> ValidPath(p, TopPaths(p, m)[k])
    ensures Collect(p, m, acc) == acc + Nodes(p, TopPaths(p, m))
    decreases p, 1
  {
    TopPathsSound(p, m);
    if !m(p.rule) {
      CollectFromIsTopmost(p, m, 0, acc);
    }
  }

  lemma {:induction false} CollectFromIsTopmost<R>(p: Pair<R>, m: R -> bool, i: nat, acc: seq<Pair<R>>)
    requires i <= |p.inner| && !m(p.rule)
    ensures forall k :: 0 <= k < |TopPathsFrom(p, m, i)| ==> ValidPath(p, TopPathsFrom(p, m, i)[k])
    ensures CollectFrom(p, m, i, acc) == acc + Nodes(p, TopPathsFrom(p, m, i))
    decreases p, 0, |p.inner| - i
  {
    TopPathsFromSound(p, m, i);
    if i < |p.inner| {
      var child := TopPaths(p.inner[i], m);
      var mid := Collect(p.inner[i], m, acc);
      CollectIsTopmost(p.inner[i], m, acc);
      CollectFromIsTopmost(p, m, i + 1, mid);
      var tail := TopPathsFrom(p, m, i + 1);
      assert TopPathsFrom(p, m, i) == Prefix(i, child) + tail;
      NodesPrefix(p, i, child, tail);
    }
  }

  /** The nodes under child `i` followed by those after it. */
  lemma NodesPrefix<R>(p: Pair<R>, i: nat, child: seq<TreePath>, tail: seq<TreePath>)
    requires i < |p.inner|
    requires forall k :: 0 <= k < |child| ==> ValidPath(p.inner[i], child[k])
    requires forall k :: 0 <= k < |tail| ==> ValidPath(p, tail[k])
    ensures forall k :: 0 <= k < |Prefix(i, child) + tail| ==> ValidPath(p, (Prefix(i, child) + tail)[k])
    ensures Nodes(p, Prefix(i, child) + tail) == Nodes(p.inner[i], child) + Nodes(p, tail)
  {
    forall k | 0 <= k < |child|
      ensures ValidPath(p, [i] + child[k]) && At(p, [i] + child[k]) == At(p.inner[i], child[k])
    {
      AtCons(p, i, child[k]);
    }
  }

  /** `Iterator::find` on children: the first child whose rule matches. */
  function FindChild<R>(ps: seq<Pair<R>>, m: R -> bool): (r: Option<nat>)
    ensures r.Some? ==> r.value < |ps| && m(ps[r.value].rule)
    ensures r.Some? ==> forall j :: 0 <= j < r.value ==> !m(ps[j].rule)
    ensures r.None? ==> forall j :: 0 <= j < |ps| ==> !m(ps[j].rule)
    decreases |ps|
  {
    if ps == [] then None
    else if m(ps[0].rule) then Some(0)
    else match FindChild(ps[1..], m)
      case None => None
      case Some(i) => Some(i + 1)
  }

  /** `Iterator::any` on children. */
  function AnyChild<R>(ps: seq<Pair<R>>, m: R -> bool): (r: bool)
    ensures r <==> exists j :: 0 <= j < |ps| && m(ps[j].rule)
    decreases |ps|
  {
    if ps == [] then false
    else m(ps[0].rule) || AnyChild(ps[1..], m)
  }
}
