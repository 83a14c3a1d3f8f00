/** The file-level import graph: forward edges (`dependencies`), the reverse
    index (`dependents`), the invalidation query (`get_all_affected`), the cycle
    query (`has_circular_dependency`) and file removal. The event-listener
    mechanism is not modelled; the events a mutation emits are kept as a log. */
module DependencyGraph {

  /** A file identifier (`PathBuf`), compared by value. */
  type Path = string

  /** What the graph emits after each mutation. */
  datatype DependencyEvent =
    | DependencyAdded(from: Path, to: Path)
    | FileRemoved(path: Path)

  /** `dependencies[f]` holds the files `f` imports, `dependents[f]` the files
      importing `f`; `events` is everything emitted so far, oldest first. */
  datatype Graph = Graph(
    dependencies: map<Path, set<Path>>,
    dependents: map<Path, set<Path>>,
    events: seq<DependencyEvent>)

  const Empty: Graph := Graph(map[], map[], [])

  /** The set stored under `f`, or the empty set for an untracked file. */
  function Get(m: map<Path, set<Path>>, f: Path): set<Path>
  {
    if f in m then m[f] else {}
  }

  /** `m` holds the edge `a -> b`. */
  predicate Edge(m: map<Path, set<Path>>, a: Path, b: Path)
  {
    a in m && b in m[a]
  }

  /** The two maps describe the same edges, one forwards and one backwards. */
  ghost predicate Mirrored(g: Graph)
  {
    forall a, b :: Edge(g.dependencies, a, b) <==> Edge(g.dependents, b, a)
  }

  /** Every file mentioned by `m`, as a key or inside a set. */
  ghost function Nodes(m: map<Path, set<Path>>): set<Path>
  {
    m.Keys + (set a, b | a in m && b in m[a] :: b)
  }

  /** The edges of `m`, as pairs. */
  function EdgeSet(m: map<Path, set<Path>>): set<(Path, Path)>
  {
    set a, b | a in m && b in m[a] :: (a, b)
  }

  // ---------------------------------------------------------------------------
  // Mutations
  // ---------------------------------------------------------------------------

  /** `from` imports `to`: both maps gain the edge and the event is logged. */
  function AddDependency(g: Graph, from: Path, to: Path): (r: Graph)
    ensures to in GetDependencies(r, from) && from in GetDependents(r, to)
    ensures forall a, b :: Edge(r.dependencies, a, b) <==> Edge(g.dependencies, a, b) || (a == from && b == to)
    ensures forall a, b :: Edge(r.dependents, a, b) <==> Edge(g.dependents, a, b) || (a == to && b == from)
    ensures forall f :: f != from ==> Get(r.dependencies, f) == Get(g.dependencies, f)
    ensures forall f :: f != to ==> Get(r.dependents, f) == Get(g.dependents, f)
    ensures Mirrored(g) ==> Mirrored(r)
    ensures r.events == g.events + [DependencyAdded(from, to)]
  {
    Graph(g.dependencies[from := Get(g.dependencies, from) + {to}],
          g.dependents[to := Get(g.dependents, to) + {from}],
          g.events + [DependencyAdded(from, to)])
  }

  /** Drops `file`'s own entries from both maps, then removes `file` from the
      sets of the files its removed entries named. The second phase reads the
      `dependents` map as the first phase left it. */
  function RemoveFile(g: Graph, file: Path): (r: Graph)
    ensures r.dependencies.Keys == g.dependencies.Keys - {file}
    ensures r.dependents.Keys == g.dependents.Keys - {file}
    ensures GetDependencies(r, file) == {} && GetDependents(r, file) == {}
    ensures forall a, b :: Edge(r.dependencies, a, b) <==>
      Edge(g.dependencies, a, b) && a != file && !(b == file && Edge(g.dependents, file, a))
    ensures forall a, b :: Edge(r.dependents, a, b) <==>
      Edge(g.dependents, a, b) && a != file && !(b == file && Edge(g.dependencies, file, a))
    ensures Mirrored(g) ==> Mirrored(r)
    ensures Mirrored(g) ==> forall a, b :: Edge(r.dependencies, a, b) <==>
      Edge(g.dependencies, a, b) && a != file && b != file
    ensures r.events == g.events + [FileRemoved(file)]
  {
    var imported := Get(g.dependencies, file);
    var dependencies1 := g.dependencies - {file};
    var dependents1 := map k | k in g.dependents ::
      if k in imported then g.dependents[k] - {file} else g.dependents[k];
    var importers := Get(dependents1, file);
    var dependents2 := dependents1 - {file};
    var dependencies2 := map k | k in dependencies1 ::
      if k in importers then dependencies1[k] - {file} else dependencies1[k];
    Graph(dependencies2, dependents2, g.events + [FileRemoved(file)])
  }

  // ---------------------------------------------------------------------------
  // One-hop queries
  // ---------------------------------------------------------------------------

  /** The files `file` imports directly (the Rust `Vec`, as a set). */
  function GetDependencies(g: Graph, file: Path): (r: set<Path>)
    ensures forall x :: x in r <==> Edge(g.dependencies, file, x)
    ensures file !in g.dependencies ==> r == {}
  {
    Get(g.dependencies, file)
  }

  /** The files that import `file` directly. */
  function GetDependents(g: Graph, file: Path): (r: set<Path>)
    ensures forall x :: x in r <==> Edge(g.dependents, file, x)
    ensures file !in g.dependents ==> r == {}
  {
    Get(g.dependents, file)
  }

  /** On a mirrored graph the two one-hop queries answer the same question. */
  lemma MirroredQueries(g: Graph, a: Path, b: Path)
    requires Mirrored(g)
    ensures b in GetDependencies(g, a) <==> a in GetDependents(g, b)
  {
  }

  /** Re-adding an edge already present in both maps changes neither map, so
      the number of tracked dependencies is unchanged too. */
  lemma AddExistingDependency(g: Graph, from: Path, to: Path)
    requires Edge(g.dependencies, from, to) && Edge(g.dependents, to, from)
    ensures AddDependency(g, from, to).dependencies == g.dependencies
    ensures AddDependency(g, from, to).dependents == g.dependents
    ensures |EdgeSet(AddDependency(g, from, to).dependencies)| == |EdgeSet(g.dependencies)|
  {
    assert g.dependencies[from] + {to} == g.dependencies[from];
    assert g.dependents[to] + {from} == g.dependents[to];
  }

  /** Adding a new edge adds exactly one tracked dependency. */
  lemma AddNewDependency(g: Graph, from: Path, to: Path)
    requires !Edge(g.dependencies, from, to)
    ensures |EdgeSet(AddDependency(g, from, to).dependencies)| == |EdgeSet(g.dependencies)| + 1
  {
    var r := AddDependency(g, from, to);
    forall e | e in EdgeSet(r.dependencies)
      ensures e in EdgeSet(g.dependencies) + {(from, to)}
    {
      assert Edge(r.dependencies, e.0, e.1);
    }
    forall e | e in EdgeSet(g.dependencies) + {(from, to)}
      ensures e in EdgeSet(r.dependencies)
    {
      assert Edge(r.dependencies, e.0, e.1);
    }
    assert EdgeSet(r.dependencies) == EdgeSet(g.dependencies) + {(from, to)};
    assert (from, to) !in EdgeSet(g.dependencies);
  }

  // ---------------------------------------------------------------------------
  // dependencies_count
  // ---------------------------------------------------------------------------

  /** The edges of `m` whose source lies in `keys`. */
  ghost function EdgesFrom(m: map<Path, set<Path>>, keys: set<Path>): set<(Path, Path)>
  {
    set a, b | a in keys && a in m && b in m[a] :: (a, b)
  }

  ghost function Row(a: Path, s: set<Path>): set<(Path, Path)>
  {
    set b | b in s :: (a, b)
  }

  lemma {:induction false} RowSize(a: Path, s: set<Path>)
    ensures |Row(a, s)| == |s|
    decreases s
  {
    if s != {} {
      var b :| b in s;
      RowSize(a, s - {b});
      assert Row(a, s) == Row(a, s - {b}) + {(a, b)};
    } else {
      assert Row(a, s) == {};
    }
  }

  lemma EdgesFromAddKey(m: map<Path, set<Path>>, done: set<Path>, k: Path)
    requires k in m && k !in done
    ensures |EdgesFrom(m, done + {k})| == |EdgesFrom(m, done)| + |m[k]|
  {
    assert EdgesFrom(m, done + {k}) == EdgesFrom(m, done) + Row(k, m[k]);
    assert EdgesFrom(m, done) !! Row(k, m[k]);
    RowSize(k, m[k]);
  }

  /** Sums the sizes of all dependency sets: the number of dependency edges. */
  method DependenciesCount(g: Graph) returns (n: nat)
    ensures n == |EdgeSet(g.dependencies)|
  {
    var m := g.dependencies;
    n := 0;
    var pending := m.Keys;
    while pending != {}
      invariant pending <= m.Keys
      invariant n == |EdgesFrom(m, m.Keys - pending)|
      decreases pending
    {
      var k :| k in pending;
      EdgesFromAddKey(m, m.Keys - pending, k);
      assert (m.Keys - pending) + {k} == m.Keys - (pending - {k});
      n := n + |m[k]|;
      pending := pending - {k};
    }
    assert m.Keys - pending == m.Keys;
    assert EdgesFrom(m, m.Keys) == EdgeSet(m);
  }

  // ---------------------------------------------------------------------------
  // Reachability
  // ---------------------------------------------------------------------------

  /** Consecutive elements of `p` are edges of `m`. */
  ghost predicate IsPath(m: map<Path, set<Path>>, p: seq<Path>)
  {
    forall i :: 0 <= i < |p| - 1 ==> Edge(m, p[i], p[i + 1])
  }

  /** `b` is reachable from `a` along one or more edges of `m`. */
  ghost predicate Reaches(m: map<Path, set<Path>>, a: Path, b: Path)
  {
    exists p :: 2 <= |p| && p[0] == a && p[|p| - 1] == b && IsPath(m, p)
  }

  /** `b` is `a` or reachable from it. */
  ghost predicate ReachesOrSame(m: map<Path, set<Path>>, a: Path, b: Path)
  {
    a == b || Reaches(m, a, b)
  }

  /** Some file on a directed cycle is reachable from `root` (or is `root`). */
  ghost predicate CycleReachable(m: map<Path, set<Path>>, root: Path)
  {
    exists c :: ReachesOrSame(m, root, c) && Reaches(m, c, c)
  }

  /** `file` lies on a directed cycle itself. */
  ghost predicate OnCycle(m: map<Path, set<Path>>, file: Path)
  {
    Reaches(m, file, file)
  }

  lemma ReachesStep(m: map<Path, set<Path>>, a: Path, x: Path, y: Path)
    requires ReachesOrSame(m, a, x) && Edge(m, x, y)
    ensures Reaches(m, a, y)
  {
    if a == x {
      assert IsPath(m, [a, y]);
    } else {
      var p :| 2 <= |p| && p[0] == a && p[|p| - 1] == x && IsPath(m, p);
      var q := p + [y];
      assert IsPath(m, q);
    }
  }

  /** A set closed under the edges of `m` holds every element of any path
      that starts inside it. */
  lemma {:induction false} ClosedHoldsPath(m: map<Path, set<Path>>, s: set<Path>, p: seq<Path>)
    requires forall v, y :: v in s && Edge(m, v, y) ==> y in s
    requires 1 <= |p| && p[0] in s && IsPath(m, p)
    ensures forall i :: 0 <= i < |p| ==> p[i] in s
    decreases |p|
  {
    if |p| > 1 {
      var q := p[..|p| - 1];
      assert IsPath(m, q);
      ClosedHoldsPath(m, s, q);
      assert Edge(m, p[|p| - 2], p[|p| - 1]);
    }
  }

  // ---------------------------------------------------------------------------
  // get_all_affected
  // ---------------------------------------------------------------------------

  /** The files one `m`-edge away from some file of `s`. */
  ghost function Post(m: map<Path, set<Path>>, s: set<Path>): set<Path>
  {
    set v, y | v in s && v in m && y in m[v] :: y
  }

  /** One step of the traversal at `current`: every file importing `current`
      joins `affected` unless it is `file`, and is queued unless visited. */
  method VisitDependents(m: map<Path, set<Path>>, file: Path, current: Path, visited: set<Path>,
                         toVisit: seq<Path>, affected: set<Path>)
    returns (toVisit': seq<Path>, affected': set<Path>)
    ensures toVisit <= toVisit'
    ensures forall i :: |toVisit| <= i < |toVisit'| ==> toVisit'[i] in Get(m, current)
    ensures forall y :: y in Get(m, current) ==> y in visited || y in toVisit'
    ensures affected' == affected + (Get(m, current) - {file})
    ensures multiset(toVisit'[|toVisit|..]) == multiset(Get(m, current) - visited)
  {
    var deps := Get(m, current);
    toVisit', affected' := toVisit, affected;
    var remaining := deps;
    var queued: seq<Path> := [];
    while remaining != {}
      invariant toVisit' == toVisit + queued
      invariant Visiting(deps, remaining, visited, file, affected, queued, affected')
      decreases remaining
    {
      var dep :| dep in remaining;
      var affected'' := if dep != file then affected' + {dep} else affected';
      var queued' := if dep !in visited then queued + [dep] else queued;
      VisitStep(deps, remaining, visited, file, affected, queued, affected', dep, queued', affected'');
      toVisit', affected', queued := toVisit + queued', affected'', queued';
      remaining := remaining - {dep};
    }
    VisitDone(deps, visited, file, affected, toVisit, queued, affected');
  }

  /** Once every dependent is handled, `Visiting` gives the contract of
      `VisitDependents`. */
  lemma VisitDone(deps: set<Path>, visited: set<Path>, file: Path, affected: set<Path>,
                  toVisit: seq<Path>, queued: seq<Path>, affected': set<Path>)
    requires Visiting(deps, {}, visited, file, affected, queued, affected')
    ensures toVisit <= toVisit + queued
    ensures forall i :: |toVisit| <= i < |toVisit + queued| ==> (toVisit + queued)[i] in deps
    ensures forall y :: y in deps ==> y in visited || y in toVisit + queued
    ensures affected' == affected + (deps - {file})
    ensures multiset((toVisit + queued)[|toVisit|..]) == multiset(deps - visited)
  {
    assert (toVisit + queued)[|toVisit|..] == queued;
    assert deps - {} == deps;
  }

  /** What `VisitDependents` has done once the dependents outside `remaining`
      are handled: `queued` holds exactly the unvisited ones, each once. */
  ghost predicate Visiting(deps: set<Path>, remaining: set<Path>, visited: set<Path>, file: Path,
                           affected: set<Path>, queued: seq<Path>, affected': set<Path>)
  {
    && remaining <= deps
    && (forall i :: 0 <= i < |queued| ==> queued[i] in deps)
    && (forall y :: y in deps - remaining ==> y in visited || y in queued)
    && affected' == affected + ((deps - remaining) - {file})
    && multiset(queued) == multiset((deps - remaining) - visited)
  }

  /** Handling one more dependent keeps `Visiting`. */
  lemma VisitStep(deps: set<Path>, remaining: set<Path>, visited: set<Path>, file: Path,
                  affected: set<Path>, queued: seq<Path>, affected': set<Path>,
                  dep: Path, queued': seq<Path>, affected'': set<Path>)
    requires Visiting(deps, remaining, visited, file, affected, queued, affected')
    requires dep in remaining
    requires queued' == if dep !in visited then queued + [dep] else queued
    requires affected'' == if dep != file then affected' + {dep} else affected'
    ensures Visiting(deps, remaining - {dep}, visited, file, affected, queued', affected'')
  {
    QueuedStep(deps, remaining, visited, dep);
  }

  /** Taking `dep` out of `remaining` queues it exactly when it is unvisited. */
  lemma QueuedStep(deps: set<Path>, remaining: set<Path>, visited: set<Path>, dep: Path)
    requires dep in remaining && remaining <= deps
    ensures multiset((deps - (remaining - {dep})) - visited)
         == multiset((deps - remaining) - visited) + (if dep in visited then multiset{} else multiset{dep})
  {
    if dep !in visited {
      assert (deps - (remaining - {dep})) - visited == ((deps - remaining) - visited) + {dep};
    } else {
      assert (deps - (remaining - {dep})) - visited == (deps - remaining) - visited;
    }
  }


  /** The traversal's loop invariant, with `visited` closed once the
      worklist is empty. */
  ghost predicate AffectedInv(m: map<Path, set<Path>>, file: Path, universe: set<Path>,
                              visited: set<Path>, toVisit: seq<Path>, affected: set<Path>)
  {
    && visited <= universe
    && (forall i :: 0 <= i < |toVisit| ==> toVisit[i] in universe)
    && (forall v :: v in visited ==> ReachesOrSame(m, file, v))
    && (forall i :: 0 <= i < |toVisit| ==> ReachesOrSame(m, file, toVisit[i]))
    && (file in visited || toVisit == [file])
    && (forall v, y :: v in visited && Edge(m, v, y) ==> y in visited || y in toVisit)
    && affected == Post(m, visited) - {file}
  }

  lemma AffectedStep(m: map<Path, set<Path>>, file: Path, universe: set<Path>,
                     visited: set<Path>, toVisit: seq<Path>, affected: set<Path>,
                     current: Path, toVisit': seq<Path>, affected': set<Path>)
    requires universe == Nodes(m) + {file}
    requires AffectedInv(m, file, universe, visited, toVisit + [current], affected)
    requires current !in visited
    requires toVisit <= toVisit'
    requires forall i :: |toVisit| <= i < |toVisit'| ==> toVisit'[i] in Get(m, current)
    requires forall y :: y in Get(m, current) ==> y in visited + {current} || y in toVisit'
    requires affected' == affected + (Get(m, current) - {file})
    ensures AffectedInv(m, file, universe, visited + {current}, toVisit', affected')
  {
    var before := toVisit + [current];
    assert ReachesOrSame(m, file, before[|before| - 1]);
    forall i | |toVisit| <= i < |toVisit'|
      ensures ReachesOrSame(m, file, toVisit'[i]) && toVisit'[i] in universe
    {
      ReachesStep(m, file, current, toVisit'[i]);
    }
    forall i | 0 <= i < |toVisit|
      ensures toVisit'[i] == before[i]
    {
    }
    assert Post(m, visited + {current}) == Post(m, visited) + Get(m, current);
  }

  lemma AffectedDone(m: map<Path, set<Path>>, file: Path, universe: set<Path>,
                     visited: set<Path>, affected: set<Path>)
    requires AffectedInv(m, file, universe, visited, [], affected)
    ensures forall x :: x in affected <==> x != file && Reaches(m, file, x)
  {
    forall x | x != file && Reaches(m, file, x)
      ensures x in affected
    {
      var p :| 2 <= |p| && p[0] == file && p[|p| - 1] == x && IsPath(m, p);
      ClosedHoldsPath(m, visited, p);
      assert Edge(m, p[|p| - 2], x);
    }
    forall x | x in affected
      ensures Reaches(m, file, x)
    {
      var v :| v in visited && v in m && x in m[v];
      ReachesStep(m, file, v, x);
    }
  }

  /** Worklist traversal over `dependents` with a visited set: every file
      transitively importing `file`, never `file` itself, even when a cycle
      leads back to it. */
  method GetAllAffected(g: Graph, file: Path) returns (affected: set<Path>)
    ensures forall x :: x in affected <==> x != file && Reaches(g.dependents, file, x)
  {
    var m := g.dependents;
    ghost var universe := Nodes(m) + {file};
    affected := {};
    var toVisit := [file];
    var visited: set<Path> := {};
    while toVisit != []
      invariant AffectedInv(m, file, universe, visited, toVisit, affected)
      decreases universe - visited, |toVisit|
    {
      var current := toVisit[|toVisit| - 1];
      ghost var before := toVisit;
      toVisit := toVisit[..|toVisit| - 1];
      assert before == toVisit + [current];
      if current in visited {
        assert forall y :: y in before ==> y == current || y in toVisit;
        continue;
      }
      var toVisit', affected' := VisitDependents(m, file, current, visited + {current}, toVisit, affected);
      AffectedStep(m, file, universe, visited, toVisit, affected, current, toVisit', affected');
      visited, toVisit, affected := visited + {current}, toVisit', affected';
    }
    AffectedDone(m, file, universe, visited, affected);
  }

  // ---------------------------------------------------------------------------
  // has_circular_dependency
  // ---------------------------------------------------------------------------

  /** Bookkeeping of the depth-first search. Files in `visited` but not on
      `recStack` are finished; a finished file's imports are finished too and
      carry a strictly smaller ghost finishing rank. */
  ghost predicate DfsInv(m: map<Path, set<Path>>, visited: set<Path>, recStack: set<Path>,
                         rank: map<Path, nat>, clock: nat)
  {
    && recStack <= visited
    && (forall b :: b in visited && b !in recStack ==> b in rank && rank[b] < clock)
    && (forall b, y :: b in visited && b !in recStack && Edge(m, b, y) ==>
          y in visited && y !in recStack && b in rank && y in rank && rank[y] < rank[b])
  }

  /** Depth-first search from `file` with a recursion-stack set. Returns true
      as soon as a file already on the stack is reached again; a file visited
      earlier and no longer on the stack is skipped. */
  method HasCycleDfs(g: Graph, file: Path, visited: set<Path>, recStack: set<Path>,
                     ghost root: Path, ghost rank: map<Path, nat>, ghost clock: nat)
    returns (found: bool, visited': set<Path>, recStack': set<Path>,
             ghost rank': map<Path, nat>, ghost clock': nat)
    requires DfsInv(g.dependencies, visited, recStack, rank, clock)
    requires forall s :: s in recStack ==> Reaches(g.dependencies, s, file)
    requires ReachesOrSame(g.dependencies, root, file)
    ensures found ==> CycleReachable(g.dependencies, root)
    ensures !found ==> DfsInv(g.dependencies, visited', recStack', rank', clock')
    ensures !found ==> recStack' == recStack && visited <= visited'
    ensures !found ==> file in visited' && file !in recStack'
    decreases Nodes(g.dependencies) - visited
  {
    var m := g.dependencies;
    if file in recStack {
      assert Reaches(m, file, file);
      return true, visited, recStack, rank, clock;
    }
    if file in visited {
      return false, visited, recStack, rank, clock;
    }
    visited' := visited + {file};
    recStack' := recStack + {file};
    rank', clock' := rank, clock;
    var deps := Get(m, file);
    var remaining := deps;
    while remaining != {}
      invariant remaining <= deps
      invariant DfsInv(m, visited', recStack', rank', clock')
      invariant recStack' == recStack + {file}
      invariant visited + {file} <= visited'
      invariant forall y :: y in deps - remaining ==> y in visited' && y !in recStack'
      decreases remaining
    {
      var dep :| dep in remaining;
      ReachesStep(m, root, file, dep);
      forall s | s in recStack'
        ensures Reaches(m, s, dep)
      {
        ReachesStep(m, s, file, dep);
      }
      var sub;
      sub, visited', recStack', rank', clock' := HasCycleDfs(g, dep, visited', recStack', root, rank', clock');
      if sub {
        return true, visited', recStack', rank', clock';
      }
      remaining := remaining - {dep};
    }
    found := false;
    recStack' := recStack' - {file};
    rank' := rank'[file := clock'];
    clock' := clock' + 1;
  }

  /** Along any path from a finished file, every file is finished and the
      ranks strictly decrease. */
  lemma {:induction false} FinishedPath(m: map<Path, set<Path>>, visited: set<Path>,
                                        rank: map<Path, nat>, clock: nat, p: seq<Path>)
    requires DfsInv(m, visited, {}, rank, clock)
    requires 1 <= |p| && p[0] in visited && IsPath(m, p)
    ensures forall i :: 0 <= i < |p| ==> p[i] in visited && p[i] in rank
    ensures forall i :: 0 < i < |p| ==> rank[p[i]] < rank[p[0]]
    decreases |p|
  {
    if |p| > 1 {
      var q := p[..|p| - 1];
      assert IsPath(m, q);
      FinishedPath(m, visited, rank, clock, q);
      assert Edge(m, p[|p| - 2], p[|p| - 1]);
    }
  }

  /** True exactly when some cycle is reachable from `file` along
      `dependencies` edges, `file` included. */
  method HasCircularDependency(g: Graph, file: Path) returns (r: bool)
    ensures r <==> CycleReachable(g.dependencies, file)
  {
    var m := g.dependencies;
    var visited, recStack;
    ghost var rank, clock;
    r, visited, recStack, rank, clock := HasCycleDfs(g, file, {}, {}, file, map[], 0);
    if !r && CycleReachable(m, file) {
      var c :| ReachesOrSame(m, file, c) && Reaches(m, c, c);
      if c != file {
        var p :| 2 <= |p| && p[0] == file && p[|p| - 1] == c && IsPath(m, p);
        FinishedPath(m, visited, rank, clock, p);
      }
      var q :| 2 <= |q| && q[0] == c && q[|q| - 1] == c && IsPath(m, q);
      FinishedPath(m, visited, rank, clock, q);
      assert false;
    }
  }

  /** On a graph without cycles the search never reports one. */
  lemma AcyclicHasNoReachableCycle(m: map<Path, set<Path>>, file: Path)
    requires forall c :: !OnCycle(m, c)
    ensures !CycleReachable(m, file)
  {
    if CycleReachable(m, file) {
      var c :| ReachesOrSame(m, file, c) && Reaches(m, c, c);
      assert OnCycle(m, c);
    }
  }

  /** The search answers a different question from "is `file` on a cycle":
      here `a` imports `b`, `b` imports itself, and `a` lies on no cycle, yet
      a cycle is reachable from `a`. */
  lemma ReachableCycleIsNotOwnCycle()
    ensures CycleReachable(map["a" := {"b"}, "b" := {"b"}], "a")
    ensures !OnCycle(map["a" := {"b"}, "b" := {"b"}], "a")
  {
    var m: map<Path, set<Path>> := map["a" := {"b"}, "b" := {"b"}];
    assert IsPath(m, ["a", "b"]);
    assert IsPath(m, ["b", "b"]);
    assert Reaches(m, "b", "b");
    if OnCycle(m, "a") {
      var p :| 2 <= |p| && p[0] == "a" && p[|p| - 1] == "a" && IsPath(m, p);
      OnlyBAfterA(m, p);
      assert false;
    }
  }

  lemma {:induction false} OnlyBAfterA(m: map<Path, set<Path>>, p: seq<Path>)
    requires m == map["a" := {"b"}, "b" := {"b"}]
    requires 1 <= |p| && p[0] == "a" && IsPath(m, p)
    ensures forall i :: 1 <= i < |p| ==> p[i] == "b"
    decreases |p|
  {
    if |p| > 1 {
      var q := p[..|p| - 1];
      assert IsPath(m, q);
      OnlyBAfterA(m, q);
      assert Edge(m, p[|p| - 2], p[|p| - 1]);
    }
  }

  // ---------------------------------------------------------------------------
  // Sequences of mutations
  // ---------------------------------------------------------------------------

  datatype Mutation = AddEdge(from: Path, to: Path) | Remove(file: Path)

  function Apply(g: Graph, ops: seq<Mutation>): Graph
    decreases |ops|
  {
    if ops == [] then g
    else
      var g1 := match ops[0]
        case AddEdge(from, to) => AddDependency(g, from, to)
        case Remove(file) => RemoveFile(g, file);
      Apply(g1, ops[1..])
  }

  function EventOf(op: Mutation): DependencyEvent
  {
    match op
    case AddEdge(from, to) => DependencyAdded(from, to)
    case Remove(file) => FileRemoved(file)
  }

  function EventsOf(ops: seq<Mutation>): seq<DependencyEvent>
    decreases |ops|
  {
    if ops == [] then [] else [EventOf(ops[0])] + EventsOf(ops[1..])
  }

  /** The mirror between the two maps survives any sequence of mutations. */
  lemma {:induction false} ApplyKeepsMirror(g: Graph, ops: seq<Mutation>)
    requires Mirrored(g)
    ensures Mirrored(Apply(g, ops))
    decreases |ops|
  {
    if ops != [] {
      var g1 := match ops[0]
        case AddEdge(from, to) => AddDependency(g, from, to)
        case Remove(file) => RemoveFile(g, file);
      ApplyKeepsMirror(g1, ops[1..]);
    }
  }

  /** Each mutation logs exactly one event, in the order applied, even a
      removal of an untracked file. */
  lemma {:induction false} ApplyLogsEvents(g: Graph, ops: seq<Mutation>)
    ensures Apply(g, ops).events == g.events + EventsOf(ops)
    decreases |ops|
  {
    if ops != [] {
      var g1 := match ops[0]
        case AddEdge(from, to) => AddDependency(g, from, to)
        case Remove(file) => RemoveFile(g, file);
      ApplyLogsEvents(g1, ops[1..]);
    }
  }

  lemma EmptyIsMirrored()
    ensures Mirrored(Empty)
  {
  }
}
