/**
 * Tree shaking in the bundler: a dependency graph keyed by module id, and the
 * worklist closure that collects every id reachable from the entry points.
 */
module TreeShake {

  /** A graph node as it is stored in the id-to-node map. */
  datatype DepNode = DepNode(id: string, dependencies: set<string>)

  /** A node under construction: `add_dependency` grows its set in place. */
  class GraphNode {
    const id: string
    var dependencies: set<string>

    /** The node as the value that is put into the graph map. */
    function Snapshot(): (r: DepNode)
      reads this
      ensures r.id == id && r.dependencies == dependencies
    {
      DepNode(id, dependencies)
    }

    /** A node with the given id and no dependencies. */
    constructor (nodeId: string)
      ensures id == nodeId && dependencies == {}
    {
      id := nodeId;
      dependencies := {};
    }

    /** Adds one dependency; adding one that is already there changes nothing. */
    method AddDependency(dependency: string)
      modifies this
      ensures dependencies == old(dependencies) + {dependency}
      ensures dependency in old(dependencies) ==> dependencies == old(dependencies)
    {
      dependencies := dependencies + {dependency};
    }
  }

  // ---------------------------------------------------------------------------
  // Reachability
  // ---------------------------------------------------------------------------

  /** `p` follows dependency edges: each id but the last has a node whose
      dependencies hold the next id. */
  ghost predicate IsPath(nodes: map<string, DepNode>, p: seq<string>)
  {
    && |p| > 0
    && forall i :: 0 <= i < |p| - 1 ==> p[i] in nodes && p[i + 1] in nodes[p[i]].dependencies
  }

  /** `p` leads from an entry point to `id`. */
  ghost predicate Witness(nodes: map<string, DepNode>, entries: seq<string>, p: seq<string>, id: string)
  {
    IsPath(nodes, p) && p[0] in entries && p[|p| - 1] == id
  }

  /** `id` can be reached from some entry point along dependency edges. */
  ghost predicate Reachable(nodes: map<string, DepNode>, entries: seq<string>, id: string)
  {
    exists p :: Witness(nodes, entries, p, id)
  }

  /** Every known node of `s` has all its dependencies in `s`. */
  predicate Closed(nodes: map<string, DepNode>, s: set<string>)
  {
    forall id :: id in s && id in nodes ==> nodes[id].dependencies <= s
  }

  /** Every id the closure can ever meet: the entry points and every dependency. */
  function Universe(nodes: map<string, DepNode>, entries: seq<string>): (u: set<string>)
    ensures forall e :: e in entries ==> e in u
    ensures forall id, d :: id in nodes && d in nodes[id].dependencies ==> d in u
  {
    (set e | e in entries) + (set id, d | id in nodes && d in nodes[id].dependencies :: d)
  }

  /** The ids reachable from `entries`: every entry point (known or not) and,
      for each reached id that has a node, all of its dependencies. */
  method TreeShaker(nodes: map<string, DepNode>, entries: seq<string>) returns (reachable: set<string>)
    ensures forall e :: e in entries ==> e in reachable
    ensures Closed(nodes, reachable)
    ensures forall id :: id in reachable ==> Reachable(nodes, entries, id)
  {
    var universe := Universe(nodes, entries);
    reachable := {};
    var toVisit := entries;
    ghost var paths: map<string, seq<string>> := map e | e in entries :: [e];
    StartProgress(nodes, entries, paths);
    while |toVisit| > 0
      invariant Progress(nodes, entries, universe, reachable, toVisit, paths)
      decreases |universe - reachable|, |toVisit|
    {
      reachable, toVisit, paths := Visit(nodes, entries, universe, reachable, toVisit, paths);
    }
    FinishProgress(nodes, entries, universe, reachable, paths);
  }

  /** The loop invariant holds before the first turn. */
  lemma StartProgress(nodes: map<string, DepNode>, entries: seq<string>, paths: map<string, seq<string>>)
    requires paths == map e | e in entries :: [e]
    ensures Progress(nodes, entries, Universe(nodes, entries), {}, entries, paths)
  {
    forall x | x in paths
      ensures Witness(nodes, entries, paths[x], x)
    {
      assert IsPath(nodes, [x]);
    }
  }

  /** With the worklist empty, the invariant gives the method's guarantees. */
  lemma FinishProgress(nodes: map<string, DepNode>, entries: seq<string>, universe: set<string>,
                       reachable: set<string>, paths: map<string, seq<string>>)
    requires Progress(nodes, entries, universe, reachable, [], paths)
    ensures forall e :: e in entries ==> e in reachable
    ensures Closed(nodes, reachable)
    ensures forall id :: id in reachable ==> Reachable(nodes, entries, id)
  {
    forall e | e in entries
      ensures e in reachable
    {
      assert e !in [];
    }
    forall id, d | id in reachable && id in nodes && d in nodes[id].dependencies
      ensures d in reachable
    {
      assert d !in [];
    }
    forall id | id in reachable
      ensures Reachable(nodes, entries, id)
    {
      assert Witness(nodes, entries, paths[id], id);
    }
  }

  /** What the worklist loop keeps: everything seen stays inside the universe,
      every entry point and every dependency of a visited node is visited or
      still pending, and every id met so far has a witness path. */
  ghost predicate Progress(nodes: map<string, DepNode>, entries: seq<string>, universe: set<string>,
                           reachable: set<string>, toVisit: seq<string>, paths: map<string, seq<string>>)
  {
    && universe == Universe(nodes, entries)
    && reachable <= universe
    && (forall x :: x in toVisit ==> x in universe)
    && (forall e :: e in entries ==> e in reachable || e in toVisit)
    && (forall id, d :: id in reachable && id in nodes && d in nodes[id].dependencies ==>
          d in reachable || d in toVisit)
    && (forall x :: x in reachable ==> x in paths)
    && (forall x :: x in toVisit ==> x in paths)
    && (forall x :: x in paths ==> Witness(nodes, entries, paths[x], x))
  }

  /** One turn of the worklist loop: pops the last id and, when it is new,
      marks it reachable and pushes its unvisited dependencies. */
  method Visit(nodes: map<string, DepNode>, entries: seq<string>, ghost universe: set<string>,
               reachable: set<string>, toVisit: seq<string>, ghost paths: map<string, seq<string>>)
    returns (reachable': set<string>, toVisit': seq<string>, ghost paths': map<string, seq<string>>)
    requires |toVisit| > 0
    requires Progress(nodes, entries, universe, reachable, toVisit, paths)
    ensures Progress(nodes, entries, universe, reachable', toVisit', paths')
    ensures reachable' == reachable ==> |toVisit'| < |toVisit|
    ensures reachable' != reachable ==> |universe - reachable'| < |universe - reachable|
  {
    var id := toVisit[|toVisit| - 1];
    var rest := toVisit[..|toVisit| - 1];
    assert forall x :: x in toVisit ==> x in rest || x == id;
    if id in reachable {
      reachable', toVisit', paths' := reachable, rest, paths;
      PopVisited(nodes, entries, universe, reachable, toVisit, paths);
    } else {
      reachable' := reachable + {id};
      assert (universe - reachable') + {id} == universe - reachable;
      if id in nodes {
        toVisit', paths' := PushUnvisited(nodes, entries, id, reachable', rest, paths, universe);
      } else {
        toVisit', paths' := rest, paths;
      }
      PopFresh(nodes, entries, universe, reachable, toVisit, paths, toVisit', paths');
    }
  }

  /** Popping an id that is already reachable keeps the loop invariant. */
  lemma PopVisited(nodes: map<string, DepNode>, entries: seq<string>, universe: set<string>,
                   reachable: set<string>, toVisit: seq<string>, paths: map<string, seq<string>>)
    requires |toVisit| > 0 && toVisit[|toVisit| - 1] in reachable
    requires Progress(nodes, entries, universe, reachable, toVisit, paths)
    ensures Progress(nodes, entries, universe, reachable, toVisit[..|toVisit| - 1], paths)
  {
    var rest := toVisit[..|toVisit| - 1];
    assert forall x :: x in toVisit ==> x in rest || x == toVisit[|toVisit| - 1];
    assert forall x :: x in rest ==> x in toVisit;
  }

  /** Popping a new id, marking it reachable and pushing its unvisited
      dependencies keeps the loop invariant. */
  lemma PopFresh(nodes: map<string, DepNode>, entries: seq<string>, universe: set<string>,
                 reachable: set<string>, toVisit: seq<string>, paths: map<string, seq<string>>,
                 toVisit': seq<string>, paths': map<string, seq<string>>)
    requires |toVisit| > 0 && toVisit[|toVisit| - 1] !in reachable
    requires Progress(nodes, entries, universe, reachable, toVisit, paths)
    requires var id := toVisit[|toVisit| - 1];
             && (forall x :: x in toVisit[..|toVisit| - 1] ==> x in toVisit')
             && (forall x :: x in toVisit' ==> x in toVisit || (id in nodes && x in nodes[id].dependencies))
             && (id in nodes ==> forall d :: d in nodes[id].dependencies ==> d in reachable + {id} || d in toVisit')
             && paths.Keys <= paths'.Keys
             && (forall x :: x in toVisit' ==> x in toVisit || x in paths')
             && (forall x :: x in paths' ==> Witness(nodes, entries, paths'[x], x))
    ensures Progress(nodes, entries, universe, reachable + {toVisit[|toVisit| - 1]}, toVisit', paths')
  {
    var id := toVisit[|toVisit| - 1];
    var rest := toVisit[..|toVisit| - 1];
    assert forall x :: x in toVisit ==> x in rest || x == id;
    PopFreshCovers(nodes, entries, universe, reachable, toVisit, toVisit');
    PopFreshPaths(reachable, toVisit, paths, toVisit', paths');
  }

  /** The coverage half of `PopFresh`: the new worklist stays in the universe
      and, with the popped id now reachable, still covers every entry point
      and every dependency of a reachable node. */
  lemma PopFreshCovers(nodes: map<string, DepNode>, entries: seq<string>, universe: set<string>,
                       reachable: set<string>, toVisit: seq<string>, toVisit': seq<string>)
    requires |toVisit| > 0
    requires universe == Universe(nodes, entries) && reachable <= universe
    requires forall x :: x in toVisit ==> x in universe
    requires forall e :: e in entries ==> e in reachable || e in toVisit
    requires forall id, d :: id in reachable && id in nodes && d in nodes[id].dependencies ==>
               d in reachable || d in toVisit
    requires var id := toVisit[|toVisit| - 1];
             && (forall x :: x in toVisit[..|toVisit| - 1] ==> x in toVisit')
             && (forall x :: x in toVisit' ==> x in toVisit || (id in nodes && x in nodes[id].dependencies))
             && (id in nodes ==> forall d :: d in nodes[id].dependencies ==> d in reachable + {id} || d in toVisit')
    ensures var reachable' := reachable + {toVisit[|toVisit| - 1]};
            && reachable' <= universe
            && (forall x :: x in toVisit' ==> x in universe)
            && (forall e :: e in entries ==> e in reachable' || e in toVisit')
            && (forall id, d :: id in reachable' && id in nodes && d in nodes[id].dependencies ==>
                  d in reachable' || d in toVisit')
  {
    var id := toVisit[|toVisit| - 1];
    var rest := toVisit[..|toVisit| - 1];
    assert forall x :: x in toVisit ==> x in rest || x == id;
  }

  /** The witness half of `PopFresh`: every id met so far keeps a witness path. */
  lemma PopFreshPaths(reachable: set<string>, toVisit: seq<string>, paths: map<string, seq<string>>,
                      toVisit': seq<string>, paths': map<string, seq<string>>)
    requires |toVisit| > 0
    requires forall x :: x in reachable ==> x in paths
    requires forall x :: x in toVisit ==> x in paths
    requires paths.Keys <= paths'.Keys
    requires forall x :: x in toVisit' ==> x in toVisit || x in paths'
    ensures forall x :: x in reachable + {toVisit[|toVisit| - 1]} ==> x in paths'
    ensures forall x :: x in toVisit' ==> x in paths'
  {
  }

  /** The inner loop of the closure: pushes each dependency of `id` that is
      not yet reachable, recording a witness path for it. */
  method PushUnvisited(nodes: map<string, DepNode>, entries: seq<string>, id: string,
                       reachable: set<string>, toVisit: seq<string>,
                       ghost paths: map<string, seq<string>>, ghost universe: set<string>)
    returns (toVisit': seq<string>, ghost paths': map<string, seq<string>>)
    requires id in nodes && id in reachable && id in paths
    requires forall x :: x in paths ==> Witness(nodes, entries, paths[x], x)
    requires forall id, d :: id in nodes && d in nodes[id].dependencies ==> d in universe
    ensures forall x :: x in toVisit ==> x in toVisit'
    ensures forall x :: x in toVisit' ==> x in toVisit || x in nodes[id].dependencies
    ensures forall d :: d in nodes[id].dependencies ==> d in reachable || d in toVisit'
    ensures paths.Keys <= paths'.Keys
    ensures forall x :: x in toVisit' ==> x in toVisit || x in paths'
    ensures forall x :: x in paths' ==> Witness(nodes, entries, paths'[x], x)
  {
    toVisit' := toVisit;
    paths' := paths;
    var pending := nodes[id].dependencies;
    while pending != {}
      invariant pending <= nodes[id].dependencies
      invariant toVisit <= toVisit'
      invariant forall x :: x in toVisit' ==> x in toVisit || x in nodes[id].dependencies
      invariant forall d :: d in nodes[id].dependencies && d !in pending ==> d in reachable || d in toVisit'
      invariant paths.Keys <= paths'.Keys
      invariant forall x :: x in toVisit' ==> x in toVisit || x in paths'
      invariant forall x :: x in paths' ==> Witness(nodes, entries, paths'[x], x)
      decreases pending
    {
      var dep :| dep in pending;
      if dep !in reachable {
        toVisit' := toVisit' + [dep];
        var p := paths[id];
        assert Witness(nodes, entries, p, id);
        paths' := paths'[dep := p + [dep]];
        assert Witness(nodes, entries, p + [dep], dep) by {
          assert forall i :: 0 <= i < |p| ==> (p + [dep])[i] == p[i];
        }
      }
      pending := pending - {dep};
    }
  }

  // ---------------------------------------------------------------------------
  // Properties
  // ---------------------------------------------------------------------------

  /** A closed set holding the start of a path holds all of it. */
  lemma {:induction false} ClosedHoldsPath(nodes: map<string, DepNode>, s: set<string>, p: seq<string>)
    requires Closed(nodes, s) && IsPath(nodes, p) && p[0] in s
    ensures p[|p| - 1] in s
    decreases |p|
  {
    if |p| > 1 {
      var q := p[..|p| - 1];
      assert IsPath(nodes, q) by {
        assert forall i :: 0 <= i < |q| ==> q[i] == p[i];
      }
      ClosedHoldsPath(nodes, s, q);
      assert p[|p| - 2] in nodes && p[|p| - 1] in nodes[p[|p| - 2]].dependencies;
    }
  }

  /** Completeness: every closed set holding the entry points holds every
      reachable id; with the method's own guarantees the result of the tree
      shaker is exactly the reachable set. */
  lemma ClosedHoldsReachable(nodes: map<string, DepNode>, entries: seq<string>, s: set<string>, id: string)
    requires forall e :: e in entries ==> e in s
    requires Closed(nodes, s)
    requires Reachable(nodes, entries, id)
    ensures id in s
  {
    var p :| Witness(nodes, entries, p, id);
    ClosedHoldsPath(nodes, s, p);
  }

  /** Every entry point is reachable, even one without a node. */
  lemma EntriesReachable(nodes: map<string, DepNode>, entries: seq<string>, e: string)
    requires e in entries
    ensures Reachable(nodes, entries, e)
  {
    assert Witness(nodes, entries, [e], e);
  }

  /** An id without a node contributes no edges: nothing is reachable through it. */
  lemma UnknownIdsAreDeadEnds(nodes: map<string, DepNode>, p: seq<string>, i: nat)
    requires IsPath(nodes, p) && i < |p| && p[i] !in nodes
    ensures i == |p| - 1
  {
  }
}
