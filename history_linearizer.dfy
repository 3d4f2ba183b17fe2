/** filter/restructurer/HistoryLinearizer.kt: every commit keeps only its
    first parent, so the rewritten history is a chain. The parent is
    returned as is, not looked up in the commit mapping. */
module Linearizer {
  import opened Commits

  /** `rewriteParents`: no parents for a null or empty array, else the
      first parent alone. */
  function FirstParentOnly(parents: Option<seq<Id>>): (r: seq<Id>)
    ensures |r| <= 1
    ensures |r| == 1 <==> parents.Some? && |parents.value| > 0
    ensures |r| == 1 ==> r[0] == parents.value[0]
  {
    if parents.None? || |parents.value| == 0 then [] else [parents.value[0]]
  }

  /** The counter is declared, set to zero and reported by `cleanUp`; no
      method ever increments it. */
  class HistoryLinearizer {
    var numOfMergeCommits: int

    constructor ()
      ensures numOfMergeCommits == 0
    {
      numOfMergeCommits := 0;
    }

    /** Changes no field: the reported count of merge commits stays 0. */
    method RewriteParents(parents: Option<seq<Id>>) returns (r: seq<Id>)
      ensures r == FirstParentOnly(parents)
    {
      if parents.None? || |parents.value| == 0 {
        return [];
      }
      return [parents.value[0]];
    }

    /** `cleanUp`: the count it prints. */
    method CleanUp() returns (reported: int)
      ensures reported == numOfMergeCommits
    {
      return numOfMergeCommits;
    }
  }

  /** A run of the filter: a fresh linearizer rewrites the parent lists of
      the visited commits in order, then reports its merge count, which is
      always 0 however many merge commits were linearised. */
  method RunLinearizer(parentLists: seq<Option<seq<Id>>>) returns (rewritten: seq<seq<Id>>, reported: int)
    ensures |rewritten| == |parentLists|
    ensures forall i :: 0 <= i < |parentLists| ==> rewritten[i] == FirstParentOnly(parentLists[i])
    ensures reported == 0
  {
    var linearizer := new HistoryLinearizer();
    rewritten := [];
    var k := 0;
    while k < |parentLists|
      invariant 0 <= k <= |parentLists|
      invariant |rewritten| == k
      invariant forall i :: 0 <= i < k ==> rewritten[i] == FirstParentOnly(parentLists[i])
      invariant linearizer.numOfMergeCommits == 0
    {
      var r := linearizer.RewriteParents(parentLists[k]);
      rewritten := rewritten + [r];
      k := k + 1;
    }
    reported := linearizer.CleanUp();
  }

  /** Linearising twice is linearising once. */
  lemma FirstParentOnlyIsIdempotent(parents: Option<seq<Id>>)
    ensures FirstParentOnly(Some(FirstParentOnly(parents))) == FirstParentOnly(parents)
  {
  }

  /** The history with every commit's parents linearised, on the source
      ids: the same commits with the same trees, messages and authors, a
      root stays a root and every other commit keeps its first parent only. */
  function Linearize(g: Graph): (r: Graph)
    ensures r.Keys == g.Keys
    ensures forall id :: id in r ==>
              && r[id].id == g[id].id && r[id].tree == g[id].tree
              && r[id].fullMessage == g[id].fullMessage && r[id].author == g[id].author
    ensures forall id :: id in r && g[id].parents == [] ==> r[id].parents == []
    ensures forall id :: id in r && g[id].parents != [] ==> r[id].parents == [g[id].parents[0]]
  {
    map id | id in g :: g[id].(parents := FirstParentOnly(Some(g[id].parents)))
  }

  /** Linearising keeps the history well formed (no commit gains a parent
      it did not have), every commit has at most one parent afterwards,
      and the first parent of each commit is kept. */
  lemma LinearizeMakesChain(g: Graph, depth: map<Id, nat>)
    requires WellFormed(g, depth)
    ensures WellFormed(Linearize(g), depth)
    ensures forall id :: id in g ==> |Linearize(g)[id].parents| <= 1
    ensures forall id :: id in g && |g[id].parents| > 0 ==> Linearize(g)[id].parents == [g[id].parents[0]]
  {
    var r := Linearize(g);
    forall id, i | id in r && 0 <= i < |r[id].parents|
      ensures r[id].parents[i] in r && depth[r[id].parents[i]] < depth[id]
    {
      assert r[id].parents[i] == g[id].parents[0];
    }
  }
}
