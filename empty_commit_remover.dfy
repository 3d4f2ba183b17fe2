/** filter/restructurer/EmptyCommitRemover.kt: every parent is replaced by
    its nearest ancestor that is not a no-op commit (one parent and the same
    tree as that parent), then translated through the commit mapping. A no-op
    commit is thereby never the parent of a rewritten commit. */
module EmptyCommits {
  import opened Commits

  /** A commit with exactly one parent and that parent's tree: it changes
      nothing. Roots and merge commits are never no-ops. */
  predicate IsNoOp(g: Graph, id: Id)
    requires id in g
  {
    && |g[id].parents| == 1
    && g[id].parents[0] in g
    && g[id].tree == g[g[id].parents[0]].tree
  }

  /** The commit the walk up the first parents stops at: the nearest
      ancestor, `id` included, that is not a no-op. It has the tree of `id`,
      because each skipped commit has the tree of its parent. */
  function NoOpAncestor(g: Graph, depth: map<Id, nat>, id: Id): (r: Id)
    requires WellFormed(g, depth) && id in g
    ensures r in g && !IsNoOp(g, r)
    ensures g[r].tree == g[id].tree
    ensures r == id || (IsNoOp(g, id) && depth[r] < depth[id])
    decreases depth[id]
  {
    if IsNoOp(g, id) then NoOpAncestor(g, depth, g[id].parents[0]) else id
  }

  /** The `while` loop of `rewriteParents` for one parent. */
  method SkipNoOpCommits(g: Graph, depth: map<Id, nat>, id: Id) returns (newParent: Id)
    requires WellFormed(g, depth) && id in g
    ensures newParent == NoOpAncestor(g, depth, id)
  {
    newParent := id;
    while |g[newParent].parents| == 1 && g[newParent].tree == g[g[newParent].parents[0]].tree
      invariant newParent in g
      invariant NoOpAncestor(g, depth, newParent) == NoOpAncestor(g, depth, id)
      decreases depth[newParent]
    {
      newParent := g[newParent].parents[0];
    }
  }

  /** `rewriteParents`: each parent walked past no-op commits and looked up
      in the commit mapping, falling back to the unmapped id. A null parent
      array goes to the engine's default, which is not part of this model:
      it is passed on as `None`. */
  method RewriteParents(parents: Option<seq<Id>>, g: Graph, depth: map<Id, nat>, mapping: map<Id, Id>)
    returns (r: Option<seq<Id>>)
    requires WellFormed(g, depth)
    requires parents.Some? ==> forall i :: 0 <= i < |parents.value| ==> parents.value[i] in g
    ensures parents.None? <==> r.None?
    ensures parents.Some? ==> |r.value| == |parents.value|
    ensures parents.Some? ==> forall i :: 0 <= i < |r.value| ==>
              r.value[i] == Translate(mapping, NoOpAncestor(g, depth, parents.value[i]))
  {
    if parents.None? {
      return None;
    }
    var ps := parents.value;
    var result: seq<Id> := [];
    var k := 0;
    while k < |ps|
      invariant 0 <= k <= |ps|
      invariant |result| == k
      invariant forall i :: 0 <= i < k ==> result[i] == Translate(mapping, NoOpAncestor(g, depth, ps[i]))
    {
      var newParent := SkipNoOpCommits(g, depth, ps[k]);
      var mapped := if newParent in mapping then mapping[newParent] else newParent;
      result := result + [mapped];
      k := k + 1;
    }
    return Some(result);
  }

  // ---------------------------------------------------------------------
  // Properties

  /** Roots and merge commits are kept as they are. */
  lemma RootsAndMergesKept(g: Graph, depth: map<Id, nat>, id: Id)
    requires WellFormed(g, depth) && id in g && |g[id].parents| != 1
    ensures NoOpAncestor(g, depth, id) == id
  {
  }

  /** Skipping is transitive: a no-op parent leads where its own parent
      leads, and walking again from the target goes nowhere. */
  lemma SkipIsTransitive(g: Graph, depth: map<Id, nat>, id: Id)
    requires WellFormed(g, depth) && id in g
    ensures IsNoOp(g, id) ==> NoOpAncestor(g, depth, id) == NoOpAncestor(g, depth, g[id].parents[0])
    ensures NoOpAncestor(g, depth, NoOpAncestor(g, depth, id)) == NoOpAncestor(g, depth, id)
  {
  }

  /** The target is the nearest commit on the first-parent chain that is
      not a no-op: every commit from `id` up to it, itself excluded, is one. */
  ghost predicate NoOpChainTo(g: Graph, depth: map<Id, nat>, id: Id, target: Id)
    requires WellFormed(g, depth) && id in g
    decreases depth[id]
  {
    if id == target then true
    else IsNoOp(g, id) && NoOpChainTo(g, depth, g[id].parents[0], target)
  }

  lemma {:induction false} AncestorIsEndOfNoOpChain(g: Graph, depth: map<Id, nat>, id: Id)
    requires WellFormed(g, depth) && id in g
    ensures NoOpChainTo(g, depth, id, NoOpAncestor(g, depth, id))
    decreases depth[id]
  {
    if IsNoOp(g, id) {
      AncestorIsEndOfNoOpChain(g, depth, g[id].parents[0]);
    }
  }

  /** A → B → C with B a no-op on top of A: C's rewritten parent is A's
      rewritten id (when A itself is not a no-op), B is gone. */
  lemma ChainCollapses(g: Graph, depth: map<Id, nat>, a: Id, b: Id, c: Id, mapping: map<Id, Id>)
    requires WellFormed(g, depth) && a in g && b in g && c in g
    requires g[b].parents == [a] && g[b].tree == g[a].tree && !IsNoOp(g, a)
    requires g[c].parents == [b]
    ensures NoOpAncestor(g, depth, g[c].parents[0]) == a
    ensures forall i :: 0 <= i < |g[c].parents| ==>
              Translate(mapping, NoOpAncestor(g, depth, g[c].parents[i])) == Translate(mapping, a)
  {
  }
}
