/** filter/restructurer/RevertCommitSquasher.kt: drops a commit that
    reverts its parent, together with that parent. A one-slot state holds
    the reverting commit; the next commit the engine rewrites gets, in place
    of that commit among its parents, the parents of the reverted one. */
module RevertSquasher {
  import opened Commits
  import opened ChangeVectors
  import opened RevertMarker

  /** The slot's state: the previous commit's vector (set once, by the
      constructor, and never reassigned) and the pending reverting commit. */
  datatype SquasherState = SquasherState(previous: ChangeVector, pending: Option<Commit>)

  /** Only a commit with exactly one parent is ever put in the slot. */
  predicate SlotValid(s: SquasherState)
  {
    s.pending.Some? ==> |s.pending.value.parents| == 1
  }

  /** `flatMap` over the parent list: every occurrence of `target` is
      replaced by `replacement`, every other parent is kept in place. */
  function Splice(parents: seq<Id>, target: Id, replacement: seq<Id>): (r: seq<Id>)
    ensures forall x :: x in r <==> (x in parents && x != target) || (target in parents && x in replacement)
  {
    if parents == [] then []
    else (if parents[0] == target then replacement else [parents[0]]) + Splice(parents[1..], target, replacement)
  }

  /** `rewriteParents` on the squasher's state: the new state and the new
      parent list. A pending commit is consumed by the very next commit
      rewritten; the vector is never changed. */
  function SquashStep(s: SquasherState, parents: seq<Id>, ctx: Option<Visit>, g: Graph, mapping: map<Id, Id>)
    : (r: (SquasherState, seq<Id>))
    requires SlotValid(s) && VisitWellFormed(ctx)
    requires ctx.Some? && s.pending.Some? ==> s.pending.value.parents[0] in g
    ensures SlotValid(r.0) && r.0.previous == s.previous
    ensures ctx.Some? && s.pending.Some? ==> r.0.pending.None?
    ensures r.0.pending.Some? ==> r.0.pending == s.pending || (ctx.Some? && r.0.pending == Some(ctx.value.commit))
    ensures (ctx.Some? && s.pending.None? ==>
               (r.0.pending.Some? <==>
                  |ctx.value.commit.parents| == 1
                  && (RevertedId(ctx.value.commit.fullMessage) == Some(ctx.value.commit.parents[0])
                      || MarkerReverts(MarkerVector(ctx.value.diffs), s.previous))))
    ensures (ctx.Some? && s.pending.Some? ==>
               r.1 == Splice(parents, s.pending.value.id, g[s.pending.value.parents[0]].parents))
    ensures !(ctx.Some? && s.pending.Some?) ==> r.1 == EngineParents(parents, mapping)
  {
    match ctx
    case None => (s, EngineParents(parents, mapping))
    case Some(v) =>
      if s.pending.Some? then
        var reverting := s.pending.value;
        (s.(pending := None), Splice(parents, reverting.id, g[reverting.parents[0]].parents))
      else if |v.commit.parents| != 1 then (s, EngineParents(parents, mapping))
      else if RevertedId(v.commit.fullMessage) == Some(v.commit.parents[0]) then
        (s.(pending := Some(v.commit)), EngineParents(parents, mapping))
      else if MarkerReverts(MarkerVector(v.diffs), s.previous) then
        (s.(pending := Some(v.commit)), EngineParents(parents, mapping))
      else (s, EngineParents(parents, mapping))
  }

  class RevertCommitSquasher {
    var previousCommitChangeVector: ChangeVector
    var parentCommitIdIfItRevertsParent: Option<Commit>

    constructor ()
      ensures Valid() && State() == SquasherState(EmptyVector, None)
    {
      previousCommitChangeVector := EmptyVector;
      parentCommitIdIfItRevertsParent := None;
    }

    /** The slot only holds commits with one parent. */
    predicate Valid()
      reads this
    {
      SlotValid(State())
    }

    function State(): SquasherState
      reads this
    {
      SquasherState(previousCommitChangeVector, parentCommitIdIfItRevertsParent)
    }

    method RewriteParents(parents: seq<Id>, ctx: Option<Visit>, g: Graph, mapping: map<Id, Id>) returns (r: seq<Id>)
      requires Valid() && VisitWellFormed(ctx)
      requires ctx.Some? && parentCommitIdIfItRevertsParent.Some? ==> parentCommitIdIfItRevertsParent.value.parents[0] in g
      modifies this
      ensures Valid()
      ensures (State(), r) == SquashStep(old(State()), parents, ctx, g, mapping)
    {
      if ctx.None? {
        return EngineParents(parents, mapping);
      }
      var commit := ctx.value.commit;
      if parentCommitIdIfItRevertsParent.Some? {
        var reverting := parentCommitIdIfItRevertsParent.value;
        var newParents: seq<Id> := [];
        var k := 0;
        while k < |parents|
          invariant 0 <= k <= |parents|
          invariant unchanged(this)
          invariant newParents + Splice(parents[k..], reverting.id, g[reverting.parents[0]].parents)
                 == Splice(parents, reverting.id, g[reverting.parents[0]].parents)
        {
          assert parents[k..][1..] == parents[k + 1..];
          if parents[k] == reverting.id {
            newParents := newParents + g[reverting.parents[0]].parents;
          } else {
            newParents := newParents + [parents[k]];
          }
          k := k + 1;
        }
        assert parents[k..] == [];
        parentCommitIdIfItRevertsParent := None;
        assert newParents == Splice(parents, reverting.id, g[reverting.parents[0]].parents);
        assert ctx == Some(ctx.value);
        assert SquashStep(old(State()), parents, ctx, g, mapping).1 == newParents;
        return newParents;
      }
      if |commit.parents| != 1 {
        return EngineParents(parents, mapping);
      }
      var parentCommit := commit.parents[0];
      var captured := RevertedId(commit.fullMessage);
      if captured.Some? && captured.value == parentCommit {
        parentCommitIdIfItRevertsParent := Some(commit);
        return EngineParents(parents, mapping);
      }
      var current := ComputeMarkerVector(ctx.value.diffs);
      if MarkerReverts(current, previousCommitChangeVector) {
        parentCommitIdIfItRevertsParent := Some(commit);
      }
      return EngineParents(parents, mapping);
    }
  }

  // ---------------------------------------------------------------------
  // Properties

  lemma {:induction false} SpliceOfConcat(a: seq<Id>, b: seq<Id>, target: Id, replacement: seq<Id>)
    ensures Splice(a + b, target, replacement) == Splice(a, target, replacement) + Splice(b, target, replacement)
  {
    if a != [] {
      SpliceOfConcat(a[1..], b, target, replacement);
      assert (a + b)[1..] == a[1..] + b;
    } else {
      assert a + b == b;
    }
  }

  /** A parent list without the pending commit passes through unchanged
      (and untranslated: the engine's mapping is not consulted). */
  lemma {:induction false} SpliceWithoutTarget(parents: seq<Id>, target: Id, replacement: seq<Id>)
    requires target !in parents
    ensures Splice(parents, target, replacement) == parents
  {
    if parents != [] {
      SpliceWithoutTarget(parents[1..], target, replacement);
      assert parents == [parents[0]] + parents[1..];
    }
  }

  /** The pending commit at position i, and nowhere else, is replaced in
      place by the replacement list. */
  lemma SpliceAt(parents: seq<Id>, i: nat, replacement: seq<Id>)
    requires i < |parents|
    requires forall j :: 0 <= j < |parents| && j != i ==> parents[j] != parents[i]
    ensures Splice(parents, parents[i], replacement) == parents[..i] + replacement + parents[i + 1..]
  {
    var t := parents[i];
    assert parents == parents[..i] + ([t] + parents[i + 1..]);
    SpliceOfConcat(parents[..i], [t] + parents[i + 1..], t, replacement);
    SpliceOfConcat([t], parents[i + 1..], t, replacement);
    SpliceWithoutTarget(parents[..i], t, replacement);
    SpliceWithoutTarget(parents[i + 1..], t, replacement);
    assert Splice([t], t, replacement) == replacement + Splice([], t, replacement);
  }

  /** The vector is never updated, so from a valid state the content test
      compares against the empty vector and never succeeds: only a commit
      whose message names its parent through the revert template is ever
      put in the slot. */
  lemma OnlyTemplateArmsSlot(s: SquasherState, parents: seq<Id>, ctx: Option<Visit>, g: Graph, mapping: map<Id, Id>)
    requires SlotValid(s) && VisitWellFormed(ctx) && s.previous == EmptyVector && s.pending.None?
    ensures SquashStep(s, parents, ctx, g, mapping).0.pending.Some? <==>
              ctx.Some? && |ctx.value.commit.parents| == 1
              && RevertedId(ctx.value.commit.fullMessage) == Some(ctx.value.commit.parents[0])
  {
    if ctx.Some? {
      var v := ctx.value;
      MarkerRevertsIsReverts(MarkerVector(v.diffs), EmptyVector);
      RevertsEmptyAndReversed(MarkerVector(v.diffs));
    }
  }

  /** X, then Y whose message reverts X, then Z on top of Y: after a fresh
      squasher rewrites Y and then Z, Z's parents are X's own parents, so
      neither X nor Y remains on Z's side of the history. */
  lemma RevertPairIsSquashed(g: Graph, depth: map<Id, nat>, x: Id, y: Id, z: Id,
                             dy: seq<DiffEntry>, dz: seq<DiffEntry>, mapping: map<Id, Id>)
    requires WellFormed(g, depth) && x in g && y in g && z in g
    requires DiffsWellFormed(dy) && DiffsWellFormed(dz)
    requires g[y].parents == [x] && g[z].parents == [y]
    requires RevertedId(g[y].fullMessage) == Some(x)
    ensures var (s1, py) := SquashStep(SquasherState(EmptyVector, None), g[y].parents, Some(Visit(g[y], dy)), g, mapping);
            && s1.pending == Some(g[y])
            && py == EngineParents([x], mapping)
            && var (s2, pz) := SquashStep(s1, g[z].parents, Some(Visit(g[z], dz)), g, mapping);
               && s2.pending.None?
               && pz == g[x].parents
               && x !in pz && y !in pz
  {
    var s1 := SquashStep(SquasherState(EmptyVector, None), g[y].parents, Some(Visit(g[y], dy)), g, mapping).0;
    assert s1.pending == Some(g[y]);
    assert g[y].id == y;
    SpliceAt([y], 0, g[x].parents);
    assert [y][..0] + g[x].parents + [y][1..] == g[x].parents;
    assert depth[x] < depth[y];
    forall i | 0 <= i < |g[x].parents| ensures g[x].parents[i] != x && g[x].parents[i] != y {
      assert depth[g[x].parents[i]] < depth[x];
    }
  }
}
