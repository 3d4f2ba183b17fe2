/** Commits of the source history, the commit graph the hooks walk,
    and the engine's default parent translation through the commit mapping. */
module Commits {

  datatype Option<+T> = None | Some(value: T)

  /** A commit id: the 40-character lower-case hex name of the object. */
  type Id = string

  /** An author identity; `when` is the author time in seconds since the epoch
      (the time zone does not change the distance between two instants). */
  datatype Author = Author(name: string, when: int)

  /** A commit as read from the source repository: never mutated. */
  datatype Commit = Commit(id: Id, parents: seq<Id>, tree: Id, fullMessage: string, author: Option<Author>)

  /** The source repository's commits by id. */
  type Graph = map<Id, Commit>

  /** Every commit is stored under its own id, every parent is present, and
      `depth` ranks the graph: a parent is strictly shallower than its child.
      This is what makes the history a DAG and the walks towards roots finite. */
  ghost predicate WellFormed(g: Graph, depth: map<Id, nat>)
  {
    && depth.Keys == g.Keys
    && (forall id :: id in g ==> g[id].id == id)
    && (forall id, i :: id in g && 0 <= i < |g[id].parents| ==>
          g[id].parents[i] in g && depth[g[id].parents[i]] < depth[id])
  }

  /** The id a rewritten history uses for `id`: its entry in the commit
      mapping, or the original id when the mapping has none. */
  function Translate(mapping: map<Id, Id>, id: Id): (r: Id)
    ensures id in mapping ==> r == mapping[id]
    ensures id !in mapping ==> r == id
  {
    if id in mapping then mapping[id] else id
  }

  /** The engine's default `rewriteParents`: every parent translated through
      the commit mapping, falling back to the unmapped id. */
  function EngineParents(parents: seq<Id>, mapping: map<Id, Id>): (r: seq<Id>)
    ensures |r| == |parents|
    ensures forall i :: 0 <= i < |r| ==> r[i] == Translate(mapping, parents[i])
  {
    seq(|parents|, i requires 0 <= i < |parents| => Translate(mapping, parents[i]))
  }
}
