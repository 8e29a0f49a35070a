/** The two change-set constructors: one for edits, one for deletions. */
module ChangeGenerators {
  import opened Types

  /** No creations, and not both edits and deletions. */
  predicate SingleKind(change: EmtDataChange) {
    change.created == [] && (change.updated == [] || change.deleted == [])
  }

  /** `prepareChangedData`: the edits, unchanged and in order, as `updated`. */
  function PrepareChangedData(changes: seq<CellDataChange>): (r: EmtDataChange)
    ensures r.updated == changes && r.created == [] && r.deleted == []
    ensures SingleKind(r)
  {
    EmtDataChange([], changes, [])
  }

  /** `prepareDeletedData`: the locations, unchanged and in order, as `deleted`. */
  function PrepareDeletedData(deletions: seq<CellLocation>): (r: EmtDataChange)
    ensures r.deleted == deletions && r.created == [] && r.updated == []
    ensures SingleKind(r)
  {
    EmtDataChange([], [], deletions)
  }

  /** A change-set of one kind comes from exactly one constructor, so the two
      constructors between them produce every such change-set and no other. */
  lemma SingleKindIsConstructed(change: EmtDataChange)
    ensures SingleKind(change) <==>
      change == PrepareChangedData(change.updated) || change == PrepareDeletedData(change.deleted)
  {
  }
}
