/** What each operation promises about the trie before and after it. */
module Steps {
  import opened Wrappers
  import opened Paths
  import opened Nodes
  import opened Insertion
  import opened Removal
  import opened Hashing

  /** The contents and every partial path are unchanged; only seals may have been lost. */
  ghost predicate InsertStep(before: Root, key: Path, v: Value, r: Result<Option<Value>>, after: Root) {
    match r
    case Ok(displaced) => after == Some(InsertedRoot(before, key, v)) && displaced == FindAt(before, key)
    case Err => OnlyUnsealedRoot(before, after)
  }

  ghost predicate RemoveStep(before: Root, key: Path, r: Result<Option<Value>>, after: Root) {
    if r.Ok? && r.value.Some? then
      r.value == FindAt(before, key) && after == RootOf(Removed(before.value, key))
    else
      (r.Ok? ==> FindAt(before, key).None?) && OnlyUnsealedRoot(before, after)
  }

  ghost predicate PrefixStep(before: Root, prefix: Path, r: Result<()>, after: Root) {
    if r.Ok? && before.Some? && Reaches(before.value, prefix) then
      after == RootOf(Cut(before.value, prefix))
    else
      OnlyUnsealedRoot(before, after)
  }

  // ----- how many edges an operation materializes, if none of those calls fails

  ghost function RemoveCalls(before: Root, key: Path): nat {
    DescentsAt(before, key) + if FindAt(before, key).Some? then RemovedCalls(before.value, key) else 0
  }

  /** The way down, all that is taken out, and a merge. */
  ghost function PrefixCalls(before: Root, prefix: Path): nat {
    DescentsAt(before, prefix) +
    if before.Some? && Reaches(before.value, prefix) then
      Size(Reached(before.value, prefix)) - 1 + CutCalls(before.value, prefix)
    else 0
  }

  ghost function InlineCalls(before: Root): nat {
    if before.Some? then Size(before.value) - 1 else 0
  }

  /** Success leaves every edge inline; either way only seals may have been lost. */
  ghost predicate InlineStep(before: Root, r: Result<()>, after: Root) {
    OnlyUnsealedRoot(before, after) && (r.Ok? && after.Some? ==> AllInline(after.value))
  }

  /**
   * A walk that succeeds returns the from-scratch hash and leaves the fully sealed trie; one that
   * fails leaves a sound trie with the same sealed copy.
   */
  ghost predicate HashStep(h: Hasher, before: Root, r: Result<Digest>, after: Root, byHand: bool) {
    before.Some? && after.Some? &&
    match r
    case Ok(d) => d == ScratchHash(h, before.value, [], 0) && after == Some(SealAll(h, before.value, []))
    case Err => Sound(h, after.value, [], byHand) && SealAll(h, after.value, []) == SealAll(h, before.value, [])
  }
}
