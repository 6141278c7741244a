/** What the routing tests conclude from record counts: after a split, one row written at the
    split key shows up as a one-tablet difference, and that tablet's bounds contain the split
    key. */
module RoutingCheck {
  import opened Keys
  import opened TabletRecords
  import opened TabletSplit

  /** Snapshot `before` holds the two children of a split at `splitKey`. A row at the split key
      is written to the child whose bounds contain it; comparing the snapshot after the write
      with `before` then reports exactly the upper child, with a count of one, and its bounds
      contain the split key. */
  lemma RowAtSplitKeyIsReportedInUpperChild(before: TabletRecordsInfo, lowerId: TabletId, upperId: TabletId,
                                           parent: KeyBounds, splitKey: Key)
    requires StrictlyInside(parent, splitKey) && lowerId != upperId
    requires lowerId in before && before[lowerId].bounds == KeyBounds(parent.lower, splitKey)
    requires upperId in before && before[upperId].bounds == KeyBounds(splitKey, parent.upper)
    ensures var target := if before[lowerId].bounds.IsWithinBounds(splitKey) then lowerId else upperId;
      var after := before[target := RecordsInfo(before[target].bounds, before[target].numRecords + 1)];
      && BoundsAgree(after, before)
      && DiffOf(after, before) == map[upperId := RecordsInfo(before[upperId].bounds, 1)]
      && DiffOf(after, before)[upperId].bounds.IsWithinBounds(splitKey)
  {
    SplitKeyGoesToUpperChild(parent, splitKey);
    DiffAfterOneInsert(before, upperId);
  }

  /** Across the whole table: after tablet `i` of a partitioned table splits at an interior key,
      the only tablet whose bounds contain the split key is the upper child, at `i + 1`. */
  lemma SplitKeyRoutesOnlyToUpperChild(ps: seq<KeyBounds>, i: nat, splitKey: Key)
    requires Partitioned(ps) && i < |ps| && StrictlyInside(ps[i], splitKey)
    ensures forall j :: 0 <= j < |ps| + 1 ==>
      (ReplaceWithChildren(ps, i, splitKey)[j].IsWithinBounds(splitKey) <==> j == i + 1)
  {
    SplitKeepsPartitioned(ps, i, splitKey);
    PartitionedIsExactCover(ReplaceWithChildren(ps, i, splitKey), splitKey);
  }
}
