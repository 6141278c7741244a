/** The partitions built from split points, seen two ways: as encoded key bounds and as the
    printed keys the structure check compares. The two agree whenever the printing of each
    encoded split point is the key `gen_key` prints for it. */
module PartitionShape {
  import opened Keys
  import opened RangePartitions
  import opened TabletSplit

  /** If `show` prints the unbounded key as `EmptyKey` and each encoded split point as the key
      generated from its components, then printing the bounds of `SplitAtValues` gives exactly
      the expected partitions `RangePartitionsOf`. */
  lemma PrintedBoundsAreRangePartitions(ks: seq<Key>, rc: seq<Components>, show: Key -> string)
    requires |ks| == |rc|
    requires show([]) == EmptyKey
    requires forall i :: 0 <= i < |ks| ==> show(ks[i]) == GenKeyOf(rc[i])
    ensures |RangePartitionsOf(rc)| == |SplitAtValues(ks)|
    ensures forall n :: 0 <= n < |SplitAtValues(ks)| ==>
      RangePartitionsOf(rc)[n] == PartitionBounds(show(SplitAtValues(ks)[n].lower), show(SplitAtValues(ks)[n].upper))
  {
  }
}
