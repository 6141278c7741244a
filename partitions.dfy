/** Range partitions built from `SPLIT AT VALUES` points, and the checks that compare a
    table's tablets against them. Keys here are the printed form of a DocKey with an empty
    hashed group, `DocKey([], [c1, c2, ...])`; the key with no range components stands for
    minus infinity as a start and plus infinity as an end. */
module RangePartitions {
  import opened Wrappers

  /** The printed range components of one split point. */
  type Components = seq<string>

  /** A tablet's `[start, end)` partition, as printed keys. */
  datatype PartitionBounds = PartitionBounds(start: string, end: string)

  /** The printed key whose range group reads `rangeGroup`. */
  function DocKeyText(rangeGroup: string): (r: string)
    ensures |r| == |rangeGroup| + 14
  {
    "DocKey([], [" + rangeGroup + "])"
  }

  /** The key with no range components: the unbounded start and end. */
  const EmptyKey: string := DocKeyText("")

  /** The component added to every split point of an index from partitioning version 1 on: the
      lowest value of the unique-index suffix or base-row pointer column. */
  const MinusInf: string := "-Inf"

  // ---------------------------------------------------------------------------------------
  // gen_key

  /** The text the key generator's stream holds after writing `cs`: before each component it
      writes ", " when the stream is not empty, so empty leading components add no separator. */
  function Joined(cs: Components): string
  {
    if |cs| == 0 then ""
    else
      var acc := Joined(cs[..|cs| - 1]);
      (if |acc| > 0 then acc + ", " else acc) + cs[|cs| - 1]
  }

  /** Components separated by ", ", with nothing before the first one. */
  function Interleaved(cs: Components): string
  {
    if |cs| == 0 then ""
    else if |cs| == 1 then cs[0]
    else cs[0] + ", " + Interleaved(cs[1..])
  }

  /** The printed key for one split point. */
  function GenKeyOf(cs: Components): string
  {
    DocKeyText(Joined(cs))
  }

  /** Builds the printed key of one split point component by component. */
  method GenKey(components: Components) returns (key: string)
    ensures key == GenKeyOf(components)
  {
    var ss := "";
    for i := 0 to |components|
      invariant ss == Joined(components[..i])
    {
      if |ss| > 0 {
        ss := ss + ", ";
      }
      ss := ss + components[i];
      assert components[..i + 1][..i] == components[..i];
    }
    assert components[..|components|] == components;
    key := DocKeyText(ss);
  }

  lemma {:induction false} InterleavedAppend(cs: Components, c: string)
    requires |cs| > 0
    ensures Interleaved(cs + [c]) == Interleaved(cs) + ", " + c
  {
    if |cs| > 1 {
      assert (cs + [c])[1..] == cs[1..] + [c];
      InterleavedAppend(cs[1..], c);
    }
  }

  /** When no component is empty, the generator writes the components separated by ", " and
      never puts a separator before the first one. */
  lemma {:induction false} JoinedOfNonEmptyComponents(cs: Components)
    requires forall i :: 0 <= i < |cs| ==> cs[i] != ""
    ensures Joined(cs) == Interleaved(cs)
    ensures |cs| > 0 ==> Joined(cs)[..|cs[0]|] == cs[0]
  {
    if |cs| > 1 {
      var init := cs[..|cs| - 1];
      JoinedOfNonEmptyComponents(init);
      assert init + [cs[|cs| - 1]] == cs;
      InterleavedAppend(init, cs[|cs| - 1]);
    }
  }

  /** An empty first component leaves no trace: no separator follows it. */
  lemma {:induction false} JoinedDropsLeadingEmpty(cs: Components)
    ensures Joined([""] + cs) == Joined(cs)
  {
    if |cs| > 0 {
      var init := cs[..|cs| - 1];
      assert ([""] + cs)[..|cs|] == [""] + init;
      JoinedDropsLeadingEmpty(init);
    }
  }

  /** A split point with a non-empty component never prints as the unbounded key. */
  lemma GenKeyIsBounded(cs: Components, i: nat)
    requires i < |cs| && cs[i] != ""
    ensures GenKeyOf(cs) != EmptyKey
  {
    JoinedLength(cs, i);
  }

  lemma {:induction false} JoinedLength(cs: Components, i: nat)
    requires i < |cs|
    ensures |Joined(cs)| >= |cs[i]|
  {
    if i < |cs| - 1 {
      JoinedLength(cs[..|cs| - 1], i);
    }
  }

  // ---------------------------------------------------------------------------------------
  // PrepareRangePartitions

  /** The N+1 partitions of N split points: from the unbounded start to the first point, between
      consecutive points, and from the last point to the unbounded end. */
  ghost function RangePartitionsOf(rc: seq<Components>): seq<PartitionBounds>
  {
    seq(|rc| + 1, n => PartitionAt(rc, n))
  }

  /** Partition `n` of the split points `rc` (for `0 <= n <= |rc|`). */
  ghost function PartitionAt(rc: seq<Components>, n: int): PartitionBounds
  {
    PartitionBounds(if 0 < n <= |rc| then GenKeyOf(rc[n - 1]) else EmptyKey,
                    if 0 <= n < |rc| then GenKeyOf(rc[n]) else EmptyKey)
  }

  /** N split points give N+1 partitions: the outer bounds are unbounded, and each split point
      ends one partition and starts the next. */
  lemma RangePartitionsAdjoin(rc: seq<Components>)
    ensures |RangePartitionsOf(rc)| == |rc| + 1
    ensures RangePartitionsOf(rc)[0].start == EmptyKey
    ensures RangePartitionsOf(rc)[|rc|].end == EmptyKey
    ensures forall i :: 0 <= i < |rc| ==>
      RangePartitionsOf(rc)[i].end == GenKeyOf(rc[i]) &&
      RangePartitionsOf(rc)[i + 1].start == GenKeyOf(rc[i])
  {
    var ps := RangePartitionsOf(rc);
    forall i | 0 <= i < |rc|
      ensures ps[i].end == GenKeyOf(rc[i]) && ps[i + 1].start == GenKeyOf(rc[i])
    {
      assert ps[i] == PartitionAt(rc, i);
      assert ps[i + 1] == PartitionAt(rc, i + 1);
    }
  }

  /** The builder: it reads the first split point before checking the count, so it needs at
      least one (the alignment check runs first and guarantees it). */
  method PrepareRangePartitions(rc: seq<Components>) returns (partitions: seq<PartitionBounds>)
    requires |rc| > 0
    ensures partitions == RangePartitionsOf(rc)
  {
    var numPartitions := |rc|;
    partitions := [];
    for n := 0 to numPartitions + 1
      invariant partitions == RangePartitionsOf(rc)[..n]
    {
      var next := BuildPartition(rc, n);
      partitions := partitions + [next];
    }
  }

  /** One step of the builder: partition `n` from the split points on either side of it. */
  method BuildPartition(rc: seq<Components>, n: nat) returns (p: PartitionBounds)
    requires 0 < |rc| && n <= |rc|
    ensures p == RangePartitionsOf(rc)[n]
  {
    if n == 0 {
      var upper := GenKey(rc[n]);
      p := PartitionBounds(EmptyKey, upper);
    } else if n == |rc| {
      var lower := GenKey(rc[n - 1]);
      p := PartitionBounds(lower, EmptyKey);
    } else {
      var lower := GenKey(rc[n - 1]);
      var upper := GenKey(rc[n]);
      p := PartitionBounds(lower, upper);
    }
  }

  // ---------------------------------------------------------------------------------------
  // adjust_partitions

  /** The expected split points of an index: from partitioning version 1 on, each carries one
      more component, the lowest value. */
  ghost function Adjusted(partitioningVersion: nat, partitions: seq<Components>): seq<Components>
  {
    seq(|partitions|, i requires 0 <= i < |partitions| =>
      if partitioningVersion != 0 then partitions[i] + [MinusInf] else partitions[i])
  }

  method AdjustPartitions(partitioningVersion: nat, partitions: seq<Components>)
    returns (r: seq<Components>)
    ensures r == Adjusted(partitioningVersion, partitions)
    ensures partitioningVersion == 0 ==> r == partitions
    ensures |r| == |partitions|
    ensures partitioningVersion != 0 ==> forall i :: 0 <= i < |r| ==>
      |r[i]| == |partitions[i]| + 1 && r[i][..|partitions[i]|] == partitions[i] && r[i][|partitions[i]|] == MinusInf
  {
    r := partitions;
    for i := 0 to |r|
      invariant |r| == |partitions|
      invariant forall j :: 0 <= j < i ==> r[j] == Adjusted(partitioningVersion, partitions)[j]
      invariant forall j :: i <= j < |r| ==> r[j] == partitions[j]
    {
      if partitioningVersion != 0 {
        r := r[i := r[i] + [MinusInf]];
      }
    }
  }

  // ---------------------------------------------------------------------------------------
  // ValidatePartitionsStructure

  /** The errors of the structure check; the source reports each as IllegalState. */
  datatype StructureError =
    | RangePartitionsNotSpecified
    | RangeComponentsSizeMismatch(expected: nat, actual: nat, at: nat)
    | RangeComponentsNotSpecified
    | UnexpectedNumberOfTablets(found: nat)
    | RangePartitioningExpected
    | UnexpectedNumberOfRangeComponents(found: nat)
    | UnexpectedNumberOfPartitions(found: nat)
    | PartitionNotFound(start: string)
      /** Reported for a start mismatch and, with the same message, for an end mismatch. */
    | PartitionsStartMismatch

  /** Split points are aligned: there is at least one, all have the same number of components,
      and that number is not zero. */
  ghost predicate Aligned(rc: seq<Components>)
  {
    |rc| > 0 && |rc[0]| > 0 && forall n :: 0 <= n < |rc| ==> |rc[n]| == |rc[0]|
  }

  /** The alignment check: no split points, a split point of another width than the first (the
      first such one is reported), or width zero, in that order. */
  method CheckAlignment(rc: seq<Components>) returns (r: Outcome<StructureError>)
    ensures r.Pass? <==> Aligned(rc)
    ensures |rc| == 0 ==> r == Fail(RangePartitionsNotSpecified)
    ensures r.Fail? && r.error.RangeComponentsSizeMismatch? ==>
      var e := r.error;
      0 < e.at < |rc| && e.expected == |rc[0]| && e.actual == |rc[e.at]| && e.actual != e.expected
      && forall n :: 0 <= n < e.at ==> |rc[n]| == |rc[0]|
    ensures |rc| > 0 && (exists n :: 0 <= n < |rc| && |rc[n]| != |rc[0]|) ==>
      r.Fail? && r.error.RangeComponentsSizeMismatch?
    ensures r == Fail(RangeComponentsNotSpecified) <==>
      |rc| > 0 && |rc[0]| == 0 && forall n :: 0 <= n < |rc| ==> |rc[n]| == 0
  {
    if |rc| == 0 {
      return Fail(RangePartitionsNotSpecified);
    }
    var numRangeComponents := |rc[0]|;
    for n := 1 to |rc|
      invariant forall m :: 0 <= m < n ==> |rc[m]| == numRangeComponents
    {
      if |rc[n]| != numRangeComponents {
        return Fail(RangeComponentsSizeMismatch(numRangeComponents, |rc[n]|, n));
      }
    }
    if numRangeComponents == 0 {
      return Fail(RangeComponentsNotSpecified);
    }
    return Pass;
  }

  /** A partition key as decoded from a tablet's metadata: its printed form, whether it is the
      empty key, and how many range components it has. A real decoding ties the three together
      (the empty key has no range component and prints as `EmptyKey`); the model takes them as
      given, and none of its checks or proofs relies on that tie. */
  datatype DecodedKey = DecodedKey(text: string, isEmpty: bool, rangeWidth: nat)

  /** One tablet's partition, decoded. */
  datatype PeerPartition = PeerPartition(rangePartitioning: bool, start: DecodedKey, end: DecodedKey)

  /** The first check a tablet's partition fails, if any: range partitioning is used, and a
      bounded start and a bounded end have `width` range components. */
  function ShapeError(p: PeerPartition, width: nat): (r: Option<StructureError>)
    ensures r.None? <==>
      p.rangePartitioning && (p.start.isEmpty || p.start.rangeWidth == width)
      && (p.end.isEmpty || p.end.rangeWidth == width)
  {
    if !p.rangePartitioning then Some(RangePartitioningExpected)
    else if !p.start.isEmpty && p.start.rangeWidth != width then
      Some(UnexpectedNumberOfRangeComponents(p.start.rangeWidth))
    else if !p.end.isEmpty && p.end.rangeWidth != width then
      Some(UnexpectedNumberOfRangeComponents(p.end.rangeWidth))
    else None
  }

  /** The table's partitions keyed by printed start; a later tablet with the same start
      replaces an earlier one. */
  ghost function TablePartitionsOf(peers: seq<PeerPartition>): map<string, PartitionBounds>
  {
    if |peers| == 0 then map[]
    else
      var p := peers[|peers| - 1];
      TablePartitionsOf(peers[..|peers| - 1])[p.start.text := PartitionBounds(p.start.text, p.end.text)]
  }

  /** Checks each tablet's partition shape and collects the partitions by start. */
  method CollectTablePartitions(peers: seq<PeerPartition>, width: nat)
    returns (r: Result<map<string, PartitionBounds>, StructureError>)
    ensures r.Success? <==> forall i :: 0 <= i < |peers| ==> ShapeError(peers[i], width).None?
    ensures r.Success? ==> r.value == TablePartitionsOf(peers)
    ensures r.Failure? ==>
      exists i :: 0 <= i < |peers| && ShapeError(peers[i], width) == Some(r.error)
                  && (forall j :: 0 <= j < i ==> ShapeError(peers[j], width).None?)
  {
    var table: map<string, PartitionBounds> := map[];
    for i := 0 to |peers|
      invariant forall j :: 0 <= j < i ==> ShapeError(peers[j], width).None?
      invariant table == TablePartitionsOf(peers[..i])
    {
      var p := peers[i];
      var shape := ShapeError(p, width);
      if shape.Some? {
        return Failure(shape.value);
      }
      table := table[p.start.text := PartitionBounds(p.start.text, p.end.text)];
      assert peers[..i + 1][..i] == peers[..i];
    }
    assert peers[..|peers|] == peers;
    return Success(table);
  }

  /** Every collected partition is filed under its own start, so the start comparison of the
      matching check cannot fail on a table collected this way. */
  lemma {:induction false} TablePartitionsKeyedByStart(peers: seq<PeerPartition>)
    ensures forall s :: s in TablePartitionsOf(peers) ==> TablePartitionsOf(peers)[s].start == s
  {
    if |peers| > 0 {
      TablePartitionsKeyedByStart(peers[..|peers| - 1]);
    }
  }

  /** The table has exactly as many partitions as expected, and each expected partition is
      found under its start with the same start and end. */
  ghost predicate Matches(table: map<string, PartitionBounds>, expected: seq<PartitionBounds>)
  {
    |table| == |expected|
    && forall i :: 0 <= i < |expected| ==> expected[i].start in table && table[expected[i].start] == expected[i]
  }

  method MatchPartitions(table: map<string, PartitionBounds>, expected: seq<PartitionBounds>)
    returns (r: Outcome<StructureError>)
    ensures r.Pass? <==> Matches(table, expected)
    ensures |table| != |expected| ==> r == Fail(UnexpectedNumberOfPartitions(|table|))
    ensures r.Fail? && r.error.PartitionNotFound? ==>
      exists i :: 0 <= i < |expected| && expected[i].start == r.error.start && r.error.start !in table
  {
    if |table| != |expected| {
      return Fail(UnexpectedNumberOfPartitions(|table|));
    }
    for i := 0 to |expected|
      invariant forall j :: 0 <= j < i ==> expected[j].start in table && table[expected[j].start] == expected[j]
    {
      var sp := expected[i];
      if sp.start !in table {
        return Fail(PartitionNotFound(sp.start));
      }
      if table[sp.start].start != sp.start {
        return Fail(PartitionsStartMismatch);
      }
      if table[sp.start].end != sp.end {
        return Fail(PartitionsStartMismatch);
      }
    }
    return Pass;
  }

  /** The whole structure check, given the table's tablets already listed and decoded. */
  method ValidatePartitionsStructure(peers: seq<PeerPartition>, expectedNumTablets: nat,
                                     rangePartitions: seq<Components>)
    returns (r: Outcome<StructureError>)
    ensures r.Pass? <==>
      && Aligned(rangePartitions)
      && |peers| == expectedNumTablets
      && (forall i :: 0 <= i < |peers| ==> ShapeError(peers[i], |rangePartitions[0]|).None?)
      && Matches(TablePartitionsOf(peers), RangePartitionsOf(rangePartitions))
    ensures !Aligned(rangePartitions) ==>
      r.Fail? && (r.error.RangePartitionsNotSpecified? || r.error.RangeComponentsSizeMismatch?
                  || r.error.RangeComponentsNotSpecified?)
    ensures Aligned(rangePartitions) && |peers| != expectedNumTablets ==>
      r == Fail(UnexpectedNumberOfTablets(|peers|))
  {
    r := CheckAlignment(rangePartitions);
    if r.Fail? {
      return;
    }
    var numRangeComponents := |rangePartitions[0]|;
    if |peers| != expectedNumTablets {
      return Fail(UnexpectedNumberOfTablets(|peers|));
    }
    var table := CollectTablePartitions(peers, numRangeComponents);
    if table.Failure? {
      return Fail(table.error);
    }
    var splitPartitions := PrepareRangePartitions(rangePartitions);
    r := MatchPartitions(table.value, splitPartitions);
  }

  /** Printed starts all differ. */
  ghost predicate DistinctStarts(ps: seq<PartitionBounds>)
  {
    forall i, j :: 0 <= i < j < |ps| ==> ps[i].start != ps[j].start
  }

  /** Tablets whose decoded partitions are, in order, exactly the expected partitions with
      distinct starts pass the matching check. */
  lemma {:induction false} ExactPartitionsMatch(peers: seq<PeerPartition>, expected: seq<PartitionBounds>)
    requires |peers| == |expected| && DistinctStarts(expected)
    requires forall i :: 0 <= i < |peers| ==>
      PartitionBounds(peers[i].start.text, peers[i].end.text) == expected[i]
    ensures Matches(TablePartitionsOf(peers), expected)
  {
    if |peers| > 0 {
      var n := |peers| - 1;
      ExactPartitionsMatch(peers[..n], expected[..n]);
      var m := TablePartitionsOf(peers[..n]);
      assert expected[n].start !in m by {
        if expected[n].start in m {
          var i :| 0 <= i < n && expected[..n][i].start == expected[n].start by {
            MatchedKeysAreStarts(m, expected[..n], expected[n].start);
          }
        }
      }
    }
  }

  /** Under `Matches`, the table's keys are exactly the expected starts. */
  lemma MatchedKeysAreStarts(table: map<string, PartitionBounds>, expected: seq<PartitionBounds>, s: string)
    requires Matches(table, expected) && DistinctStarts(expected)
    ensures s in table <==> exists i :: 0 <= i < |expected| && expected[i].start == s
  {
    var starts := set i | 0 <= i < |expected| :: expected[i].start;
    assert starts <= table.Keys;
    DistinctCardinality(expected);
    var rest := table.Keys - starts;
    assert table.Keys == starts + rest && starts !! rest;
    assert |rest| == 0;
  }

  lemma {:induction false} DistinctCardinality(ps: seq<PartitionBounds>)
    requires DistinctStarts(ps)
    ensures |set i | 0 <= i < |ps| :: ps[i].start| == |ps|
  {
    if |ps| > 0 {
      var n := |ps| - 1;
      DistinctCardinality(ps[..n]);
      var init := set i | 0 <= i < n :: ps[..n][i].start;
      assert (set i | 0 <= i < |ps| :: ps[i].start) == init + {ps[n].start};
      assert ps[n].start !in init;
    }
  }
}
