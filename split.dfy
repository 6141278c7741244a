/** The tablet split the tests drive and check: which splits are refused and why, the
    children a split produces, where their rows come from, and how a table's tablets keep
    covering the whole key space. The choice of the middle key is not modelled: the
    candidate key is an input. */
module TabletSplit {
  import opened Keys
  import opened Wrappers

  datatype PartitionScheme = HashPartitioning | RangePartitioning

  /** What is being split: a table or a secondary index, and how it is partitioned. */
  datatype TableKind = RegularTable(scheme: PartitionScheme) | IndexTable(scheme: PartitionScheme)

  datatype SplitError =
      /** Splitting this kind of table at this partitioning version is not supported. */
    | NotSupported
      /** TABLET_SPLIT_KEY_RANGE_TOO_SMALL: the candidate key is not strictly inside the
          tablet's bounds; the error names those partition bounds. */
    | KeyRangeTooSmall(splitKey: Key, bounds: KeyBounds)

  /** A tablet: its bounds and the keys of the rows its bounded view holds, in key order. */
  datatype Tablet = Tablet(bounds: KeyBounds, rows: seq<Key>)

  ghost predicate WellFormed(t: Tablet)
  {
    Sorted(t.rows) && forall i :: 0 <= i < |t.rows| ==> t.bounds.IsWithinBounds(t.rows[i])
  }

  /** `key` lies strictly between the bounds: past the lower one (the empty lower bound included)
      and before the upper one, if any. */
  predicate StrictlyInside(bounds: KeyBounds, key: Key)
  {
    Less(bounds.lower, key) && (|bounds.upper| == 0 || Less(key, bounds.upper))
  }

  /** Only range-partitioned indexes created at partitioning version 0 cannot be split (a test
      flag can skip that check); otherwise the key must lie strictly inside the bounds. */
  function ValidateSplit(kind: TableKind, partitioningVersion: nat, skipVersionValidation: bool,
                         bounds: KeyBounds, splitKey: Key): (r: Outcome<SplitError>)
    ensures r == Fail(NotSupported) <==>
      kind == IndexTable(RangePartitioning) && partitioningVersion == 0 && !skipVersionValidation
    ensures r.Pass? ==> StrictlyInside(bounds, splitKey)
    ensures r.Fail? && r.error.KeyRangeTooSmall? ==> r.error.bounds == bounds && r.error.splitKey == splitKey
  {
    if kind == IndexTable(RangePartitioning) && partitioningVersion == 0 && !skipVersionValidation then
      Fail(NotSupported)
    else if !StrictlyInside(bounds, splitKey) then
      Fail(KeyRangeTooSmall(splitKey, bounds))
    else
      Pass
  }

  /** A candidate split key equal to either partition bound of the tablet is refused: with
      TABLET_SPLIT_KEY_RANGE_TOO_SMALL naming the bounds, unless the table kind itself cannot be
      split. */
  lemma SplitKeyAtBoundIsRejected(kind: TableKind, partitioningVersion: nat, skip: bool,
                                  bounds: KeyBounds, splitKey: Key)
    requires splitKey == bounds.lower || splitKey == bounds.upper
    ensures ValidateSplit(kind, partitioningVersion, skip, bounds, splitKey) ==
      if kind == IndexTable(RangePartitioning) && partitioningVersion == 0 && !skip then Fail(NotSupported)
      else Fail(KeyRangeTooSmall(splitKey, bounds))
  {
    LessIrreflexive(splitKey);
  }

  /** Hash-partitioned indexes and regular tables can be split at every partitioning version, and
      a range-partitioned index from version 1 on; each then succeeds on any interior key. */
  lemma SplitSupportedExceptLegacyRangeIndex(kind: TableKind, partitioningVersion: nat,
                                             bounds: KeyBounds, splitKey: Key)
    requires kind != IndexTable(RangePartitioning) || partitioningVersion > 0
    requires StrictlyInside(bounds, splitKey)
    ensures ValidateSplit(kind, partitioningVersion, false, bounds, splitKey) == Pass
  {
  }

  /** The two children of a split at `splitKey`: `[lower, splitKey)` and `[splitKey, upper)`. Each
      child's view of the shared data is the parent's rows within its own bounds. */
  function SplitTablet(kind: TableKind, partitioningVersion: nat, skipVersionValidation: bool,
                       t: Tablet, splitKey: Key): (r: Result<(Tablet, Tablet), SplitError>)
    ensures r.Failure? <==> ValidateSplit(kind, partitioningVersion, skipVersionValidation, t.bounds, splitKey).Fail?
    ensures r.Success? ==>
      && r.value.0.bounds == KeyBounds(t.bounds.lower, splitKey)
      && r.value.1.bounds == KeyBounds(splitKey, t.bounds.upper)
  {
    match ValidateSplit(kind, partitioningVersion, skipVersionValidation, t.bounds, splitKey)
    case Fail(e) => Failure(e)
    case Pass =>
      var lower := KeyBounds(t.bounds.lower, splitKey);
      var upper := KeyBounds(splitKey, t.bounds.upper);
      Success((Tablet(lower, WithinBounds(t.rows, lower)), Tablet(upper, WithinBounds(t.rows, upper))))
  }

  /** Every key of the parent's range is in exactly one child's range, and no other key is in
      either: the children cover the parent with no gap and no overlap. */
  lemma {:induction false} ChildrenCoverParent(bounds: KeyBounds, splitKey: Key, k: Key)
    requires StrictlyInside(bounds, splitKey)
    ensures bounds.IsWithinBounds(k) <==>
      KeyBounds(bounds.lower, splitKey).IsWithinBounds(k) || KeyBounds(splitKey, bounds.upper).IsWithinBounds(k)
    ensures !(KeyBounds(bounds.lower, splitKey).IsWithinBounds(k) && KeyBounds(splitKey, bounds.upper).IsWithinBounds(k))
  {
    if Less(k, splitKey) {
      LessAsymmetric(k, splitKey);
      if |bounds.upper| > 0 {
        LessTransitive(k, splitKey, bounds.upper);
      }
    } else {
      if |bounds.lower| > 0 {
        LessLessEqTransitive(bounds.lower, splitKey, k);
        LessAsymmetric(bounds.lower, k);
      }
    }
  }

  /** A row whose key is the split key is in the upper child, not the lower one. */
  lemma SplitKeyGoesToUpperChild(bounds: KeyBounds, splitKey: Key)
    requires StrictlyInside(bounds, splitKey)
    ensures KeyBounds(splitKey, bounds.upper).IsWithinBounds(splitKey)
    ensures !KeyBounds(bounds.lower, splitKey).IsWithinBounds(splitKey)
  {
    LessIrreflexive(splitKey);
  }

  /** Filtering by the two children's bounds splits the rows of the parent's range in two. */
  lemma {:induction false} ChildCountsAddUp(s: seq<Key>, bounds: KeyBounds, splitKey: Key)
    requires StrictlyInside(bounds, splitKey)
    ensures |WithinBounds(s, KeyBounds(bounds.lower, splitKey))| + |WithinBounds(s, KeyBounds(splitKey, bounds.upper))|
         == |WithinBounds(s, bounds)|
  {
    if |s| > 0 {
      ChildCountsAddUp(s[1..], bounds, splitKey);
      ChildrenCoverParent(bounds, splitKey, s[0]);
    }
  }

  lemma {:induction false} NoneWithinBounds(s: seq<Key>, b: KeyBounds)
    requires forall i :: 0 <= i < |s| ==> !b.IsWithinBounds(s[i])
    ensures WithinBounds(s, b) == []
  {
    if |s| > 0 {
      NoneWithinBounds(s[1..], b);
    }
  }

  lemma {:induction false} AllWithinBounds(s: seq<Key>, b: KeyBounds)
    requires forall i :: 0 <= i < |s| ==> b.IsWithinBounds(s[i])
    ensures WithinBounds(s, b) == s
  {
    if |s| > 0 {
      AllWithinBounds(s[1..], b);
    }
  }

  /** In a sorted sequence, once a key is at or past the split key, so are all later ones. */
  lemma AtOrPastFromHere(s: seq<Key>, splitKey: Key)
    requires Sorted(s) && |s| > 0 && !Less(s[0], splitKey)
    ensures forall i :: 0 <= i < |s| ==> !Less(s[i], splitKey)
  {
    forall i | 0 < i < |s|
      ensures !Less(s[i], splitKey)
    {
      LessAsymmetric(s[0], s[i]);
      LessEqTransitive(splitKey, s[0], s[i]);
    }
  }

  /** Filtering a sorted sequence by the lower child's bounds keeps exactly the keys before the
      split key. */
  lemma {:induction false} LowerChildIsPrefix(s: seq<Key>, bounds: KeyBounds, splitKey: Key)
    requires StrictlyInside(bounds, splitKey)
    requires Sorted(s) && forall i :: 0 <= i < |s| ==> bounds.IsWithinBounds(s[i])
    ensures WithinBounds(s, KeyBounds(bounds.lower, splitKey)) == s[..FirstAtOrPast(s, splitKey)]
  {
    if |s| > 0 {
      if Less(s[0], splitKey) {
        TailKeepsShape(s, bounds);
        LowerChildIsPrefix(s[1..], bounds, splitKey);
        LowerChildStep(s, bounds, splitKey);
      } else {
        AtOrPastFromHere(s, splitKey);
        NonEmptySplitKey(bounds, splitKey);
        NoneWithinBounds(s, KeyBounds(bounds.lower, splitKey));
      }
    }
  }

  lemma TailKeepsShape(s: seq<Key>, bounds: KeyBounds)
    requires |s| > 0
    requires Sorted(s) && forall i :: 0 <= i < |s| ==> bounds.IsWithinBounds(s[i])
    ensures Sorted(s[1..]) && forall i :: 0 <= i < |s[1..]| ==> bounds.IsWithinBounds(s[1..][i])
  {
    forall i | 0 <= i < |s[1..]|
      ensures bounds.IsWithinBounds(s[1..][i])
    {
      assert s[1..][i] == s[i + 1];
    }
  }

  /** One row before the split key joins the lower child in front of the rest. */
  lemma LowerChildStep(s: seq<Key>, bounds: KeyBounds, splitKey: Key)
    requires StrictlyInside(bounds, splitKey)
    requires |s| > 0 && bounds.IsWithinBounds(s[0]) && Less(s[0], splitKey)
    requires WithinBounds(s[1..], KeyBounds(bounds.lower, splitKey)) == s[1..][..FirstAtOrPast(s[1..], splitKey)]
    ensures WithinBounds(s, KeyBounds(bounds.lower, splitKey)) == s[..FirstAtOrPast(s, splitKey)]
  {
    var lo := KeyBounds(bounds.lower, splitKey);
    var tail := s[1..];
    ChildrenCoverParent(bounds, splitKey, s[0]);
    assert lo.IsWithinBounds(s[0]);
    assert WithinBounds(s, lo) == [s[0]] + WithinBounds(tail, lo);
    assert FirstAtOrPast(s, splitKey) == 1 + FirstAtOrPast(tail, splitKey);
    HeadThenPrefix(s, FirstAtOrPast(tail, splitKey));
  }

  lemma HeadThenPrefix(s: seq<Key>, n: nat)
    requires n < |s|
    ensures s[..n + 1] == [s[0]] + s[1..][..n]
  {
  }

  lemma NonEmptySplitKey(bounds: KeyBounds, splitKey: Key)
    requires StrictlyInside(bounds, splitKey)
    ensures |splitKey| > 0
  {
  }

  /** Filtering a sorted sequence of keys within `bounds` by the upper child's bounds keeps exactly
      the keys from the split key on. */
  lemma {:induction false} UpperChildIsSuffix(s: seq<Key>, bounds: KeyBounds, splitKey: Key)
    requires StrictlyInside(bounds, splitKey)
    requires Sorted(s) && forall i :: 0 <= i < |s| ==> bounds.IsWithinBounds(s[i])
    ensures WithinBounds(s, KeyBounds(splitKey, bounds.upper)) == s[FirstAtOrPast(s, splitKey)..]
  {
    var hi := KeyBounds(splitKey, bounds.upper);
    if |s| > 0 {
      if Less(s[0], splitKey) {
        UpperChildIsSuffix(s[1..], bounds, splitKey);
        ChildrenCoverParent(bounds, splitKey, s[0]);
      } else {
        AtOrPastFromHere(s, splitKey);
        AllWithinBounds(s, hi);
      }
    }
  }

  /** The lower child's rows followed by the upper child's are the parent's rows. */
  lemma ChildRowsConcatenate(t: Tablet, splitKey: Key)
    requires WellFormed(t) && StrictlyInside(t.bounds, splitKey)
    ensures WithinBounds(t.rows, KeyBounds(t.bounds.lower, splitKey))
          + WithinBounds(t.rows, KeyBounds(splitKey, t.bounds.upper)) == t.rows
  {
    LowerChildIsPrefix(t.rows, t.bounds, splitKey);
    UpperChildIsSuffix(t.rows, t.bounds, splitKey);
    PrefixThenSuffix(t.rows, FirstAtOrPast(t.rows, splitKey));
  }

  lemma PrefixThenSuffix(s: seq<Key>, n: nat)
    requires n <= |s|
    ensures s[..n] + s[n..] == s
  {
  }

  /** A child's view of sorted rows is sorted and within the child's bounds. */
  lemma ChildWellFormed(rows: seq<Key>, b: KeyBounds)
    requires Sorted(rows)
    ensures WellFormed(Tablet(b, WithinBounds(rows, b)))
  {
    WithinBoundsSorted(rows, b);
    var r := WithinBounds(rows, b);
    forall i | 0 <= i < |r|
      ensures b.IsWithinBounds(r[i])
    {
      assert r[i] in r;
    }
  }

  /** A successful split loses and duplicates no row: the lower child's rows followed by the upper
      child's are the parent's rows, so the row count is unchanged; both children are well formed,
      and a row at the split key is in the upper child. */
  lemma SplitPreservesRows(kind: TableKind, partitioningVersion: nat, skip: bool, t: Tablet, splitKey: Key)
    requires WellFormed(t)
    requires SplitTablet(kind, partitioningVersion, skip, t, splitKey).Success?
    ensures var (lo, hi) := SplitTablet(kind, partitioningVersion, skip, t, splitKey).value;
      && lo.rows + hi.rows == t.rows
      && |lo.rows| + |hi.rows| == |t.rows|
      && WellFormed(lo) && WellFormed(hi)
      && (splitKey in t.rows ==> splitKey in hi.rows && splitKey !in lo.rows)
  {
    var (lo, hi) := SplitTablet(kind, partitioningVersion, skip, t, splitKey).value;
    ChildRowsConcatenate(t, splitKey);
    ChildWellFormed(t.rows, lo.bounds);
    ChildWellFormed(t.rows, hi.bounds);
    SplitKeyGoesToUpperChild(t.bounds, splitKey);
  }

  // ---------------------------------------------------------------------------------------
  // The tablets of one table

  /** Consecutive bounds that adjoin, each range non-empty, ending at the unbounded upper key. */
  ghost predicate Chain(ps: seq<KeyBounds>)
  {
    && |ps| > 0
    && |ps[|ps| - 1].upper| == 0
    && (forall i :: 0 <= i < |ps| - 1 ==> |ps[i].upper| > 0 && ps[i].upper == ps[i + 1].lower)
    && (forall i :: 0 <= i < |ps| - 1 ==> Less(ps[i].lower, ps[i].upper))
  }

  /** A table's tablets, in key order, starting at the unbounded lower key. */
  ghost predicate Partitioned(ps: seq<KeyBounds>)
  {
    Chain(ps) && |ps[0].lower| == 0
  }

  lemma {:induction false} ChainCovers(ps: seq<KeyBounds>, k: Key)
    requires Chain(ps) && !Less(k, ps[0].lower)
    ensures exists i :: 0 <= i < |ps| && ps[i].IsWithinBounds(k)
  {
    if !ps[0].IsWithinBounds(k) {
      assert |ps| > 1;
      ChainCovers(ps[1..], k);
      var i :| 0 <= i < |ps| - 1 && ps[1..][i].IsWithinBounds(k);
      assert ps[i + 1].IsWithinBounds(k);
    }
  }

  /** Bounds further along a chain start at or past where earlier ones end. */
  lemma {:induction false} ChainOrdered(ps: seq<KeyBounds>, i: nat, j: nat)
    requires Chain(ps) && i < j < |ps|
    ensures !Less(ps[j].lower, ps[i].upper)
  {
    if j == i + 1 {
      LessIrreflexive(ps[j].lower);
    } else {
      ChainOrdered(ps, i, j - 1);
      LessAsymmetric(ps[j - 1].lower, ps[j - 1].upper);
      LessEqTransitive(ps[i].upper, ps[j - 1].lower, ps[j].lower);
    }
  }

  /** Every key belongs to exactly one tablet of a partitioned table. */
  lemma PartitionedIsExactCover(ps: seq<KeyBounds>, k: Key)
    requires Partitioned(ps)
    ensures exists i :: 0 <= i < |ps| && ps[i].IsWithinBounds(k)
    ensures forall i, j :: 0 <= i < |ps| && 0 <= j < |ps| && ps[i].IsWithinBounds(k) && ps[j].IsWithinBounds(k) ==> i == j
  {
    ChainCovers(ps, k);
    forall i, j | 0 <= i < j < |ps| && ps[i].IsWithinBounds(k)
      ensures !ps[j].IsWithinBounds(k)
    {
      ChainOrdered(ps, i, j);
      if ps[j].IsWithinBounds(k) {
        LessEqLessTransitive(ps[j].lower, k, ps[i].upper);
      }
    }
  }

  /** The table's tablets after tablet `i` splits at `splitKey`. */
  function ReplaceWithChildren(ps: seq<KeyBounds>, i: nat, splitKey: Key): (r: seq<KeyBounds>)
    requires i < |ps|
    ensures |r| == |ps| + 1
    ensures r[..i] == ps[..i] && r[i + 2..] == ps[i + 1..]
    ensures r[i] == KeyBounds(ps[i].lower, splitKey) && r[i + 1] == KeyBounds(splitKey, ps[i].upper)
  {
    ps[..i] + [KeyBounds(ps[i].lower, splitKey), KeyBounds(splitKey, ps[i].upper)] + ps[i + 1..]
  }

  /** A split at a key strictly inside a tablet keeps the table partitioned; the split key then
      belongs to the upper child, and the other tablets keep their bounds. */
  lemma SplitKeepsPartitioned(ps: seq<KeyBounds>, i: nat, splitKey: Key)
    requires Partitioned(ps) && i < |ps| && StrictlyInside(ps[i], splitKey)
    ensures Partitioned(ReplaceWithChildren(ps, i, splitKey))
    ensures ReplaceWithChildren(ps, i, splitKey)[i + 1].IsWithinBounds(splitKey)
    ensures forall j :: 0 <= j < |ps| && j != i ==>
      ReplaceWithChildren(ps, i, splitKey)[if j < i then j else j + 1] == ps[j]
  {
    var r := ReplaceWithChildren(ps, i, splitKey);
    assert |splitKey| > 0 by {
      assert Less(ps[i].lower, splitKey);
    }
    forall j | 0 <= j < |r| - 1
      ensures |r[j].upper| > 0 && r[j].upper == r[j + 1].lower && Less(r[j].lower, r[j].upper)
    {
      if j < i {
        assert r[j] == ps[j];
        assert r[j + 1] == if j + 1 < i then ps[j + 1] else KeyBounds(ps[i].lower, splitKey);
      } else if j == i {
      } else if j == i + 1 {
        assert r[j + 1] == ps[i + 1];
      } else {
        assert r[j] == ps[j - 1] && r[j + 1] == ps[j];
      }
    }
    SplitKeyGoesToUpperChild(ps[i], splitKey);
  }

  // ---------------------------------------------------------------------------------------
  // A table created with SPLIT AT VALUES

  /** The tablets of a table created with the given encoded split points: from the unbounded
      lower key to the first point, between consecutive points, and from the last point to the
      unbounded upper key. */
  function SplitAtValues(ks: seq<Key>): (r: seq<KeyBounds>)
    ensures |r| == |ks| + 1
    ensures r[0].lower == [] && r[|ks|].upper == []
  {
    seq(|ks| + 1, n => KeyBounds(if 0 < n <= |ks| then ks[n - 1] else [], if 0 <= n < |ks| then ks[n] else []))
  }

  /** Increasing, non-empty split points give tablets that cover the whole key space with no gap
      and no overlap: the base case of the invariant that every split then keeps. */
  lemma SplitAtValuesIsPartitioned(ks: seq<Key>)
    requires Sorted(ks) && forall i :: 0 <= i < |ks| ==> |ks[i]| > 0
    ensures Partitioned(SplitAtValues(ks))
  {
    var ps := SplitAtValues(ks);
    forall i | 0 <= i < |ps| - 1
      ensures |ps[i].upper| > 0 && ps[i].upper == ps[i + 1].lower && Less(ps[i].lower, ps[i].upper)
    {
      assert ps[i].upper == ks[i] && ps[i + 1].lower == ks[i];
      if i > 0 {
        assert ps[i].lower == ks[i - 1];
      }
    }
  }
}
