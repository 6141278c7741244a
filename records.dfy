/** Per-tablet record counts, as the split tests collect and compare them: each tablet's
    key bounds and the number of records a bounded iterator finds in its regular DB, and
    the difference between two such snapshots. */
module TabletRecords {
  import opened Keys
  import opened Wrappers
  import opened Errors
  import opened RocksIterator

  type TabletId = string

  datatype RecordsInfo = RecordsInfo(bounds: KeyBounds, numRecords: int)

  /** Tablet id to (key bounds, record count). */
  type TabletRecordsInfo = map<TabletId, RecordsInfo>

  /** What the tests read from one tablet peer: its id, its key bounds, and the keys of its
      regular DB. After a split a child's DB still holds the parent's keys; the bounds decide
      which of them belong to the child. */
  datatype Peer = Peer(tabletId: TabletId, bounds: KeyBounds, store: seq<Key>)

  /** Steps a cursor from its first entry to the end, counting the entries it visits. */
  method CountRecords(it: Iterator) returns (numRecords: nat)
    requires it.Invariant()
    modifies it
    ensures it.Invariant() && !it.Valid()
    ensures numRecords == |it.keys|
  {
    numRecords := 0;
    it.SeekToFirst();
    while it.Valid()
      invariant it.Invariant()
      invariant 0 <= it.pos == numRecords <= |it.keys|
      decreases |it.keys| - it.pos
    {
      it.Next();
      numRecords := numRecords + 1;
    }
  }

  /** The snapshot the counting loop builds: peers in order, and a repeated tablet id keeps
      the entry of its first peer (insertion by `emplace` does not overwrite). */
  ghost function RecordsInfoOf(peers: seq<Peer>): TabletRecordsInfo
  {
    if |peers| == 0 then map[]
    else
      var m := RecordsInfoOf(peers[..|peers| - 1]);
      var p := peers[|peers| - 1];
      if p.tabletId in m then m
      else m[p.tabletId := RecordsInfo(p.bounds, |WithinBounds(p.store, p.bounds)|)]
  }

  /** Counts each peer's records through a bounded iterator over its regular DB. */
  method GetTabletRecordsInfo(peers: seq<Peer>) returns (result: TabletRecordsInfo)
    requires forall i :: 0 <= i < |peers| ==> Sorted(peers[i].store)
    ensures result == RecordsInfoOf(peers)
  {
    result := map[];
    for i := 0 to |peers|
      invariant result == RecordsInfoOf(peers[..i])
    {
      var peer := peers[i];
      WithinBoundsSorted(peer.store, peer.bounds);
      var inBounds := WithinBounds(peer.store, peer.bounds);
      var it := new Iterator(inBounds, seq(|inBounds|, _ => []), OK);
      var numRecords := CountRecords(it);
      if peer.tabletId !in result {
        result := result[peer.tabletId := RecordsInfo(peer.bounds, numRecords)];
      }
      assert peers[..i + 1][..i] == peers[..i];
    }
    assert peers[..|peers|] == peers;
  }

  /** The snapshot holds exactly the tablet ids of the peers. */
  lemma {:induction false} RecordsInfoOfKeys(peers: seq<Peer>)
    ensures RecordsInfoOf(peers).Keys == set i | 0 <= i < |peers| :: peers[i].tabletId
  {
    if |peers| > 0 {
      var init := peers[..|peers| - 1];
      RecordsInfoOfKeys(init);
      assert (set i | 0 <= i < |peers| :: peers[i].tabletId)
        == (set i | 0 <= i < |init| :: init[i].tabletId) + {peers[|peers| - 1].tabletId};
    }
  }

  /** A tablet's entry comes from the first peer with its id: its bounds, and the number of
      its keys within those bounds. */
  lemma {:induction false} RecordsInfoOfFirstPeer(peers: seq<Peer>, i: nat)
    requires i < |peers|
    requires forall j :: 0 <= j < i ==> peers[j].tabletId != peers[i].tabletId
    ensures peers[i].tabletId in RecordsInfoOf(peers)
    ensures RecordsInfoOf(peers)[peers[i].tabletId]
      == RecordsInfo(peers[i].bounds, |WithinBounds(peers[i].store, peers[i].bounds)|)
  {
    var init := peers[..|peers| - 1];
    if i < |init| {
      RecordsInfoOfFirstPeer(init, i);
    } else {
      RecordsInfoOfKeys(init);
    }
  }

  /** The two bounds of a tablet present in both snapshots agree. */
  ghost predicate BoundsAgree(a: TabletRecordsInfo, b: TabletRecordsInfo)
  {
    forall id :: id in b && id in a ==> a[id].bounds == b[id].bounds
  }

  /** The difference of two snapshots: every tablet of `b` missing from `a` as it is in `b`;
      every tablet of both with a nonzero count change as `a`'s bounds and `a`'s count minus
      `b`'s. */
  ghost function DiffOf(a: TabletRecordsInfo, b: TabletRecordsInfo): TabletRecordsInfo
  {
    map id | id in b && (id !in a || a[id].numRecords - b[id].numRecords != 0) ::
      if id in a then RecordsInfo(a[id].bounds, a[id].numRecords - b[id].numRecords) else b[id]
  }

  const LowerBoundMismatch := Error(IllegalState, "Lower bound must match")
  const UpperBoundMismatch := Error(IllegalState, "Upper bound must match")

  /** Compares snapshot `a` against snapshot `b`, visiting `b`'s tablets in an unspecified
      order (the source iterates an unordered map) and failing on the first tablet whose bounds
      differ. */
  method DiffTabletRecordsInfo(a: TabletRecordsInfo, b: TabletRecordsInfo)
    returns (r: Result<TabletRecordsInfo, Status>)
    ensures r.Success? <==> BoundsAgree(a, b)
    ensures r.Success? ==> r.value == DiffOf(a, b)
    ensures r.Failure? ==> r.error == LowerBoundMismatch || r.error == UpperBoundMismatch
    ensures r == Failure(LowerBoundMismatch) ==>
      exists id :: id in b && id in a && a[id].bounds.lower != b[id].bounds.lower
    ensures r == Failure(UpperBoundMismatch) ==>
      exists id :: id in b && id in a && a[id].bounds.upper != b[id].bounds.upper
  {
    var result: TabletRecordsInfo := map[];
    var todo := b.Keys;
    while todo != {}
      invariant todo <= b.Keys
      invariant forall id :: id in b && id !in todo && id in a ==> a[id].bounds == b[id].bounds
      invariant result == map id | id in DiffOf(a, b) && id !in todo :: DiffOf(a, b)[id]
      decreases todo
    {
      var id :| id in todo;
      if id !in a {
        result := result[id := b[id]];
      } else {
        if a[id].bounds.lower != b[id].bounds.lower {
          return Failure(LowerBoundMismatch);
        }
        if a[id].bounds.upper != b[id].bounds.upper {
          return Failure(UpperBoundMismatch);
        }
        var diff := a[id].numRecords - b[id].numRecords;
        if diff != 0 {
          result := result[id := RecordsInfo(a[id].bounds, diff)];
        }
      }
      todo := todo - {id};
    }
    return Success(result);
  }

  /** A snapshot compared with itself: the bounds agree and nothing is reported. */
  lemma DiffWithItself(x: TabletRecordsInfo)
    ensures BoundsAgree(x, x)
    ensures DiffOf(x, x) == map[]
  {
  }

  /** The difference reports only tablets of `b`; a tablet new in `b` is reported as it is in
      `b`, and a tablet of both only when its count changed. */
  lemma DiffReportsOnlyB(a: TabletRecordsInfo, b: TabletRecordsInfo)
    ensures DiffOf(a, b).Keys <= b.Keys
    ensures forall id :: id in b && id !in a ==> id in DiffOf(a, b) && DiffOf(a, b)[id] == b[id]
    ensures forall id :: id in b && id in a ==>
      (id in DiffOf(a, b) <==> a[id].numRecords != b[id].numRecords)
  {
  }

  /** One record written into one tablet between two snapshots with the same tablets: the
      difference is exactly that tablet, with count one and the tablet's bounds. This is the
      shape the routing tests expect (`diff.size() == 1`). */
  lemma DiffAfterOneInsert(before: TabletRecordsInfo, id: TabletId)
    requires id in before
    ensures var after := before[id := RecordsInfo(before[id].bounds, before[id].numRecords + 1)];
      DiffOf(after, before) == map[id := RecordsInfo(before[id].bounds, 1)]
  {
  }
}
