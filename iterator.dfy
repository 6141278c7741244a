/** The rocksdb `Iterator` cursor contract, modelled by a cursor over a strictly sorted
    sequence of key/value entries. The cursor is either positioned on an entry (`Valid()`)
    or not; a status tells an exhausted cursor from one that hit a read error. */
module RocksIterator {
  import opened Keys
  import opened Wrappers
  import opened Errors

  type Value = seq<byte>

  class Iterator {
    /** The source, in key order. */
    const keys: seq<Key>
    const values: seq<Value>
    /** The status `status()` reports; fixed for the iterator's lifetime. */
    const status: Status
    /** The entry the cursor is on; -1 and |keys| are the two off-the-end positions. */
    var pos: int

    ghost predicate Invariant()
      reads this
    {
      Sorted(keys) && |values| == |keys| && -1 <= pos <= |keys|
    }

    /** A cursor over the given entries, not yet positioned. */
    constructor (keys: seq<Key>, values: seq<Value>, status: Status)
      requires Sorted(keys) && |values| == |keys|
      ensures Invariant() && !Valid()
      ensures this.keys == keys && this.values == values && this.status == status
    {
      this.keys := keys;
      this.values := values;
      this.status := status;
      pos := |keys|;
    }

    /** True iff the cursor is positioned at an entry; neither off-the-end position is one, and
        an empty source has none. */
    predicate Valid(): (r: bool)
      reads this
      ensures r ==> |keys| > 0
      ensures pos == -1 || pos == |keys| ==> !r
    {
      0 <= pos < |keys|
    }

    /** Like `Valid()`, but a cursor that is not valid because of a read error reports the error. */
    function CheckedValid(): (r: Result<bool, Status>)
      reads this
      ensures r == Success(true) <==> Valid()
      ensures r == Success(false) <==> !Valid() && status.ok()
      ensures r.Failure? <==> !Valid() && !status.ok()
      ensures r.Failure? ==> r.error == status
    {
      if Valid() then Success(true)
      else if status.ok() then Success(false)
      else Failure(status)
    }

    /** The key of the current entry. */
    function Key(): (k: Key)
      reads this
      requires Valid()
      ensures k in keys
    {
      keys[pos]
    }

    /** The value of the current entry: the one stored with `Key()`. */
    function Value(): (v: Value)
      reads this
      requires Valid() && |values| == |keys|
      ensures exists i :: 0 <= i < |keys| && keys[i] == Key() && values[i] == v
    {
      values[pos]
    }

    /** Positions at the first (smallest) key; valid iff the source is not empty. */
    method SeekToFirst()
      requires Invariant()
      modifies this`pos
      ensures Invariant() && pos == 0
      ensures Valid() <==> |keys| > 0
      ensures Valid() ==> forall k :: k in keys ==> !Less(k, Key())
    {
      pos := 0;
      forall k | k in keys
        ensures !Less(k, keys[0])
      {
        var j :| 0 <= j < |keys| && keys[j] == k;
        if j == 0 {
          LessIrreflexive(k);
        } else {
          LessAsymmetric(keys[0], k);
        }
      }
    }

    /** Positions at the last (largest) key; valid iff the source is not empty. */
    method SeekToLast()
      requires Invariant()
      modifies this`pos
      ensures Invariant() && pos == |keys| - 1
      ensures Valid() <==> |keys| > 0
      ensures Valid() ==> forall k :: k in keys ==> !Less(Key(), k)
    {
      pos := |keys| - 1;
      forall k | k in keys
        ensures !Less(keys[pos], k)
      {
        var j :| 0 <= j < |keys| && keys[j] == k;
        if j == pos {
          LessIrreflexive(k);
        } else {
          LessAsymmetric(k, keys[pos]);
        }
      }
    }

    /** Positions at the first key at or past `target`; valid iff the source has such a key. */
    method Seek(target: Key)
      requires Invariant()
      modifies this`pos
      ensures Invariant() && pos == FirstAtOrPast(keys, target)
      ensures Valid() <==> exists k :: k in keys && !Less(k, target)
      ensures Valid() ==> !Less(Key(), target)
      ensures Valid() ==> forall k :: k in keys && !Less(k, target) ==> !Less(k, Key())
    {
      pos := FirstAtOrPast(keys, target);
      FirstAtOrPastSorted(keys, target);
      if pos < |keys| {
        assert keys[pos] in keys;
        forall k | k in keys && !Less(k, target)
          ensures !Less(k, keys[pos])
        {
          var j :| 0 <= j < |keys| && keys[j] == k;
          if j < pos {
          } else if j > pos {
            LessAsymmetric(keys[pos], keys[j]);
          } else {
            LessIrreflexive(k);
          }
        }
      }
    }

    /** Moves to the next entry: valid afterwards iff it was not on the last entry, and then
        on the smallest key greater than the one it left. */
    method Next()
      requires Invariant() && Valid()
      modifies this`pos
      ensures Invariant() && pos == old(pos) + 1
      ensures Valid() <==> old(pos) != |keys| - 1
      ensures Valid() ==> Less(old(Key()), Key())
      ensures Valid() ==> forall k :: k in keys && Less(old(Key()), k) ==> !Less(k, Key())
    {
      ghost var was := pos;
      pos := pos + 1;
      if Valid() {
        forall k | k in keys && Less(keys[was], k)
          ensures !Less(k, keys[pos])
        {
          var j :| 0 <= j < |keys| && keys[j] == k;
          if j < was {
            LessAsymmetric(keys[j], keys[was]);
          } else if j == was {
            LessIrreflexive(k);
          } else if j > pos {
            LessAsymmetric(keys[pos], keys[j]);
          } else {
            LessIrreflexive(k);
          }
        }
      }
    }

    /** Moves to the previous entry: valid afterwards iff it was not on the first entry, and then
        on the largest key smaller than the one it left. */
    method Prev()
      requires Invariant() && Valid()
      modifies this`pos
      ensures Invariant() && pos == old(pos) - 1
      ensures Valid() <==> old(pos) != 0
      ensures Valid() ==> Less(Key(), old(Key()))
      ensures Valid() ==> forall k :: k in keys && Less(k, old(Key())) ==> !Less(Key(), k)
    {
      ghost var was := pos;
      pos := pos - 1;
      if Valid() {
        forall k | k in keys && Less(k, keys[was])
          ensures !Less(keys[pos], k)
        {
          var j :| 0 <= j < |keys| && keys[j] == k;
          if j > was {
            LessAsymmetric(keys[was], keys[j]);
          } else if j == was {
            LessIrreflexive(k);
          } else if j < pos {
            LessAsymmetric(keys[j], keys[pos]);
          } else {
            LessIrreflexive(k);
          }
        }
      }
    }
  }

  /** An iterator that yields nothing and reports OK. */
  method NewEmptyIterator() returns (it: Iterator)
    ensures fresh(it) && it.Invariant() && !it.Valid()
    ensures it.keys == [] && it.status == OK
  {
    it := new Iterator([], [], OK);
  }

  /** An iterator that yields nothing and reports the given status. */
  method NewErrorIterator(status: Status) returns (it: Iterator)
    ensures fresh(it) && it.Invariant() && !it.Valid()
    ensures it.keys == [] && it.status == status
  {
    it := new Iterator([], [], status);
  }
}
