/** Encoded keys, their order, and half-open key bounds.
    A key is a byte string compared the way rocksdb's bytewise comparator compares slices:
    byte by byte, and a proper prefix sorts first. The empty key doubles as "unbounded"
    in a KeyBounds pair (minus infinity as a lower bound, plus infinity as an upper one). */
module Keys {

  newtype byte = x: int | 0 <= x < 256

  type Key = seq<byte>

  /** Strict lexicographic order on byte strings: a key never sorts below itself, and a proper
      prefix sorts before every extension of it. */
  predicate Less(a: Key, b: Key): (r: bool)
    ensures r ==> a != b
    ensures |a| < |b| && a == b[..|a|] ==> r
  {
    if |a| == 0 then |b| > 0
    else if |b| == 0 then false
    else if a[0] != b[0] then a[0] < b[0]
    else
      assert |a| < |b| && a == b[..|a|] ==> a[1..] == b[1..][..|a| - 1] by {
        if |a| < |b| && a == b[..|a|] {
          assert forall i :: 0 <= i < |a| - 1 ==> a[1..][i] == b[1..][..|a| - 1][i];
        }
      }
      Less(a[1..], b[1..])
  }

  lemma {:induction false} LessIrreflexive(a: Key)
    ensures !Less(a, a)
  {
    if |a| > 0 {
      LessIrreflexive(a[1..]);
    }
  }

  lemma {:induction false} LessAsymmetric(a: Key, b: Key)
    requires Less(a, b)
    ensures !Less(b, a)
  {
    if |a| > 0 && |b| > 0 && a[0] == b[0] {
      LessAsymmetric(a[1..], b[1..]);
    }
  }

  lemma {:induction false} LessTransitive(a: Key, b: Key, c: Key)
    requires Less(a, b) && Less(b, c)
    ensures Less(a, c)
  {
    if |a| > 0 && a[0] == b[0] && b[0] == c[0] {
      LessTransitive(a[1..], b[1..], c[1..]);
    }
  }

  /** Any two distinct keys are ordered one way or the other. */
  lemma {:induction false} LessTotal(a: Key, b: Key)
    requires a != b
    ensures Less(a, b) || Less(b, a)
  {
    if |a| > 0 && |b| > 0 && a[0] == b[0] {
      assert a == [a[0]] + a[1..] && b == [b[0]] + b[1..];
      LessTotal(a[1..], b[1..]);
    }
  }

  /** Transitivity mixing `Less` with its complement "at or past", as bound checks use it. */
  lemma LessEqLessTransitive(a: Key, b: Key, c: Key)
    requires !Less(b, a) && Less(b, c)
    ensures Less(a, c)
  {
    if a == b {
    } else {
      LessTotal(a, b);
      LessTransitive(a, b, c);
    }
  }

  lemma LessLessEqTransitive(a: Key, b: Key, c: Key)
    requires Less(a, b) && !Less(c, b)
    ensures Less(a, c)
  {
    if b == c {
    } else {
      LessTotal(b, c);
      LessTransitive(a, b, c);
    }
  }

  lemma LessEqTransitive(a: Key, b: Key, c: Key)
    requires !Less(b, a) && !Less(c, b)
    ensures !Less(c, a)
  {
    if Less(c, a) {
      if a == b {
      } else {
        LessTotal(a, b);
        LessTransitive(c, a, b);
      }
    }
  }

  /** Index of the first key of `s` at or past `target` (`|s|` when there is none), found
      without assuming `s` is sorted: every key before it sorts below `target`. */
  function FirstAtOrPast(s: seq<Key>, target: Key): (r: nat)
    ensures r <= |s|
    ensures forall i :: 0 <= i < r ==> Less(s[i], target)
    ensures r < |s| ==> !Less(s[r], target)
  {
    if |s| == 0 || !Less(s[0], target) then 0
    else 1 + FirstAtOrPast(s[1..], target)
  }

  /** A strictly increasing sequence of keys, as a sorted store or an iterator's source holds them. */
  ghost predicate Sorted(s: seq<Key>)
  {
    forall i, j :: 0 <= i < j < |s| ==> Less(s[i], s[j])
  }

  /** In a sorted sequence every key from `FirstAtOrPast` on is at or past the target. */
  lemma FirstAtOrPastSorted(s: seq<Key>, target: Key)
    requires Sorted(s)
    ensures forall i :: FirstAtOrPast(s, target) <= i < |s| ==> !Less(s[i], target)
  {
    var r := FirstAtOrPast(s, target);
    forall i | r <= i < |s|
      ensures !Less(s[i], target)
    {
      if i > r {
        LessAsymmetric(s[r], s[i]);
        LessEqTransitive(target, s[r], s[i]);
      }
    }
  }

  /** Half-open bounds `[lower, upper)`; an empty `lower` or `upper` leaves that side unbounded. */
  datatype KeyBounds = KeyBounds(lower: Key, upper: Key)
  {
    /** The lower bound is inclusive and the upper bound exclusive; empty bounds contain every key. */
    predicate IsWithinBounds(key: Key): (r: bool)
      ensures |lower| == 0 && |upper| == 0 ==> r
      ensures |upper| > 0 && key == upper ==> !r
      ensures |lower| > 0 && key == lower ==> (r <==> |upper| == 0 || Less(key, upper))
    {
      (|lower| == 0 || !Less(key, lower)) && (|upper| == 0 || Less(key, upper))
    }
  }

  /** The keys of `s` that fall within `bounds`, in their order: what a bounded iterator yields. */
  function WithinBounds(s: seq<Key>, bounds: KeyBounds): (r: seq<Key>)
    ensures |r| <= |s|
    ensures forall k :: k in r <==> k in s && bounds.IsWithinBounds(k)
  {
    if |s| == 0 then []
    else if bounds.IsWithinBounds(s[0]) then [s[0]] + WithinBounds(s[1..], bounds)
    else WithinBounds(s[1..], bounds)
  }

  lemma {:induction false} WithinBoundsSorted(s: seq<Key>, bounds: KeyBounds)
    requires Sorted(s)
    ensures Sorted(WithinBounds(s, bounds))
  {
    if |s| > 0 {
      WithinBoundsSorted(s[1..], bounds);
      var rest := WithinBounds(s[1..], bounds);
      forall j | 0 <= j < |rest|
        ensures Less(s[0], rest[j])
      {
        assert rest[j] in s[1..];
      }
    }
  }
}
