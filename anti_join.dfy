/**
 * The staging merge shared by the url table and the bronze table:
 *
 *   insert into target select t.* from staging t
 *   left join target main on t.key = main.key
 *   where main.key is null or t.stamp <> main.stamp
 *
 * A left join yields one joined row per matching target row (or a single row with
 * NULLs when nothing matches), and SQL's `<>` is not true when either side is NULL.
 * Rows are generic: `key` projects the join column and `stamp` the compared timestamp.
 * Tables are bags; the merge is written in staging order, which the database does not
 * promise, so the lemmas below speak about multiplicities.
 */
module AntiJoin {
  import opened Wrappers

  /** SQL `a <> b`, which holds only when both sides are non-NULL and different. */
  predicate SqlDiffers<V(==)>(a: Option<V>, b: Option<V>)
  {
    a.Some? && b.Some? && a.value != b.value
  }

  /** Number of target rows whose key is `k`. */
  function CountKey<R>(key: R -> string, k: string, target: seq<R>): nat
  {
    if |target| == 0 then 0
    else (if key(target[0]) == k then 1 else 0) + CountKey(key, k, target[1..])
  }

  /** Number of target rows joined to staged row `x` whose stamp differs from x's under SQL rules. */
  function CountDiffering<R, V(==)>(key: R -> string, stamp: R -> Option<V>, x: R, target: seq<R>): nat
  {
    if |target| == 0 then 0
    else
      (if key(target[0]) == key(x) && SqlDiffers(stamp(x), stamp(target[0])) then 1 else 0)
      + CountDiffering(key, stamp, x, target[1..])
  }

  /** How many joined rows of staged row `x` pass the where clause. */
  function Copies<R, V(==)>(key: R -> string, stamp: R -> Option<V>, x: R, target: seq<R>): nat
  {
    if CountKey(key, key(x), target) == 0 then 1 else CountDiffering(key, stamp, x, target)
  }

  function Repeat<R>(x: R, n: nat): (r: seq<R>)
    ensures |r| == n && forall i :: 0 <= i < n ==> r[i] == x
  {
    seq(n, _ => x)
  }

  /** The rows the merge statement appends to the target. */
  function MergeAppend<R, V(==)>(key: R -> string, stamp: R -> Option<V>, staged: seq<R>, target: seq<R>): seq<R>
  {
    if |staged| == 0 then []
    else Repeat(staged[0], Copies(key, stamp, staged[0], target)) + MergeAppend(key, stamp, staged[1..], target)
  }

  /** Every staged url is in the target, and no target row of it has a stamp that SQL sees as different. */
  predicate Settled<R, V(==)>(key: R -> string, stamp: R -> Option<V>, staged: seq<R>, target: seq<R>)
  {
    forall i :: 0 <= i < |staged| ==>
      && (exists j :: 0 <= j < |target| && key(target[j]) == key(staged[i]))
      && forall j :: 0 <= j < |target| && key(target[j]) == key(staged[i]) ==> !SqlDiffers(stamp(staged[i]), stamp(target[j]))
  }

  /** Staged rows sharing a key also share their stamp. */
  predicate ConsistentBatch<R, V(==)>(key: R -> string, stamp: R -> Option<V>, staged: seq<R>)
  {
    forall i, j :: 0 <= i < |staged| && 0 <= j < |staged| && key(staged[i]) == key(staged[j]) ==> stamp(staged[i]) == stamp(staged[j])
  }

  // ---------------------------------------------------------------------------
  // Counting lemmas
  // ---------------------------------------------------------------------------

  lemma {:induction false} CountKeyPositive<R>(key: R -> string, k: string, target: seq<R>)
    ensures CountKey(key, k, target) > 0 <==> exists j :: 0 <= j < |target| && key(target[j]) == k
  {
    if |target| > 0 {
      CountKeyPositive(key, k, target[1..]);
      if CountKey(key, k, target[1..]) > 0 {
        var j :| 0 <= j < |target[1..]| && key(target[1..][j]) == k;
        assert key(target[j + 1]) == k;
      }
      if exists j :: 0 <= j < |target| && key(target[j]) == k {
        var j :| 0 <= j < |target| && key(target[j]) == k;
        if j > 0 {
          assert key(target[1..][j - 1]) == k;
        }
      }
    }
  }

  lemma {:induction false} CountDifferingPositive<R, V>(key: R -> string, stamp: R -> Option<V>, x: R, target: seq<R>)
    ensures CountDiffering(key, stamp, x, target) > 0 <==>
      exists j :: 0 <= j < |target| && key(target[j]) == key(x) && SqlDiffers(stamp(x), stamp(target[j]))
  {
    if |target| > 0 {
      CountDifferingPositive(key, stamp, x, target[1..]);
      if CountDiffering(key, stamp, x, target[1..]) > 0 {
        var j :| 0 <= j < |target[1..]| && key(target[1..][j]) == key(x) && SqlDiffers(stamp(x), stamp(target[1..][j]));
        assert target[j + 1] == target[1..][j];
      }
      if exists j :: 0 <= j < |target| && key(target[j]) == key(x) && SqlDiffers(stamp(x), stamp(target[j])) {
        var j :| 0 <= j < |target| && key(target[j]) == key(x) && SqlDiffers(stamp(x), stamp(target[j]));
        if j > 0 {
          assert target[1..][j - 1] == target[j];
        }
      }
    }
  }

  /** A staged row with a NULL stamp never differs from anything, so it is not appended over an existing url. */
  lemma NullStampNeverDiffers<R, V>(key: R -> string, stamp: R -> Option<V>, x: R, target: seq<R>)
    requires stamp(x).None?
    ensures CountDiffering(key, stamp, x, target) == 0
  {
    CountDifferingPositive(key, stamp, x, target);
  }

  lemma {:induction false} CountKeyAppend<R>(key: R -> string, k: string, a: seq<R>, b: seq<R>)
    ensures CountKey(key, k, a + b) == CountKey(key, k, a) + CountKey(key, k, b)
  {
    if |a| > 0 {
      CountKeyAppend(key, k, a[1..], b);
      assert (a + b)[1..] == a[1..] + b;
    } else {
      assert a + b == b;
    }
  }

  // ---------------------------------------------------------------------------
  // What the merge appends
  // ---------------------------------------------------------------------------

  /** Every appended row is a staged row. */
  lemma {:induction false} AppendedAreStaged<R, V>(key: R -> string, stamp: R -> Option<V>, staged: seq<R>, target: seq<R>)
    ensures forall y :: y in MergeAppend(key, stamp, staged, target) ==> y in staged
  {
    if |staged| > 0 {
      AppendedAreStaged(key, stamp, staged[1..], target);
      forall y | y in MergeAppend(key, stamp, staged, target)
        ensures y in staged
      {
        if y !in MergeAppend(key, stamp, staged[1..], target) {
          assert y == staged[0];
        } else {
          assert y in staged[1..];
        }
      }
    }
  }

  /**
   * The bag of appended rows: each staged row appears once per staged occurrence
   * times the number of its joined rows that pass the where clause.
   */
  lemma {:induction false} MergeMultiplicity<R, V>(key: R -> string, stamp: R -> Option<V>, staged: seq<R>, target: seq<R>, x: R)
    ensures multiset(MergeAppend(key, stamp, staged, target))[x] == multiset(staged)[x] * Copies(key, stamp, x, target)
  {
    if |staged| > 0 {
      MergeMultiplicity(key, stamp, staged[1..], target, x);
      var c := Copies(key, stamp, x, target);
      var m := multiset(staged[1..])[x];
      var head := Repeat(staged[0], Copies(key, stamp, staged[0], target));
      assert MergeAppend(key, stamp, staged, target) == head + MergeAppend(key, stamp, staged[1..], target);
      RepeatMultiset(staged[0], Copies(key, stamp, staged[0], target), x);
      assert staged == [staged[0]] + staged[1..];
      if staged[0] == x {
        assert multiset(staged)[x] == m + 1;
        assert multiset(head)[x] == c;
        MulSucc(m, c);
      } else {
        assert multiset(staged)[x] == m;
        assert multiset(head)[x] == 0;
      }
    }
  }

  lemma MulSucc(m: int, c: int)
    ensures (m + 1) * c == m * c + c
  {
  }

  lemma RepeatMultiset<R>(y: R, n: nat, x: R)
    ensures multiset(Repeat(y, n))[x] == if x == y then n else 0
  {
    if n > 0 {
      RepeatMultiset(y, n - 1, x);
      assert Repeat(y, n) == Repeat(y, n - 1) + [y];
    } else {
      assert Repeat(y, n) == [];
    }
  }

  /** A staged row whose url is absent from the target is appended once per staged occurrence. */
  lemma AbsentKeyAppendedPerOccurrence<R, V>(key: R -> string, stamp: R -> Option<V>, staged: seq<R>, target: seq<R>, x: R)
    requires forall j :: 0 <= j < |target| ==> key(target[j]) != key(x)
    ensures multiset(MergeAppend(key, stamp, staged, target))[x] == multiset(staged)[x]
  {
    MergeMultiplicity(key, stamp, staged, target, x);
    CountKeyPositive(key, key(x), target);
  }

  /**
   * A staged row whose url is present is appended once per staged occurrence and per
   * target row of that url whose stamp differs; so never when its own stamp is NULL,
   * and never when it equals or is incomparable with every existing version.
   */
  lemma PresentKeyAppendedPerDifferingVersion<R, V>(key: R -> string, stamp: R -> Option<V>, staged: seq<R>, target: seq<R>, x: R)
    requires exists j :: 0 <= j < |target| && key(target[j]) == key(x)
    ensures multiset(MergeAppend(key, stamp, staged, target))[x] == multiset(staged)[x] * CountDiffering(key, stamp, x, target)
    ensures (forall j :: 0 <= j < |target| && key(target[j]) == key(x) ==> !SqlDiffers(stamp(x), stamp(target[j])))
        ==> x !in MergeAppend(key, stamp, staged, target)
  {
    MergeMultiplicity(key, stamp, staged, target, x);
    CountKeyPositive(key, key(x), target);
    CountDifferingPositive(key, stamp, x, target);
  }

  // ---------------------------------------------------------------------------
  // Reruns
  // ---------------------------------------------------------------------------

  /** The merge appends nothing exactly when the target is already settled for the batch. */
  lemma {:induction false} AppendsNothingIffSettled<R, V>(key: R -> string, stamp: R -> Option<V>, staged: seq<R>, target: seq<R>)
    ensures MergeAppend(key, stamp, staged, target) == [] <==> Settled(key, stamp, staged, target)
  {
    if |staged| > 0 {
      AppendsNothingIffSettled(key, stamp, staged[1..], target);
      var x := staged[0];
      CountKeyPositive(key, key(x), target);
      CountDifferingPositive(key, stamp, x, target);
      var tail := MergeAppend(key, stamp, staged[1..], target);
      assert MergeAppend(key, stamp, staged, target) == Repeat(x, Copies(key, stamp, x, target)) + tail;
      if Settled(key, stamp, staged, target) {
        assert Settled(key, stamp, staged[1..], target) by {
          forall i | 0 <= i < |staged[1..]|
            ensures staged[1..][i] == staged[i + 1]
          {
          }
        }
        assert Copies(key, stamp, x, target) == 0;
      }
      if MergeAppend(key, stamp, staged, target) == [] {
        assert |Repeat(x, Copies(key, stamp, x, target))| == 0;
        forall i | 0 <= i < |staged|
          ensures && (exists j :: 0 <= j < |target| && key(target[j]) == key(staged[i]))
                  && forall j :: 0 <= j < |target| && key(target[j]) == key(staged[i]) ==> !SqlDiffers(stamp(staged[i]), stamp(target[j]))
        {
          if i > 0 {
            assert staged[i] == staged[1..][i - 1];
          }
        }
      }
    }
  }

  /**
   * Restricted idempotence: when the batch gives each url a single stamp and no
   * existing version of a staged url differs from it, merging the batch a second time
   * appends nothing.
   */
  lemma MergeIdempotentWhenNoStaleVersion<R, V>(key: R -> string, stamp: R -> Option<V>, staged: seq<R>, target: seq<R>)
    requires ConsistentBatch(key, stamp, staged)
    requires forall i, j :: 0 <= i < |staged| && 0 <= j < |target| && key(target[j]) == key(staged[i]) ==>
               !SqlDiffers(stamp(staged[i]), stamp(target[j]))
    ensures var merged := target + MergeAppend(key, stamp, staged, target);
      MergeAppend(key, stamp, staged, merged) == []
  {
    var added := MergeAppend(key, stamp, staged, target);
    var merged := target + added;
    AppendedAreStaged(key, stamp, staged, target);
    forall i | 0 <= i < |staged|
      ensures exists j :: 0 <= j < |merged| && key(merged[j]) == key(staged[i])
      ensures forall j :: 0 <= j < |merged| && key(merged[j]) == key(staged[i]) ==> !SqlDiffers(stamp(staged[i]), stamp(merged[j]))
    {
      StagedKeyPresentAfterMerge(key, stamp, staged, target, merged, i);
      NoStaleAfterMerge(key, stamp, staged, target, merged, i);
    }
    AppendsNothingIffSettled(key, stamp, staged, merged);
  }

  /** After a merge, the key of every staged row is in the target. */
  lemma StagedKeyPresentAfterMerge<R, V>(key: R -> string, stamp: R -> Option<V>, staged: seq<R>, target: seq<R>, merged: seq<R>, i: int)
    requires merged == target + MergeAppend(key, stamp, staged, target)
    requires 0 <= i < |staged|
    ensures exists j :: 0 <= j < |merged| && key(merged[j]) == key(staged[i])
  {
    var added := MergeAppend(key, stamp, staged, target);
    var x := staged[i];
    CountKeyPositive(key, key(x), target);
    if CountKey(key, key(x), target) == 0 {
      MergeMultiplicity(key, stamp, staged, target, x);
      assert x in added;
      var j :| 0 <= j < |added| && added[j] == x;
      assert merged[|target| + j] == x;
      assert 0 <= |target| + j < |merged| && key(merged[|target| + j]) == key(staged[i]);
    } else {
      var j :| 0 <= j < |target| && key(target[j]) == key(x);
      assert merged[j] == target[j];
      assert 0 <= j < |merged| && key(merged[j]) == key(staged[i]);
    }
  }

  /** Without a stale version in the target, no row after a merge differs from a staged row of its key. */
  lemma NoStaleAfterMerge<R, V>(key: R -> string, stamp: R -> Option<V>, staged: seq<R>, target: seq<R>, merged: seq<R>, i: int)
    requires ConsistentBatch(key, stamp, staged)
    requires forall i, j :: 0 <= i < |staged| && 0 <= j < |target| && key(target[j]) == key(staged[i]) ==>
               !SqlDiffers(stamp(staged[i]), stamp(target[j]))
    requires forall y :: y in MergeAppend(key, stamp, staged, target) ==> y in staged
    requires merged == target + MergeAppend(key, stamp, staged, target)
    requires 0 <= i < |staged|
    ensures forall j :: 0 <= j < |merged| && key(merged[j]) == key(staged[i]) ==> !SqlDiffers(stamp(staged[i]), stamp(merged[j]))
  {
    var added := MergeAppend(key, stamp, staged, target);
    var x := staged[i];
    forall j | 0 <= j < |merged| && key(merged[j]) == key(x)
      ensures !SqlDiffers(stamp(x), stamp(merged[j]))
    {
      if j >= |target| {
        assert merged[j] == added[j - |target|];
        assert added[j - |target|] in staged;
      }
    }
  }

  /**
   * Once a url holds a version whose stamp differs from the staged one, every later
   * merge of the same staged row appends it again, whatever else has been appended.
   */
  lemma ChangedVersionReappends<R, V>(key: R -> string, stamp: R -> Option<V>, staged: seq<R>, target: seq<R>, extra: seq<R>, i: int, j: int)
    requires 0 <= i < |staged| && 0 <= j < |target|
    requires key(target[j]) == key(staged[i]) && SqlDiffers(stamp(staged[i]), stamp(target[j]))
    ensures staged[i] in MergeAppend(key, stamp, staged, target + extra)
  {
    var x, t := staged[i], target + extra;
    assert t[j] == target[j];
    CountKeyPositive(key, key(x), t);
    CountDifferingPositive(key, stamp, x, t);
    MergeMultiplicity(key, stamp, staged, t, x);
    assert x in multiset(staged);
    MulPositive(multiset(staged)[x], Copies(key, stamp, x, t));
    assert multiset(MergeAppend(key, stamp, staged, t))[x] > 0;
  }

  lemma MulPositive(a: int, b: int)
    requires a > 0 && b > 0
    ensures a * b > 0
  {
  }

  /** A row keyed "u" with an integer version, the smallest instance of the rerun behaviour. */
  datatype Versioned = Versioned(url: string, version: Option<int>)

  function VersionedKey(r: Versioned): string { r.url }
  function VersionedStamp(r: Versioned): Option<int> { r.version }

  /**
   * Target [(u, 1)] and batch [(u, 2)]: the first merge appends (u, 2), and merging
   * the identical batch again appends (u, 2) once more, because (u, 1) still differs.
   */
  lemma RerunCounterexample()
    ensures var b, t := [Versioned("u", Some(2))], [Versioned("u", Some(1))];
      var first := MergeAppend(VersionedKey, VersionedStamp, b, t);
      && first == b
      && MergeAppend(VersionedKey, VersionedStamp, b, t + first) == b
  {
    var b, t := [Versioned("u", Some(2))], [Versioned("u", Some(1))];
    assert CountKey(VersionedKey, "u", t) == 1;
    assert CountDiffering(VersionedKey, VersionedStamp, b[0], t) == 1;
    var first := MergeAppend(VersionedKey, VersionedStamp, b, t);
    assert first == b;
    var t2 := t + first;
    assert t2[1..] == b;
    assert CountKey(VersionedKey, "u", t2) == 2;
    assert CountDiffering(VersionedKey, VersionedStamp, b[0], t2[1..]) == 0;
    assert CountDiffering(VersionedKey, VersionedStamp, b[0], t2) == 1;
  }
}
