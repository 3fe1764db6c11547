/**
 * The block classification of `compare_to_baseline`: each block of the new
 * map is added, changed or unchanged against the baseline map, and each
 * baseline block missing from the new map is removed.
 */
module Compare {
  import opened PyDict
  import opened Extract
  import opened Baseline

  datatype Status = Added | Removed | Changed | Unchanged

  /**
   * The condition of the source's `if`: the block type differs or the
   * parameter dicts are unequal (dict equality ignores order; absent text
   * is a value like any other). The SID is not compared.
   */
  predicate IsChanged(before: Record, after: Block) {
    before.blockType != after.blockType || before.parameters.entries != after.parameters.entries
  }

  /** The bucket the block named `k` belongs to. */
  function StatusOf(base: Dict<string, Record>, nw: Dict<string, Block>, k: string): Status {
    if k !in nw.entries then Removed
    else if k !in base.entries then Added
    else if IsChanged(base.entries[k], nw.entries[k]) then Changed
    else Unchanged
  }

  /** The keys among the first `n` of `ks` whose status is `s`, in the order of `ks`. */
  function Select(ks: seq<string>, n: nat, base: Dict<string, Record>, nw: Dict<string, Block>, s: Status): seq<string>
    requires n <= |ks|
  {
    if n == 0 then []
    else Select(ks, n - 1, base, nw, s) + (if StatusOf(base, nw, ks[n - 1]) == s then [ks[n - 1]] else [])
  }

  /** The names of the added blocks, in the new map's order. */
  function AddedKeys(base: Dict<string, Record>, nw: Dict<string, Block>): seq<string> {
    Select(nw.keys, |nw.keys|, base, nw, Added)
  }

  /** The names of the changed blocks, in the new map's order. */
  function ChangedKeys(base: Dict<string, Record>, nw: Dict<string, Block>): seq<string> {
    Select(nw.keys, |nw.keys|, base, nw, Changed)
  }

  /** The names of the unchanged blocks, in the new map's order. */
  function UnchangedKeys(base: Dict<string, Record>, nw: Dict<string, Block>): seq<string> {
    Select(nw.keys, |nw.keys|, base, nw, Unchanged)
  }

  /** The names of the removed blocks, in the baseline's order. */
  function RemovedKeys(base: Dict<string, Record>, nw: Dict<string, Block>): seq<string> {
    Select(base.keys, |base.keys|, base, nw, Removed)
  }

  /** The values `d` holds under the keys `ks`, in the order of `ks` (keys `d` lacks are skipped). */
  function Values<V>(d: Dict<string, V>, ks: seq<string>): seq<V> {
    if ks == [] then []
    else
      var k := ks[|ks| - 1];
      Values(d, ks[..|ks| - 1]) + (if k in d.entries then [d.entries[k]] else [])
  }

  /** The (baseline, new) pair under each of the keys `ks` that both maps hold. */
  function Pairs(base: Dict<string, Record>, nw: Dict<string, Block>, ks: seq<string>): seq<(Record, Block)> {
    if ks == [] then []
    else
      var k := ks[|ks| - 1];
      Pairs(base, nw, ks[..|ks| - 1]) +
        (if k in base.entries && k in nw.entries then [(base.entries[k], nw.entries[k])] else [])
  }

  /** One more key extends the selection by that key exactly when it has the status. */
  lemma SelectStep(ks: seq<string>, n: nat, base: Dict<string, Record>, nw: Dict<string, Block>, s: Status)
    requires n < |ks|
    ensures StatusOf(base, nw, ks[n]) == s ==> Select(ks, n + 1, base, nw, s) == Select(ks, n, base, nw, s) + [ks[n]]
    ensures StatusOf(base, nw, ks[n]) != s ==> Select(ks, n + 1, base, nw, s) == Select(ks, n, base, nw, s)
  {
    assert Select(ks, n, base, nw, s) + [] == Select(ks, n, base, nw, s);
  }

  lemma ValuesSnoc<V>(d: Dict<string, V>, ks: seq<string>, k: string)
    requires k in d.entries
    ensures Values(d, ks + [k]) == Values(d, ks) + [d.entries[k]]
  {
    assert (ks + [k])[..|ks|] == ks;
  }

  lemma PairsSnoc(base: Dict<string, Record>, nw: Dict<string, Block>, ks: seq<string>, k: string)
    requires k in base.entries && k in nw.entries
    ensures Pairs(base, nw, ks + [k]) == Pairs(base, nw, ks) + [(base.entries[k], nw.entries[k])]
  {
    assert (ks + [k])[..|ks|] == ks;
  }

  /**
   * The first loop of `compare_to_baseline`: the new map's blocks go to
   * `added`, `changed` or `same` (the source's `unchanged`) in the new
   * map's order.
   */
  method SortNewBlocks(base: Dict<string, Record>, nw: Dict<string, Block>)
    returns (added: seq<Block>, changed: seq<(Record, Block)>, same: seq<Block>)
    requires base.Valid() && nw.Valid()
    ensures added == Values(nw, AddedKeys(base, nw))
    ensures changed == Pairs(base, nw, ChangedKeys(base, nw))
    ensures same == Values(nw, UnchangedKeys(base, nw))
  {
    added, changed, same := [], [], [];
    for i := 0 to |nw.keys|
      invariant added == Values(nw, Select(nw.keys, i, base, nw, Added))
      invariant changed == Pairs(base, nw, Select(nw.keys, i, base, nw, Changed))
      invariant same == Values(nw, Select(nw.keys, i, base, nw, Unchanged))
    {
      var name := nw.keys[i];
      var newBlock := nw.entries[name];
      SelectStep(nw.keys, i, base, nw, Added);
      SelectStep(nw.keys, i, base, nw, Changed);
      SelectStep(nw.keys, i, base, nw, Unchanged);
      if name !in base.entries {
        ValuesSnoc(nw, Select(nw.keys, i, base, nw, Added), name);
        added := added + [newBlock];
      } else {
        var oldBlock := base.entries[name];
        if oldBlock.blockType != newBlock.blockType || oldBlock.parameters.entries != newBlock.parameters.entries {
          PairsSnoc(base, nw, Select(nw.keys, i, base, nw, Changed), name);
          changed := changed + [(oldBlock, newBlock)];
        } else {
          ValuesSnoc(nw, Select(nw.keys, i, base, nw, Unchanged), name);
          same := same + [newBlock];
        }
      }
    }
  }

  /**
   * The second loop of `compare_to_baseline`: the baseline's blocks missing
   * from the new map go to `removed`, in the baseline's order.
   */
  method CollectRemoved(base: Dict<string, Record>, nw: Dict<string, Block>) returns (removed: seq<Record>)
    requires base.Valid() && nw.Valid()
    ensures removed == Values(base, RemovedKeys(base, nw))
  {
    removed := [];
    for i := 0 to |base.keys|
      invariant removed == Values(base, Select(base.keys, i, base, nw, Removed))
    {
      var name := base.keys[i];
      SelectStep(base.keys, i, base, nw, Removed);
      if name !in nw.entries {
        ValuesSnoc(base, Select(base.keys, i, base, nw, Removed), name);
        removed := removed + [base.entries[name]];
      }
    }
  }

  // ----- Properties of the classification -----

  /** A key is selected exactly when it is among the first `n` of `ks` and has the status. */
  lemma {:induction false} SelectMembers(ks: seq<string>, n: nat, base: Dict<string, Record>, nw: Dict<string, Block>,
                                         s: Status, k: string)
    requires n <= |ks|
    ensures k in Select(ks, n, base, nw, s) <==> (exists i :: 0 <= i < n && ks[i] == k) && StatusOf(base, nw, k) == s
    decreases n
  {
    if n > 0 {
      SelectMembers(ks, n - 1, base, nw, s, k);
      SelectStep(ks, n - 1, base, nw, s);
    }
  }

  /** Selecting from keys without duplicates gives keys without duplicates. */
  lemma {:induction false} SelectDistinct(ks: seq<string>, n: nat, base: Dict<string, Record>, nw: Dict<string, Block>,
                                          s: Status)
    requires n <= |ks| && Distinct(ks)
    ensures Distinct(Select(ks, n, base, nw, s))
    decreases n
  {
    if n > 0 {
      SelectDistinct(ks, n - 1, base, nw, s);
      SelectStep(ks, n - 1, base, nw, s);
      SelectMembers(ks, n - 1, base, nw, s, ks[n - 1]);
    }
  }

  /** Selected keys keep the order they have in `ks`. */
  lemma {:induction false} SelectOrder(ks: seq<string>, n: nat, base: Dict<string, Record>, nw: Dict<string, Block>,
                                       s: Status, a: nat, b: nat)
    requires n <= |ks| && a < b < |Select(ks, n, base, nw, s)|
    ensures exists i, j :: 0 <= i < j < n && ks[i] == Select(ks, n, base, nw, s)[a] && ks[j] == Select(ks, n, base, nw, s)[b]
    decreases n
  {
    var sel := Select(ks, n - 1, base, nw, s);
    SelectStep(ks, n - 1, base, nw, s);
    if b < |sel| {
      SelectOrder(ks, n - 1, base, nw, s, a, b);
    } else {
      SelectMembers(ks, n - 1, base, nw, s, sel[a]);
      var i :| 0 <= i < n - 1 && ks[i] == sel[a];
      assert ks[n - 1] == Select(ks, n, base, nw, s)[b];
    }
  }

  /** The four selections together take every one of the first `n` keys once. */
  lemma {:induction false} SelectCount(ks: seq<string>, n: nat, base: Dict<string, Record>, nw: Dict<string, Block>)
    requires n <= |ks|
    ensures |Select(ks, n, base, nw, Added)| + |Select(ks, n, base, nw, Removed)| +
            |Select(ks, n, base, nw, Changed)| + |Select(ks, n, base, nw, Unchanged)| == n
    decreases n
  {
    if n > 0 {
      SelectCount(ks, n - 1, base, nw);
      SelectStep(ks, n - 1, base, nw, Added);
      SelectStep(ks, n - 1, base, nw, Removed);
      SelectStep(ks, n - 1, base, nw, Changed);
      SelectStep(ks, n - 1, base, nw, Unchanged);
    }
  }

  /** No key has the status: nothing is selected. */
  lemma {:induction false} SelectNone(ks: seq<string>, n: nat, base: Dict<string, Record>, nw: Dict<string, Block>,
                                      s: Status)
    requires n <= |ks| && forall i :: 0 <= i < n ==> StatusOf(base, nw, ks[i]) != s
    ensures Select(ks, n, base, nw, s) == []
    decreases n
  {
    if n > 0 {
      SelectNone(ks, n - 1, base, nw, s);
      SelectStep(ks, n - 1, base, nw, s);
    }
  }

  /** Every key has the status: all of them are selected, in order. */
  lemma {:induction false} SelectEvery(ks: seq<string>, n: nat, base: Dict<string, Record>, nw: Dict<string, Block>,
                                       s: Status)
    requires n <= |ks| && forall i :: 0 <= i < n ==> StatusOf(base, nw, ks[i]) == s
    ensures Select(ks, n, base, nw, s) == ks[..n]
    decreases n
  {
    if n > 0 {
      SelectEvery(ks, n - 1, base, nw, s);
      SelectStep(ks, n - 1, base, nw, s);
      assert ks[..n - 1] + [ks[n - 1]] == ks[..n];
    }
  }

  /** When `d` holds every key of `ks`, `Values` has one value per key, in key order. */
  lemma {:induction false} ValuesAt<V>(d: Dict<string, V>, ks: seq<string>)
    requires forall k :: k in ks ==> k in d.entries
    ensures |Values(d, ks)| == |ks|
    ensures forall j :: 0 <= j < |ks| ==> Values(d, ks)[j] == d.entries[ks[j]]
    decreases |ks|
  {
    if ks != [] {
      var init := ks[..|ks| - 1];
      ValuesAt(d, init);
    }
  }

  /** When both maps hold every key of `ks`, `Pairs` has one pair per key, in key order. */
  lemma {:induction false} PairsAt(base: Dict<string, Record>, nw: Dict<string, Block>, ks: seq<string>)
    requires forall k :: k in ks ==> k in base.entries && k in nw.entries
    ensures |Pairs(base, nw, ks)| == |ks|
    ensures forall j :: 0 <= j < |ks| ==> Pairs(base, nw, ks)[j] == (base.entries[ks[j]], nw.entries[ks[j]])
    decreases |ks|
  {
    if ks != [] {
      var init := ks[..|ks| - 1];
      PairsAt(base, nw, init);
    }
  }

  /**
   * Every key of the new map lands in exactly one of added, changed or
   * unchanged: added when the baseline lacks it, changed when the block
   * type or the parameters differ, unchanged otherwise. Removed holds
   * exactly the baseline keys the new map lacks.
   */
  lemma Partition(base: Dict<string, Record>, nw: Dict<string, Block>, k: string)
    requires base.Valid() && nw.Valid()
    ensures k in AddedKeys(base, nw) <==> k in nw.entries && k !in base.entries
    ensures k in ChangedKeys(base, nw) <==>
      k in nw.entries && k in base.entries && IsChanged(base.entries[k], nw.entries[k])
    ensures k in UnchangedKeys(base, nw) <==>
      k in nw.entries && k in base.entries && !IsChanged(base.entries[k], nw.entries[k])
    ensures k in RemovedKeys(base, nw) <==> k in base.entries && k !in nw.entries
  {
    SelectMembers(nw.keys, |nw.keys|, base, nw, Added, k);
    SelectMembers(nw.keys, |nw.keys|, base, nw, Changed, k);
    SelectMembers(nw.keys, |nw.keys|, base, nw, Unchanged, k);
    SelectMembers(base.keys, |base.keys|, base, nw, Removed, k);
    if k in nw.entries {
      var i :| 0 <= i < |nw.keys| && nw.keys[i] == k;
    }
    if k in base.entries {
      var i :| 0 <= i < |base.keys| && base.keys[i] == k;
    }
  }

  /** The keys both maps hold with status `s` are listed as often from either side. */
  lemma SharedCount(base: Dict<string, Record>, nw: Dict<string, Block>, s: Status)
    requires base.Valid() && nw.Valid() && (s == Changed || s == Unchanged)
    ensures |Select(nw.keys, |nw.keys|, base, nw, s)| == |Select(base.keys, |base.keys|, base, nw, s)|
  {
    var fromNew := Select(nw.keys, |nw.keys|, base, nw, s);
    var fromBase := Select(base.keys, |base.keys|, base, nw, s);
    SelectDistinct(nw.keys, |nw.keys|, base, nw, s);
    SelectDistinct(base.keys, |base.keys|, base, nw, s);
    forall k
      ensures k in fromNew <==> k in fromBase
    {
      SelectMembers(nw.keys, |nw.keys|, base, nw, s, k);
      SelectMembers(base.keys, |base.keys|, base, nw, s, k);
      if k in fromNew || k in fromBase {
        assert k in nw.entries && k in base.entries;
        var i :| 0 <= i < |nw.keys| && nw.keys[i] == k;
        var j :| 0 <= j < |base.keys| && base.keys[j] == k;
      }
    }
    assert (set x | x in fromNew) == (set x | x in fromBase);
    DistinctCard(fromNew);
    DistinctCard(fromBase);
  }

  /**
   * The bucket sizes add up: added, changed and unchanged together are as
   * many as the new map's blocks, removed, changed and unchanged as many
   * as the baseline's.
   */
  lemma Counts(base: Dict<string, Record>, nw: Dict<string, Block>)
    requires base.Valid() && nw.Valid()
    ensures |AddedKeys(base, nw)| + |ChangedKeys(base, nw)| + |UnchangedKeys(base, nw)| == |nw.keys|
    ensures |RemovedKeys(base, nw)| + |ChangedKeys(base, nw)| + |UnchangedKeys(base, nw)| == |base.keys|
  {
    SelectCount(nw.keys, |nw.keys|, base, nw);
    SelectNone(nw.keys, |nw.keys|, base, nw, Removed);
    SelectCount(base.keys, |base.keys|, base, nw);
    SelectNone(base.keys, |base.keys|, base, nw, Added);
    SharedCount(base, nw, Changed);
    SharedCount(base, nw, Unchanged);
  }

  /** Two classifications that agree on every key's status select the same keys. */
  lemma {:induction false} SelectAgree(ks: seq<string>, n: nat, base1: Dict<string, Record>, nw1: Dict<string, Block>,
                                       base2: Dict<string, Record>, nw2: Dict<string, Block>, s: Status)
    requires n <= |ks|
    requires forall i :: 0 <= i < n ==> StatusOf(base1, nw1, ks[i]) == StatusOf(base2, nw2, ks[i])
    ensures Select(ks, n, base1, nw1, s) == Select(ks, n, base2, nw2, s)
    decreases n
  {
    if n > 0 {
      SelectAgree(ks, n - 1, base1, nw1, base2, nw2, s);
    }
  }

  /** The two maps have the same keys in the same order and differ at most in SIDs. */
  predicate SameButSid(a: Dict<string, Block>, b: Dict<string, Block>) {
    && a.keys == b.keys
    && a.entries.Keys == b.entries.Keys
    && forall k :: k in a.entries && k in b.entries ==>
         a.entries[k].blockType == b.entries[k].blockType && a.entries[k].parameters == b.entries[k].parameters
  }

  /** The SID takes no part in the comparison: changing SIDs in the new map moves no block between buckets. */
  lemma SidIgnored(base: Dict<string, Record>, a: Dict<string, Block>, b: Dict<string, Block>)
    requires SameButSid(a, b)
    ensures AddedKeys(base, a) == AddedKeys(base, b)
    ensures ChangedKeys(base, a) == ChangedKeys(base, b)
    ensures UnchangedKeys(base, a) == UnchangedKeys(base, b)
    ensures RemovedKeys(base, a) == RemovedKeys(base, b)
  {
    SelectAgree(a.keys, |a.keys|, base, a, base, b, Added);
    SelectAgree(a.keys, |a.keys|, base, a, base, b, Changed);
    SelectAgree(a.keys, |a.keys|, base, a, base, b, Unchanged);
    SelectAgree(base.keys, |base.keys|, base, a, base, b, Removed);
  }

  /**
   * Comparing a block map with its own flattened-and-rebuilt baseline
   * finds nothing added, removed or changed: every block is unchanged.
   */
  lemma SelfDiff(d: Dict<string, Block>)
    requires d.Valid()
    ensures AddedKeys(Rebuild(Flatten(d)), d) == []
    ensures ChangedKeys(Rebuild(Flatten(d)), d) == []
    ensures RemovedKeys(Rebuild(Flatten(d)), d) == []
    ensures UnchangedKeys(Rebuild(Flatten(d)), d) == d.keys
  {
    var base := Rebuild(Flatten(d));
    RoundTrip(d);
    assert forall i :: 0 <= i < |d.keys| ==> StatusOf(base, d, d.keys[i]) == Unchanged;
    SelectNone(d.keys, |d.keys|, base, d, Added);
    SelectNone(d.keys, |d.keys|, base, d, Changed);
    SelectNone(d.keys, |d.keys|, base, d, Removed);
    SelectEvery(d.keys, |d.keys|, base, d, Unchanged);
    assert d.keys[..|d.keys|] == d.keys;
  }
}
