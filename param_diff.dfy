/**
 * The parameter keys the change report lists under a changed block: the
 * union of both parameter key sets, sorted, keeping the keys whose values
 * differ when a missing key reads as "<none>".
 */
module ParamDiff {
  import opened Wrappers
  import opened PyDict
  import opened Extract

  // ----- Python's ordering of str -----

  /** `a < b` on Python strings: lexicographic by code point, a proper prefix first. */
  predicate Less(a: string, b: string)
    decreases |a|
  {
    if a == [] then b != []
    else b != [] && (a[0] < b[0] || (a[0] == b[0] && Less(a[1..], b[1..])))
  }

  lemma {:induction false} LessIrreflexive(a: string)
    ensures !Less(a, a)
    decreases |a|
  {
    if a != [] {
      LessIrreflexive(a[1..]);
    }
  }

  lemma {:induction false} LessTransitive(a: string, b: string, c: string)
    requires Less(a, b) && Less(b, c)
    ensures Less(a, c)
    decreases |a|
  {
    if a != [] && a[0] == b[0] && b[0] == c[0] {
      LessTransitive(a[1..], b[1..], c[1..]);
    }
  }

  lemma {:induction false} LessTotal(a: string, b: string)
    requires a != b
    ensures Less(a, b) || Less(b, a)
    decreases |a|
  {
    if a != [] && b != [] && a[0] == b[0] {
      assert a == [a[0]] + a[1..] && b == [b[0]] + b[1..];
      LessTotal(a[1..], b[1..]);
    }
  }

  /** Each element is smaller than every later one. */
  predicate StrictlySorted(s: seq<string>) {
    forall i, j :: 0 <= i < j < |s| ==> Less(s[i], s[j])
  }

  // ----- sorted(set) -----

  /** A non-empty set of strings has a least element. */
  lemma {:induction false} MinExists(s: set<string>)
    requires s != {}
    ensures exists m :: m in s && forall x :: x in s ==> !Less(x, m)
    decreases |s|
  {
    var y :| y in s;
    if s == {y} {
      LessIrreflexive(y);
      assert forall x :: x in s ==> x == y;
    } else {
      MinExists(s - {y});
      var m :| m in s - {y} && forall x :: x in s - {y} ==> !Less(x, m);
      if Less(y, m) {
        forall x | x in s
          ensures !Less(x, y)
        {
          if x == y {
            LessIrreflexive(y);
          } else if Less(x, y) {
            LessTransitive(x, y, m);
          }
        }
      } else {
        assert forall x :: x in s ==> !Less(x, m);
      }
    }
  }

  /** The least element of a non-empty set of strings. */
  function Min(s: set<string>): (m: string)
    requires s != {}
    ensures m in s
    ensures forall x :: x in s && x != m ==> Less(m, x)
  {
    MinExists(s);
    var m :| m in s && forall x :: x in s ==> !Less(x, m);
    assert forall x :: x in s && x != m ==> Less(m, x) by {
      forall x | x in s && x != m
        ensures Less(m, x)
      {
        LessTotal(m, x);
      }
    }
    m
  }

  /** `sorted(s)`: the elements of the set in ascending order. */
  function SortSet(s: set<string>): (r: seq<string>)
    ensures forall x :: x in r <==> x in s
    ensures StrictlySorted(r)
    decreases |s|
  {
    if s == {} then []
    else
      var m := Min(s);
      [m] + SortSet(s - {m})
  }

  // ----- The differing keys -----

  /** `params.get(key, "<none>")`: absent text stays None, a missing key reads as the text "<none>". */
  function Lookup(p: Params, k: string): Option<string> {
    if k in p.entries then p.entries[k] else Some("<none>")
  }

  /** `set(old.keys()).union(new.keys())` */
  function AllKeys(before: Params, after: Params): set<string> {
    before.entries.Keys + after.entries.Keys
  }

  /** The keys among the first `n` of `ks` whose looked-up values differ, in the order of `ks`. */
  function Keep(ks: seq<string>, n: nat, before: Params, after: Params): seq<string>
    requires n <= |ks|
  {
    if n == 0 then []
    else Keep(ks, n - 1, before, after) + (if Lookup(before, ks[n - 1]) != Lookup(after, ks[n - 1]) then [ks[n - 1]] else [])
  }

  /** The keys the report lists for a changed block, in the order it lists them. */
  function Differing(before: Params, after: Params): seq<string> {
    var ks := SortSet(AllKeys(before, after));
    Keep(ks, |ks|, before, after)
  }

  lemma KeepStep(ks: seq<string>, n: nat, before: Params, after: Params)
    requires n < |ks|
    ensures Lookup(before, ks[n]) != Lookup(after, ks[n]) ==> Keep(ks, n + 1, before, after) == Keep(ks, n, before, after) + [ks[n]]
    ensures Lookup(before, ks[n]) == Lookup(after, ks[n]) ==> Keep(ks, n + 1, before, after) == Keep(ks, n, before, after)
  {
    assert Keep(ks, n, before, after) + [] == Keep(ks, n, before, after);
  }

  /** A key is kept exactly when it is among the first `n` of `ks` and its values differ. */
  lemma {:induction false} KeepMembers(ks: seq<string>, n: nat, before: Params, after: Params, k: string)
    requires n <= |ks|
    ensures k in Keep(ks, n, before, after) <==>
      (exists i :: 0 <= i < n && ks[i] == k) && Lookup(before, k) != Lookup(after, k)
    decreases n
  {
    if n > 0 {
      KeepMembers(ks, n - 1, before, after, k);
      KeepStep(ks, n - 1, before, after);
    }
  }

  /** Keeping some keys of a sorted sequence leaves it sorted. */
  lemma {:induction false} KeepSorted(ks: seq<string>, n: nat, before: Params, after: Params)
    requires n <= |ks| && StrictlySorted(ks)
    ensures StrictlySorted(Keep(ks, n, before, after))
    decreases n
  {
    if n > 0 {
      var init := Keep(ks, n - 1, before, after);
      KeepSorted(ks, n - 1, before, after);
      KeepStep(ks, n - 1, before, after);
      if Lookup(before, ks[n - 1]) != Lookup(after, ks[n - 1]) {
        forall i | 0 <= i < |init|
          ensures Less(init[i], ks[n - 1])
        {
          KeepMembers(ks, n - 1, before, after, init[i]);
          var j :| 0 <= j < n - 1 && ks[j] == init[i];
        }
        assert StrictlySorted(init + [ks[n - 1]]);
      }
    }
  }

  /**
   * The listed keys are in ascending order, and a key is listed exactly
   * when one of the two maps has it and `get(key, "<none>")` differs.
   */
  lemma DifferingKeysMeaning(before: Params, after: Params)
    ensures StrictlySorted(Differing(before, after))
    ensures forall k :: k in Differing(before, after) <==>
      (k in before.entries || k in after.entries) && Lookup(before, k) != Lookup(after, k)
  {
    var ks := SortSet(AllKeys(before, after));
    KeepSorted(ks, |ks|, before, after);
    forall k
      ensures k in Differing(before, after) <==>
        (k in before.entries || k in after.entries) && Lookup(before, k) != Lookup(after, k)
    {
      KeepMembers(ks, |ks|, before, after, k);
      if k in before.entries || k in after.entries {
        assert k in ks;
        var i :| 0 <= i < |ks| && ks[i] == k;
      }
    }
  }

  /** The loop over `sorted(all_keys)` that writes one report line per differing key. */
  method DifferingKeys(before: Params, after: Params) returns (keys: seq<string>)
    ensures keys == Differing(before, after)
    ensures StrictlySorted(keys)
    ensures forall k :: k in keys <==> (k in before.entries || k in after.entries) && Lookup(before, k) != Lookup(after, k)
  {
    var allKeys := AllKeys(before, after);
    var sortedKeys := SortSet(allKeys);
    keys := [];
    for i := 0 to |sortedKeys|
      invariant keys == Keep(sortedKeys, i, before, after)
    {
      var key := sortedKeys[i];
      KeepStep(sortedKeys, i, before, after);
      var oldVal := Lookup(before, key);
      var newVal := Lookup(after, key);
      if oldVal != newVal {
        keys := keys + [key];
      }
    }
    DifferingKeysMeaning(before, after);
  }

  // ----- Consequences -----

  /** A parameter present with absent text still differs from a missing one. */
  lemma AbsentTextDiffersFromMissing(before: Params, after: Params, k: string)
    requires k in before.entries && before.entries[k] == None && k !in after.entries
    ensures k in Differing(before, after)
  {
    DifferingKeysMeaning(before, after);
  }

  /** A parameter whose text is literally "<none>" reads the same as a missing one. */
  lemma LiteralNoneMatchesMissing(before: Params, after: Params, k: string)
    requires k in before.entries && before.entries[k] == Some("<none>") && k !in after.entries
    ensures k !in Differing(before, after)
  {
    DifferingKeysMeaning(before, after);
  }

  /** No value of the map is the literal text "<none>". */
  predicate NoLiteralNone(p: Params) {
    forall k :: k in p.entries ==> p.entries[k] != Some("<none>")
  }

  /**
   * Unless a value is the literal text "<none>", some key is listed
   * exactly when the parameter dicts are unequal.
   */
  lemma DifferingIffUnequal(before: Params, after: Params)
    requires NoLiteralNone(before) && NoLiteralNone(after)
    ensures Differing(before, after) != [] <==> before.entries != after.entries
  {
    DifferingKeysMeaning(before, after);
    if before.entries != after.entries {
      var k :| (k in before.entries || k in after.entries) && Lookup(before, k) != Lookup(after, k) by {
        if before.entries.Keys == after.entries.Keys {
          var k :| k in before.entries && before.entries[k] != after.entries[k];
          assert Lookup(before, k) != Lookup(after, k);
        } else if exists k :: k in before.entries && k !in after.entries {
          var k :| k in before.entries && k !in after.entries;
          assert Lookup(before, k) != Lookup(after, k);
        } else {
          var k :| k in after.entries && k !in before.entries;
          assert Lookup(before, k) != Lookup(after, k);
        }
      }
      assert k in Differing(before, after);
    }
    if Differing(before, after) != [] {
      var k := Differing(before, after)[0];
      assert Lookup(before, k) != Lookup(after, k);
    }
  }
}
