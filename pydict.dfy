/**
 * A Python `dict`: a finite map that remembers insertion order.
 * Assigning to a key that is already present replaces its value and
 * keeps its position; a new key goes to the end.
 */
module PyDict {

  /** No element occurs twice. */
  predicate Distinct<T(==)>(s: seq<T>) {
    forall i, j :: 0 <= i < j < |s| ==> s[i] != s[j]
  }

  datatype Dict<K(==), V> = Dict(keys: seq<K>, entries: map<K, V>) {

    /** The iteration order lists every key exactly once. */
    predicate Valid() {
      && Distinct(keys)
      && (forall k :: k in entries ==> k in keys)
      && (forall i :: 0 <= i < |keys| ==> keys[i] in entries)
    }

    /** `d[k] = v` */
    function Put(k: K, v: V): Dict<K, V> {
      if k in entries then Dict(keys, entries[k := v]) else Dict(keys + [k], entries[k := v])
    }
  }

  /** Assignment keeps the iteration order listing every key exactly once. */
  lemma PutValid<K, V>(d: Dict<K, V>, k: K, v: V)
    requires d.Valid()
    ensures d.Put(k, v).Valid()
  {
  }

  function Empty<K(==), V>(): (r: Dict<K, V>)
    ensures r.Valid() && r.keys == []
  {
    Dict([], map[])
  }

  /** The first components of a sequence of pairs. */
  function Keys<K, V>(ps: seq<(K, V)>): (r: seq<K>)
    ensures |r| == |ps|
  {
    seq(|ps|, i requires 0 <= i < |ps| => ps[i].0)
  }

  /**
   * The first `n` elements of `s` in order of first occurrence, each once:
   * the order in which a dict built from them lists its keys.
   */
  function Dedup<T(==)>(s: seq<T>, n: nat): seq<T>
    requires n <= |s|
  {
    if n == 0 then []
    else
      var init := Dedup(s, n - 1);
      if s[n - 1] in init then init else init + [s[n - 1]]
  }

  /** Dedup lists no element twice. */
  lemma {:induction false} DedupIsDistinct<T>(s: seq<T>, n: nat)
    requires n <= |s|
    ensures Distinct(Dedup(s, n))
    decreases n
  {
    if n > 0 {
      DedupIsDistinct(s, n - 1);
    }
  }

  /** Dedup keeps exactly the elements it is given. */
  lemma {:induction false} DedupMembers<T>(s: seq<T>, n: nat, x: T)
    requires n <= |s|
    ensures x in Dedup(s, n) <==> exists i :: 0 <= i < n && s[i] == x
    decreases n
  {
    if n > 0 {
      DedupMembers(s, n - 1, x);
    }
  }

  /** Dedup of a prefix is a prefix of Dedup: a key keeps the place it got first. */
  lemma {:induction false} DedupPrefix<T>(s: seq<T>, m: nat, n: nat)
    requires m <= n <= |s|
    ensures Dedup(s, m) <= Dedup(s, n)
    decreases n
  {
    if m < n {
      DedupPrefix(s, m, n - 1);
    }
  }

  /** A sequence without duplicates is its own Dedup. */
  lemma {:induction false} DedupDistinct<T>(s: seq<T>, n: nat)
    requires n <= |s| && Distinct(s)
    ensures Dedup(s, n) == s[..n]
    decreases n
  {
    if n > 0 {
      DedupDistinct(s, n - 1);
      assert s[n - 1] !in s[..n - 1];
      assert s[..n - 1] + [s[n - 1]] == s[..n];
    }
  }

  /**
   * The dict after the first `n` assignments `d[k] = v` of the pairs `ps`,
   * starting from an empty dict, as a loop or a dict comprehension does.
   */
  function Build<K(==), V>(ps: seq<(K, V)>, n: nat): Dict<K, V>
    requires n <= |ps|
  {
    if n == 0 then Empty() else Build(ps, n - 1).Put(ps[n - 1].0, ps[n - 1].1)
  }

  /** The built dict is valid and lists the keys in order of first assignment. */
  lemma {:induction false} BuildValid<K, V>(ps: seq<(K, V)>, n: nat)
    requires n <= |ps|
    ensures Build(ps, n).Valid()
    ensures Build(ps, n).keys == Dedup(Keys(ps), n)
    decreases n
  {
    if n > 0 {
      BuildValid(ps, n - 1);
      var d := Build(ps, n - 1);
      var k := ps[n - 1].0;
      PutValid(d, k, ps[n - 1].1);
      assert Keys(ps)[n - 1] == k;
      assert k in d.entries <==> k in Dedup(Keys(ps), n - 1);
    }
  }

  /** The dict built from all of `ps`. */
  function FromPairs<K(==), V>(ps: seq<(K, V)>): Dict<K, V> {
    Build(ps, |ps|)
  }

  /** Building depends only on the pairs assigned so far. */
  lemma {:induction false} BuildAgree<K, V>(ps: seq<(K, V)>, qs: seq<(K, V)>, n: nat)
    requires n <= |ps| && n <= |qs|
    requires forall j :: 0 <= j < n ==> ps[j] == qs[j]
    ensures Build(ps, n) == Build(qs, n)
    decreases n
  {
    if n > 0 {
      BuildAgree(ps, qs, n - 1);
    }
  }

  /** Later assignments win: a key holds the value of its last pair among the first `n`. */
  lemma {:induction false} BuildLastWins<K, V>(ps: seq<(K, V)>, n: nat, i: nat)
    requires i < n <= |ps|
    requires forall j :: i < j < n ==> ps[j].0 != ps[i].0
    ensures ps[i].0 in Build(ps, n).entries
    ensures Build(ps, n).entries[ps[i].0] == ps[i].1
    decreases n
  {
    if i < n - 1 {
      BuildLastWins(ps, n - 1, i);
    }
  }

  /** A key is in the dict exactly when one of the first `n` pairs carries it. */
  lemma BuildKeys<K, V>(ps: seq<(K, V)>, n: nat, k: K)
    requires n <= |ps|
    ensures k in Build(ps, n).entries <==> exists i :: 0 <= i < n && ps[i].0 == k
  {
    var r := Build(ps, n);
    BuildValid(ps, n);
    DedupMembers(Keys(ps), n, k);
    if k in r.entries {
      assert k in Dedup(Keys(ps), n);
      var i :| 0 <= i < n && Keys(ps)[i] == k;
      assert ps[i].0 == k;
    }
    if exists i :: 0 <= i < n && ps[i].0 == k {
      var i :| 0 <= i < n && ps[i].0 == k;
      assert Keys(ps)[i] == k;
      assert k in Dedup(Keys(ps), n);
    }
  }

  /** A sequence without duplicates has as many elements as its set. */
  lemma {:induction false} DistinctCard<T>(s: seq<T>)
    requires Distinct(s)
    ensures |(set x | x in s)| == |s|
    decreases |s|
  {
    if s != [] {
      var init := s[..|s| - 1];
      var last := s[|s| - 1];
      assert Distinct(init);
      DistinctCard(init);
      assert (set x | x in s) == (set x | x in init) + {last};
      assert last !in (set x | x in init);
    }
  }
}
