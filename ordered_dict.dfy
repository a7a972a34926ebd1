/**
 * PHP arrays with string keys, as the report generator uses them for a
 * candidate record and for the status buckets: an ordered list of entries,
 * where assigning to an existing key replaces its value in place and
 * assigning to a new key appends an entry.
 *
 * The operations carry their specifications as separate lemmas, so that a
 * proof pays for a property only where it asks for it.
 */
module OrderedDict {
  import opened Wrappers

  type Dict<V> = seq<(string, V)>

  /** array_keys(): the keys in entry order. */
  function Keys<V>(d: Dict<V>): (ks: seq<string>)
    ensures |ks| == |d|
    ensures forall i :: 0 <= i < |d| ==> ks[i] == d[i].0
  {
    if d == [] then [] else [d[0].0] + Keys(d[1..])
  }

  predicate Distinct(ks: seq<string>) {
    forall i, j :: 0 <= i < j < |ks| ==> ks[i] != ks[j]
  }

  /** Two duplicate-free sequences with nothing in common concatenate to a
      duplicate-free sequence. */
  lemma DistinctConcat(a: seq<string>, b: seq<string>)
    requires Distinct(a) && Distinct(b)
    requires forall x :: x in a ==> x !in b
    ensures Distinct(a + b)
  {
    var ab := a + b;
    forall i, j | 0 <= i < j < |ab| ensures ab[i] != ab[j] {
      if i < |a| && j >= |a| {
        assert ab[i] == a[i] && ab[j] == b[j - |a|];
        assert a[i] in a;
      }
    }
  }

  /** Extending a prefix by one element. */
  lemma PrefixStep<T>(xs: seq<T>, j: nat)
    requires j < |xs|
    ensures xs[..j + 1] == xs[..j] + [xs[j]]
  {
  }

  lemma KeysConcat<V>(a: Dict<V>, b: Dict<V>)
    ensures Keys(a + b) == Keys(a) + Keys(b)
  {
  }

  /** $d[$k] ?? null: the value of the first entry with key k, if any. */
  function Get<V>(d: Dict<V>, k: string): Option<V> {
    if d == [] then None
    else if d[0].0 == k then Some(d[0].1)
    else Get(d[1..], k)
  }

  /** A key has a value exactly when it is one of the keys. */
  lemma {:induction false} GetSpec<V>(d: Dict<V>, k: string)
    ensures Get(d, k).None? <==> k !in Keys(d)
  {
    if d != [] {
      assert Keys(d) == [d[0].0] + Keys(d[1..]);
      GetSpec(d[1..], k);
    }
  }

  /** With distinct keys, looking up the key of an entry finds that entry. */
  lemma {:induction false} GetAt<V>(d: Dict<V>, e: nat)
    requires Distinct(Keys(d))
    requires e < |d|
    ensures Get(d, d[e].0) == Some(d[e].1)
  {
    if e > 0 {
      assert Keys(d[1..]) == Keys(d)[1..];
      GetAt(d[1..], e - 1);
    }
  }

  /** Looking up in a concatenation: the first part wins. */
  lemma {:induction false} GetConcat<V>(a: Dict<V>, b: Dict<V>, k: string)
    ensures Get(a + b, k) == if k in Keys(a) then Get(a, k) else Get(b, k)
  {
    if a != [] {
      assert (a + b)[1..] == a[1..] + b;
      assert Keys(a) == [a[0].0] + Keys(a[1..]);
      GetConcat(a[1..], b, k);
    } else {
      assert a + b == b;
    }
  }

  /** $d[$k] = $v. */
  function Put<V>(d: Dict<V>, k: string, v: V): Dict<V> {
    if d == [] then [(k, v)]
    else if d[0].0 == k then [(k, v)] + d[1..]
    else [d[0]] + Put(d[1..], k, v)
  }

  /** Assignment replaces the value in place when k is a key and appends a
      new entry otherwise; no other key changes. */
  lemma {:induction false} PutSpec<V>(d: Dict<V>, k: string, v: V)
    ensures Get(Put(d, k, v), k) == Some(v)
    ensures forall k' :: k' != k ==> Get(Put(d, k, v), k') == Get(d, k')
    ensures Keys(Put(d, k, v)) == if k in Keys(d) then Keys(d) else Keys(d) + [k]
  {
    if d != [] {
      assert Keys(d) == [d[0].0] + Keys(d[1..]);
      var r := Put(d, k, v);
      if d[0].0 == k {
        assert r[1..] == d[1..];
        assert Keys(r) == [k] + Keys(d[1..]);
      } else {
        var rest := Put(d[1..], k, v);
        PutSpec(d[1..], k, v);
        assert r == [d[0]] + rest && r[1..] == rest;
        assert Keys(r) == [d[0].0] + Keys(rest);
        forall k' | k' != k ensures Get(r, k') == Get(d, k') {
          if k' != d[0].0 {
            assert Get(r, k') == Get(rest, k');
          }
        }
      }
    }
  }

  /** Assigning to a key that is not there yet appends exactly one entry. */
  lemma {:induction false} PutFresh<V>(d: Dict<V>, k: string, v: V)
    requires k !in Keys(d)
    ensures Put(d, k, v) == d + [(k, v)]
  {
    if d != [] {
      assert Keys(d) == [d[0].0] + Keys(d[1..]);
      PutFresh(d[1..], k, v);
    }
  }

  /** The keys of ks that are not in ex, in their order in ks. */
  function StringsNotIn(ks: seq<string>, ex: seq<string>): seq<string> {
    if ks == [] then []
    else (if ks[0] in ex then [] else [ks[0]]) + StringsNotIn(ks[1..], ex)
  }

  lemma {:induction false} StringsNotInSpec(ks: seq<string>, ex: seq<string>)
    ensures forall x :: x in StringsNotIn(ks, ex) <==> x in ks && x !in ex
    ensures Distinct(ks) ==> Distinct(StringsNotIn(ks, ex))
  {
    if ks != [] {
      StringsNotInSpec(ks[1..], ex);
      assert ks == [ks[0]] + ks[1..];
      assert Distinct(ks) ==> ks[0] !in ks[1..];
    }
  }

  /** Nothing is left when every key is excluded. */
  lemma {:induction false} StringsNotInAllExcluded(ks: seq<string>, ex: seq<string>)
    requires forall x :: x in ks ==> x in ex
    ensures StringsNotIn(ks, ex) == []
  {
    if ks != [] {
      assert ks[0] in ks;
      assert forall x :: x in ks[1..] ==> x in ks;
      StringsNotInAllExcluded(ks[1..], ex);
    }
  }

  /** The members of ps that occur in ks, in their order in ps. */
  function StringsIn(ps: seq<string>, ks: seq<string>): seq<string> {
    if ps == [] then []
    else
      var p := ps[|ps| - 1];
      StringsIn(ps[..|ps| - 1], ks) + (if p in ks then [p] else [])
  }

  /** Looking at one more label. */
  lemma StringsInStep(ps: seq<string>, ks: seq<string>, k: nat)
    requires k < |ps|
    ensures StringsIn(ps[..k + 1], ks) == StringsIn(ps[..k], ks) + (if ps[k] in ks then [ps[k]] else [])
  {
    assert ps[..k + 1][..k] == ps[..k];
  }

  lemma {:induction false} StringsInSpec(ps: seq<string>, ks: seq<string>)
    ensures forall x :: x in StringsIn(ps, ks) <==> x in ps && x in ks
    ensures Distinct(ps) ==> Distinct(StringsIn(ps, ks))
  {
    if ps != [] {
      var init, p := ps[..|ps| - 1], ps[|ps| - 1];
      StringsInSpec(init, ks);
      assert ps == init + [p];
      assert Distinct(ps) ==> p !in init;
    }
  }

  /** StringsIn depends only on which keys occur in ks. */
  lemma {:induction false} StringsInSameMembers(ps: seq<string>, ks: seq<string>, ks': seq<string>)
    requires forall x :: x in ks <==> x in ks'
    ensures StringsIn(ps, ks) == StringsIn(ps, ks')
  {
    if ps != [] {
      StringsInSameMembers(ps[..|ps| - 1], ks, ks');
    }
  }

  /** unset($d[$k]). */
  function Remove<V>(d: Dict<V>, k: string): Dict<V> {
    if d == [] then []
    else if d[0].0 == k then Remove(d[1..], k)
    else [d[0]] + Remove(d[1..], k)
  }

  /** The entries of d whose key is not in ex, in their order. */
  function Without<V>(d: Dict<V>, ex: seq<string>): Dict<V> {
    if d == [] then []
    else if d[0].0 in ex then Without(d[1..], ex)
    else [d[0]] + Without(d[1..], ex)
  }

  /** Excluding keys hides exactly those keys and keeps the order of the
      others. */
  lemma {:induction false} WithoutSpec<V>(d: Dict<V>, ex: seq<string>)
    ensures forall k :: Get(Without(d, ex), k) == if k in ex then None else Get(d, k)
    ensures Keys(Without(d, ex)) == StringsNotIn(Keys(d), ex)
  {
    if d != [] {
      WithoutSpec(d[1..], ex);
      var rest := Without(d[1..], ex);
      assert Keys(d) == [d[0].0] + Keys(d[1..]);
      if d[0].0 !in ex {
        assert Keys([d[0]] + rest) == [d[0].0] + Keys(rest);
      }
    }
  }

  /** Unsetting one more key extends the excluded list by that key. */
  lemma {:induction false} RemoveWithout<V>(d: Dict<V>, ex: seq<string>, k: string)
    ensures Remove(Without(d, ex), k) == Without(d, ex + [k])
  {
    if d != [] {
      RemoveWithout(d[1..], ex, k);
    }
  }

  /** Excluding no key keeps the dictionary as it is. */
  lemma {:induction false} WithoutNothing<V>(d: Dict<V>)
    ensures Without(d, []) == d
  {
    if d != [] {
      WithoutNothing(d[1..]);
    }
  }

  /** Unsetting a key that is not there changes nothing. */
  lemma {:induction false} RemoveAbsent<V>(d: Dict<V>, k: string)
    requires k !in Keys(d)
    ensures Remove(d, k) == d
  {
    if d != [] {
      assert Keys(d) == [d[0].0] + Keys(d[1..]);
      RemoveAbsent(d[1..], k);
    }
  }

  /** The distinct members of ss in order of first occurrence. */
  function FirstSeen(ss: seq<string>): seq<string> {
    if ss == [] then []
    else
      var init, s := ss[..|ss| - 1], ss[|ss| - 1];
      FirstSeen(init) + (if s in init then [] else [s])
  }

  lemma {:induction false} FirstSeenSpec(ss: seq<string>)
    ensures Distinct(FirstSeen(ss))
    ensures forall x :: x in FirstSeen(ss) <==> x in ss
  {
    if ss != [] {
      var init, s := ss[..|ss| - 1], ss[|ss| - 1];
      FirstSeenSpec(init);
      assert ss == init + [s];
    }
  }

  /** The number of values over all entries of a dictionary of lists. */
  function TotalSize<X>(d: Dict<seq<X>>): nat {
    if d == [] then 0 else |d[0].1| + TotalSize(d[1..])
  }

  lemma {:induction false} TotalSizeConcat<X>(a: Dict<seq<X>>, b: Dict<seq<X>>)
    ensures TotalSize(a + b) == TotalSize(a) + TotalSize(b)
  {
    if a != [] {
      assert (a + b)[1..] == a[1..] + b;
      TotalSizeConcat(a[1..], b);
    } else {
      assert a + b == b;
    }
  }

  /** Assigning a list to a key changes the total by the difference between
      the new list and the list it replaces. */
  lemma {:induction false} TotalSizePut<X>(d: Dict<seq<X>>, k: string, v: seq<X>)
    ensures TotalSize(Put(d, k, v)) + |Get(d, k).GetOr([])| == TotalSize(d) + |v|
  {
    if d != [] && d[0].0 != k {
      TotalSizePut(d[1..], k, v);
    }
  }

  /** With distinct keys, unsetting a key takes away exactly its list. */
  lemma {:induction false} TotalSizeRemove<X>(d: Dict<seq<X>>, k: string)
    requires Distinct(Keys(d))
    ensures TotalSize(Remove(d, k)) + |Get(d, k).GetOr([])| == TotalSize(d)
  {
    if d != [] {
      assert Keys(d[1..]) == Keys(d)[1..];
      TotalSizeRemove(d[1..], k);
      if d[0].0 == k {
        assert k !in Keys(d[1..]);
        RemoveAbsent(d[1..], k);
      }
    }
  }
}
