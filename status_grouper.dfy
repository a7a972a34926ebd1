/**
 * ReportPdfGenerator::groupByStatus: buckets the candidate records by their
 * trimmed Status cell, keeping input order inside a bucket, then emits the
 * buckets whose status is one of the nine known labels in their fixed order,
 * followed by every other bucket in the order its status was first seen.
 */
module StatusGrouper {
  import opened Wrappers
  import opened Text
  import opened OrderedDict
  import opened CsvFetch

  /** The buckets: a status and its candidates, in output order. */
  type Groups = Dict<seq<Record>>

  /** The fixed presentation order of the recognised statuses. */
  const StatusOrder: seq<string> := [
    "Interviewing",
    "Submitted",
    "DeWinter Screening",
    "Screening",
    "Rejected",
    "DWP Rejected",
    "Pass - Compensation",
    "Pass - Location",
    "Not Interested"
  ]

  lemma StatusOrderDistinct()
    ensures Distinct(StatusOrder)
  {
  }

  /** trim($candidate['Status'] ?? 'Unknown'): the literal only stands in for
      a missing Status key; a blank Status trims to the empty status. */
  function StatusOf(c: Record): (status: string)
    ensures IsTrimmed(status)
  {
    TrimSpec(Get(c, "Status").GetOr("Unknown"));
    Trim(Get(c, "Status").GetOr("Unknown"))
  }

  /** A record without a Status key gets "Unknown"; one whose Status is
      blank gets the empty status, not "Unknown"; a Status with no blanks
      at either end is used as it is. */
  lemma StatusOfCases(c: Record)
    ensures Get(c, "Status").None? ==> StatusOf(c) == "Unknown"
    ensures Get(c, "Status").Some? && (forall i :: 0 <= i < |Get(c, "Status").value| ==> IsTrimChar(Get(c, "Status").value[i]))
      ==> StatusOf(c) == ""
    ensures Get(c, "Status").Some? && IsTrimmed(Get(c, "Status").value) ==> StatusOf(c) == Get(c, "Status").value
  {
    match Get(c, "Status")
    case None =>
      TrimSpec("Unknown");
    case Some(v) =>
      TrimSpec(v);
      if forall i :: 0 <= i < |v| ==> IsTrimChar(v[i]) {
        TrimBlank(v);
      }
  }

  /** The status of each candidate, position by position. */
  function Statuses(cs: seq<Record>): (ss: seq<string>)
    ensures |ss| == |cs|
    ensures forall i :: 0 <= i < |cs| ==> ss[i] == StatusOf(cs[i])
  {
    if cs == [] then [] else Statuses(cs[..|cs| - 1]) + [StatusOf(cs[|cs| - 1])]
  }

  /** The candidates whose status is s, in input order. */
  function Members(cs: seq<Record>, s: string): (ms: seq<Record>)
    ensures |ms| <= |cs|
  {
    if cs == [] then []
    else
      var n := |cs| - 1;
      Members(cs[..n], s) + (if StatusOf(cs[n]) == s then [cs[n]] else [])
  }

  /** The members of s are exactly the candidates with status s, and there is
      at least one exactly when s is the status of some candidate. */
  lemma {:induction false} MembersSpec(cs: seq<Record>, s: string)
    ensures forall x :: x in Members(cs, s) <==> x in cs && StatusOf(x) == s
    ensures Members(cs, s) != [] <==> s in Statuses(cs)
  {
    if cs != [] {
      var n := |cs| - 1;
      var init, c := cs[..n], cs[n];
      MembersSpec(init, s);
      assert Statuses(cs) == Statuses(init) + [StatusOf(c)];
      var prev := Members(init, s);
      var ms := Members(cs, s);
      assert ms == prev + (if StatusOf(c) == s then [c] else []);
      forall x ensures x in ms <==> x in cs && StatusOf(x) == s {
        InPrefixOrLast(cs, x);
      }
    }
  }

  /** Membership in a non-empty sequence: in its prefix, or its last element. */
  lemma InPrefixOrLast<T>(xs: seq<T>, x: T)
    requires xs != []
    ensures x in xs <==> x in xs[..|xs| - 1] || x == xs[|xs| - 1]
  {
    var n := |xs| - 1;
    if x in xs {
      var i :| 0 <= i < |xs| && xs[i] == x;
      if i < n {
        assert xs[..n][i] == x;
      }
    }
    if x in xs[..n] {
      var i :| 0 <= i < n && xs[..n][i] == x;
      assert xs[i] == x;
    }
  }

  /** One pass of the bucketing loop: create the bucket on first sight of its
      status, then append the candidate to it. */
  function AddToBucket(g: Groups, c: Record): Groups {
    var status := StatusOf(c);
    var g1 := if Get(g, status).None? then Put(g, status, []) else g;
    assert Get(g1, status).Some? by {
      if Get(g, status).None? {
        PutSpec(g, status, []);
      }
    }
    Put(g1, status, Get(g1, status).value + [c])
  }

  /** The buckets after the first loop has seen all of cs. */
  function Bucketed(cs: seq<Record>): Groups {
    if cs == [] then [] else AddToBucket(Bucketed(cs[..|cs| - 1]), cs[|cs| - 1])
  }

  /** Bucketing one candidate appends it to the bucket of its status,
      creating that bucket at the end if it is new; other buckets are
      untouched. */
  lemma AddToBucketSpec(g: Groups, c: Record)
    ensures Keys(AddToBucket(g, c)) == if StatusOf(c) in Keys(g) then Keys(g) else Keys(g) + [StatusOf(c)]
    ensures Get(AddToBucket(g, c), StatusOf(c)) == Some(Get(g, StatusOf(c)).GetOr([]) + [c])
    ensures forall s :: s != StatusOf(c) ==> Get(AddToBucket(g, c), s) == Get(g, s)
  {
    var st := StatusOf(c);
    GetSpec(g, st);
    var g1 := if Get(g, st).None? then Put(g, st, []) else g;
    if Get(g, st).None? {
      PutSpec(g, st, []);
    }
    PutSpec(g1, st, Get(g1, st).value + [c]);
  }

  /** The buckets are keyed by the statuses in order of first occurrence. */
  lemma {:induction false} BucketedKeys(cs: seq<Record>)
    ensures Keys(Bucketed(cs)) == FirstSeen(Statuses(cs))
  {
    if cs != [] {
      var n := |cs| - 1;
      var init, c := cs[..n], cs[n];
      var st := StatusOf(c);
      BucketedKeys(init);
      var g := Bucketed(init);
      AddToBucketSpec(g, c);
      var ss := Statuses(cs);
      assert ss == Statuses(init) + [st];
      assert ss[n] == st;
      var prev := FirstSeen(Statuses(init));
      FirstSeenSpec(Statuses(init));
      assert FirstSeen(ss) == prev + (if st in Statuses(init) then [] else [st]);
      assert Keys(g) == prev;
      if st in Statuses(init) {
        assert prev + [] == prev;
      }
    }
  }

  /** The bucket of a status holds exactly its candidates, in input order. */
  lemma {:induction false} BucketedGet(cs: seq<Record>, s: string)
    ensures Get(Bucketed(cs), s) == if s in Statuses(cs) then Some(Members(cs, s)) else None
  {
    if cs != [] {
      var n := |cs| - 1;
      var init, c := cs[..n], cs[n];
      var st := StatusOf(c);
      BucketedGet(init, s);
      var g := Bucketed(init);
      AddToBucketSpec(g, c);
      var ss := Statuses(cs);
      assert ss == Statuses(init) + [st];
      assert s in ss <==> s in Statuses(init) || s == st;
      if s == st {
        MembersSpec(init, s);
        assert Get(g, s).GetOr([]) == Members(init, s);
        assert Members(cs, s) == Members(init, s) + [c];
      } else {
        assert Members(cs, s) == Members(init, s) + [];
        assert Members(cs, s) == Members(init, s);
        assert Get(Bucketed(cs), s) == Get(g, s);
        assert s in ss <==> s in Statuses(init);
        assert Get(g, s) == if s in Statuses(init) then Some(Members(init, s)) else None;
      }
    }
  }

  lemma BucketedSpec(cs: seq<Record>)
    ensures Keys(Bucketed(cs)) == FirstSeen(Statuses(cs))
    ensures Distinct(Keys(Bucketed(cs)))
    ensures forall s :: Get(Bucketed(cs), s) == if s in Statuses(cs) then Some(Members(cs, s)) else None
  {
    BucketedKeys(cs);
    FirstSeenSpec(Statuses(cs));
    forall s ensures Get(Bucketed(cs), s) == if s in Statuses(cs) then Some(Members(cs, s)) else None {
      BucketedGet(cs, s);
    }
  }

  /** The buckets' sizes add up to the number of candidates seen. */
  lemma {:induction false} BucketedTotal(cs: seq<Record>)
    ensures TotalSize(Bucketed(cs)) == |cs|
  {
    if cs != [] {
      var n := |cs| - 1;
      var g, c := Bucketed(cs[..n]), cs[n];
      BucketedTotal(cs[..n]);
      var st := StatusOf(c);
      var g1 := if Get(g, st).None? then Put(g, st, []) else g;
      if Get(g, st).None? {
        TotalSizePut(g, st, []);
        PutSpec(g, st, []);
      }
      TotalSizePut(g1, st, Get(g1, st).value + [c]);
    }
  }

  /** The buckets whose status is in ps, in the order of ps (what the first
      ordering loop has emitted after the first |ps| labels). */
  function PriorityPart(g: Groups, ps: seq<string>): Groups {
    if ps == [] then []
    else
      var p := ps[|ps| - 1];
      PriorityPart(g, ps[..|ps| - 1]) + (match Get(g, p) case Some(v) => [(p, v)] case None => [])
  }

  lemma {:induction false} PriorityPartSpec(g: Groups, ps: seq<string>)
    ensures Keys(PriorityPart(g, ps)) == StringsIn(ps, Keys(g))
    ensures forall s :: Get(PriorityPart(g, ps), s) == if s in ps then Get(g, s) else None
  {
    if ps != [] {
      var n := |ps| - 1;
      var init, p := ps[..n], ps[n];
      assert ps == init + [p];
      PriorityPartSpec(g, init);
      GetSpec(g, p);
      var a := PriorityPart(g, init);
      var b: Groups := match Get(g, p) case Some(v) => [(p, v)] case None => [];
      KeysConcat(a, b);
      forall s ensures Get(PriorityPart(g, ps), s) == if s in ps then Get(g, s) else None {
        GetConcat(a, b, s);
        GetSpec(a, s);
      }
    }
  }

  /** Together, the recognised part and the rest hold every candidate once. */
  lemma {:induction false} PriorityPartTotal(g: Groups, ps: seq<string>)
    requires Distinct(Keys(g))
    requires Distinct(ps)
    ensures TotalSize(PriorityPart(g, ps)) + TotalSize(Without(g, ps)) == TotalSize(g)
  {
    if ps == [] {
      WithoutNothing(g);
    } else {
      var n := |ps| - 1;
      var init, p := ps[..n], ps[n];
      assert ps == init + [p];
      PriorityPartTotal(g, init);
      var a := PriorityPart(g, init);
      var b: Groups := match Get(g, p) case Some(v) => [(p, v)] case None => [];
      TotalSizeConcat(a, b);
      var w := Without(g, init);
      WithoutSpec(g, init);
      StringsNotInSpec(Keys(g), init);
      RemoveWithout(g, init, p);
      TotalSizeRemove(w, p);
    }
  }

  /** The output order: the recognised statuses present, in priority order,
      then the remaining buckets in their order. */
  function Arranged(g: Groups): Groups {
    PriorityPart(g, StatusOrder) + Without(g, StatusOrder)
  }

  /** Reordering neither loses, adds nor changes a bucket, and never
      interleaves recognised with unrecognised statuses. */
  lemma ArrangedSpec(g: Groups)
    requires Distinct(Keys(g))
    ensures Keys(Arranged(g)) == StringsIn(StatusOrder, Keys(g)) + StringsNotIn(Keys(g), StatusOrder)
    ensures Distinct(Keys(Arranged(g)))
    ensures forall s :: Get(Arranged(g), s) == Get(g, s)
    ensures TotalSize(Arranged(g)) == TotalSize(g)
  {
    var a, b := PriorityPart(g, StatusOrder), Without(g, StatusOrder);
    StatusOrderDistinct();
    PriorityPartSpec(g, StatusOrder);
    WithoutSpec(g, StatusOrder);
    StringsInSpec(StatusOrder, Keys(g));
    StringsNotInSpec(Keys(g), StatusOrder);
    KeysConcat(a, b);
    var ka, kb := Keys(a), Keys(b);
    DistinctConcat(ka, kb);
    forall s ensures Get(a + b, s) == Get(g, s) {
      GetConcat(a, b, s);
      GetSpec(a, s);
      GetSpec(g, s);
    }
    TotalSizeConcat(a, b);
    PriorityPartTotal(g, StatusOrder);
  }

  /** One pass of the priority loop: a recognised status with a bucket still
      in the remainder moves that bucket to the end of the output; a status
      without a bucket changes nothing. */
  lemma PriorityStep(g: Groups, j: nat)
    requires j < |StatusOrder|
    ensures var done, status := StatusOrder[..j], StatusOrder[j];
      var rest := Without(g, done);
      && PriorityPart(g, StatusOrder[..j + 1])
         == (if Get(rest, status).Some?
             then Put(PriorityPart(g, done), status, Get(rest, status).value)
             else PriorityPart(g, done))
      && Without(g, StatusOrder[..j + 1])
         == (if Get(rest, status).Some? then Remove(rest, status) else rest)
  {
    var done, status := StatusOrder[..j], StatusOrder[j];
    var rest := Without(g, done);
    PrefixStep(StatusOrder, j);
    StatusOrderDistinct();
    assert status !in done;
    PriorityPartSpec(g, done);
    StringsInSpec(done, Keys(g));
    WithoutSpec(g, done);
    GetSpec(rest, status);
    RemoveWithout(g, done, status);
    assert Get(rest, status) == Get(g, status);
    if Get(rest, status).Some? {
      PutFresh(PriorityPart(g, done), status, Get(rest, status).value);
    } else {
      RemoveAbsent(rest, status);
    }
  }

  /** One pass of the last loop: an entry of the remainder, whose key the
      output does not hold yet, is appended. */
  lemma RestStep(front: Groups, rest: Groups, k: nat)
    requires k < |rest|
    requires Distinct(Keys(front + rest))
    ensures Put(front + rest[..k], rest[k].0, rest[k].1) == front + rest[..k + 1]
  {
    var all, done := front + rest, front + rest[..k];
    assert rest[k].0 !in Keys(done) by {
      assert forall i :: 0 <= i < |done| ==> done[i] == all[i];
      assert all[|front| + k] == rest[k];
      assert forall i :: 0 <= i < |done| ==> Keys(all)[i] != Keys(all)[|front| + k];
    }
    PutFresh(done, rest[k].0, rest[k].1);
    PrefixStep(rest, k);
  }

  /** groupByStatus as a function of the candidates. */
  function Grouped(cs: seq<Record>): Groups {
    Arranged(Bucketed(cs))
  }

  /** The grouping is a partition ordered for presentation: the keys are
      unique; recognised statuses come first in priority order, then the
      others in first-seen order; and the group of a status holds exactly the
      candidates with that status, in input order. */
  lemma GroupedSpec(cs: seq<Record>)
    ensures Distinct(Keys(Grouped(cs)))
    ensures Keys(Grouped(cs)) == StringsIn(StatusOrder, Statuses(cs)) + StringsNotIn(FirstSeen(Statuses(cs)), StatusOrder)
    ensures forall s :: Get(Grouped(cs), s) == if s in Statuses(cs) then Some(Members(cs, s)) else None
  {
    BucketedSpec(cs);
    ArrangedSpec(Bucketed(cs));
    FirstSeenSpec(Statuses(cs));
    StringsInSameMembers(StatusOrder, FirstSeen(Statuses(cs)), Statuses(cs));
  }

  /** The group of a status holds exactly its candidates, in input order,
      and there is one exactly when some candidate has that status. */
  lemma GroupedGet(cs: seq<Record>, s: string)
    ensures Get(Grouped(cs), s) == if s in Statuses(cs) then Some(Members(cs, s)) else None
  {
    BucketedSpec(cs);
    ArrangedSpec(Bucketed(cs));
  }

  /** The group sizes add up to the number of candidates. */
  lemma GroupSizesSum(cs: seq<Record>)
    ensures TotalSize(Grouped(cs)) == |cs|
  {
    BucketedSpec(cs);
    ArrangedSpec(Bucketed(cs));
    BucketedTotal(cs);
  }

  /** Each candidate is in exactly one group: the one of its status. */
  lemma EachCandidateInOneGroup(cs: seq<Record>, i: nat, e: nat)
    requires i < |cs|
    requires e < |Grouped(cs)|
    ensures cs[i] in Grouped(cs)[e].1 <==> Grouped(cs)[e].0 == StatusOf(cs[i])
  {
    var g := Grouped(cs);
    GroupedSpec(cs);
    GetAt(g, e);
    var key := g[e].0;
    assert Get(g, key) == Some(Members(cs, key));
    MembersSpec(cs, key);
  }

  /** No group is empty. */
  lemma GroupsNonEmpty(cs: seq<Record>, e: nat)
    requires e < |Grouped(cs)|
    ensures Grouped(cs)[e].1 != []
  {
    var g := Grouped(cs);
    GroupedSpec(cs);
    GetAt(g, e);
    MembersSpec(cs, g[e].0);
  }

  /** groupByStatus: the bucketing loop, then the priority loop (which moves
      recognised buckets out of $grouped), then the loop over what is left. */
  method GroupByStatus(candidates: seq<Record>) returns (ordered: Groups)
    ensures ordered == Grouped(candidates)
    ensures Distinct(Keys(ordered))
    ensures Keys(ordered) == StringsIn(StatusOrder, Statuses(candidates))
      + StringsNotIn(FirstSeen(Statuses(candidates)), StatusOrder)
    ensures forall s :: (Get(ordered, s)
      == if s in Statuses(candidates) then Some(Members(candidates, s)) else None)
  {
    var grouped: Groups := [];
    for i := 0 to |candidates|
      invariant grouped == Bucketed(candidates[..i])
    {
      assert candidates[..i + 1][..i] == candidates[..i];
      var candidate := candidates[i];
      var status := StatusOf(candidate);
      if Get(grouped, status).None? {
        PutSpec(grouped, status, []);
        grouped := Put(grouped, status, []);
      }
      grouped := Put(grouped, status, Get(grouped, status).value + [candidate]);
    }
    assert candidates[..|candidates|] == candidates;

    ghost var all := grouped;
    assert Distinct(Keys(all)) by {
      BucketedSpec(candidates);
    }
    WithoutNothing(all);
    ordered := [];
    for j := 0 to |StatusOrder|
      invariant ordered == PriorityPart(all, StatusOrder[..j])
      invariant grouped == Without(all, StatusOrder[..j])
    {
      var status := StatusOrder[j];
      PriorityStep(all, j);
      if Get(grouped, status).Some? {
        ordered := Put(ordered, status, Get(grouped, status).value);
        grouped := Remove(grouped, status);
      }
    }
    assert StatusOrder[..|StatusOrder|] == StatusOrder;

    ghost var front := ordered;
    assert Distinct(Keys(front + grouped)) by {
      ArrangedSpec(all);
    }
    for k := 0 to |grouped|
      invariant ordered == front + grouped[..k]
    {
      var (status, members) := grouped[k];
      RestStep(front, grouped, k);
      ordered := Put(ordered, status, members);
    }
    assert grouped[..|grouped|] == grouped;
    GroupedSpec(candidates);
  }
}
