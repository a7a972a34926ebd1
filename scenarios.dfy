/**
 * Worked instances of the grouping on the inputs of the repository's
 * feature tests for the generator service.
 */
module Scenarios {
  import opened Wrappers
  import opened Text
  import opened OrderedDict
  import opened CsvFetch
  import opened StatusGrouper

  /** A sheet row as the tests write it: name, company and status. */
  type Row = (string, string, string)

  function Candidate(row: Row): Record {
    [("Candidate", row.0), ("Company", row.1), ("Status", row.2)]
  }

  function Candidates(rows: seq<Row>): (cs: seq<Record>)
    ensures |cs| == |rows|
    ensures forall i :: 0 <= i < |rows| ==> cs[i] == Candidate(rows[i])
  {
    if rows == [] then [] else Candidates(rows[..|rows| - 1]) + [Candidate(rows[|rows| - 1])]
  }

  /** A candidate's status is its Status cell, once that is trimmed. */
  lemma StatusOfCandidate(row: Row)
    requires IsTrimmed(row.2)
    ensures StatusOf(Candidate(row)) == row.2
  {
    var c := Candidate(row);
    assert c[0].0 != "Status" && c[1].0 != "Status" && c[2].0 == "Status";
    assert Get(c[2..], "Status") == Some(row.2);
    assert Get(c[1..], "Status") == Get(c[1..][1..], "Status");
    assert c[1..][1..] == c[2..];
    TrimSpec(row.2);
  }

  /** With trimmed Status cells, the statuses are the Status column. */
  lemma StatusesOfCandidates(rows: seq<Row>)
    requires forall i :: 0 <= i < |rows| ==> IsTrimmed(rows[i].2)
    ensures forall i :: 0 <= i < |rows| ==> Statuses(Candidates(rows))[i] == rows[i].2
  {
    forall i | 0 <= i < |rows| ensures Statuses(Candidates(rows))[i] == rows[i].2 {
      StatusOfCandidate(rows[i]);
    }
  }

  /** The rows of the ordering example. */
  const MixedRows: seq<Row> := [
    ("Person 1", "Co", "Rejected"),
    ("Person 2", "Co", "Screening"),
    ("Person 3", "Co", "Interviewing"),
    ("Person 4", "Co", "Submitted"),
    ("Person 5", "Co", "Not Interested")
  ]

  const MixedStatuses: seq<string> :=
    ["Rejected", "Screening", "Interviewing", "Submitted", "Not Interested"]

  lemma MixedRowsTrimmed()
    ensures forall i :: 0 <= i < |MixedRows| ==> IsTrimmed(MixedRows[i].2)
    ensures forall i :: 0 <= i < |MixedRows| ==> MixedRows[i].2 == MixedStatuses[i]
  {
  }

  lemma MixedStatusesOf()
    ensures Statuses(Candidates(MixedRows)) == MixedStatuses
  {
    MixedRowsTrimmed();
    StatusesOfCandidates(MixedRows);
  }

  function Keep(s: string, ks: seq<string>): seq<string> {
    if s in ks then [s] else []
  }

  /** StringsIn over the first five of a list, written out. */
  lemma StringsInFive(ps: seq<string>, ks: seq<string>)
    requires |ps| >= 5
    ensures StringsIn(ps[..5], ks) ==
      Keep(ps[0], ks) + Keep(ps[1], ks) + Keep(ps[2], ks) + Keep(ps[3], ks) + Keep(ps[4], ks)
  {
    var k0 := Keep(ps[0], ks);
    assert StringsIn(ps[..1], ks) == k0 by {
      StringsInStep(ps, ks, 0);
      assert ps[..0] == [];
    }
    var k1 := k0 + Keep(ps[1], ks);
    assert StringsIn(ps[..2], ks) == k1 by { StringsInStep(ps, ks, 1); }
    var k2 := k1 + Keep(ps[2], ks);
    assert StringsIn(ps[..3], ks) == k2 by { StringsInStep(ps, ks, 2); }
    var k3 := k2 + Keep(ps[3], ks);
    assert StringsIn(ps[..4], ks) == k3 by { StringsInStep(ps, ks, 3); }
    StringsInStep(ps, ks, 4);
  }

  /** StringsIn over a list of nine, written out. */
  lemma StringsInNine(ps: seq<string>, ks: seq<string>)
    requires |ps| == 9
    ensures StringsIn(ps, ks) ==
      Keep(ps[0], ks) + Keep(ps[1], ks) + Keep(ps[2], ks) + Keep(ps[3], ks) + Keep(ps[4], ks)
      + Keep(ps[5], ks) + Keep(ps[6], ks) + Keep(ps[7], ks) + Keep(ps[8], ks)
  {
    var k4 := Keep(ps[0], ks) + Keep(ps[1], ks) + Keep(ps[2], ks) + Keep(ps[3], ks) + Keep(ps[4], ks);
    assert StringsIn(ps[..5], ks) == k4 by { StringsInFive(ps, ks); }
    var k5 := k4 + Keep(ps[5], ks);
    assert StringsIn(ps[..6], ks) == k5 by { StringsInStep(ps, ks, 5); }
    var k6 := k5 + Keep(ps[6], ks);
    assert StringsIn(ps[..7], ks) == k6 by { StringsInStep(ps, ks, 6); }
    var k7 := k6 + Keep(ps[7], ks);
    assert StringsIn(ps[..8], ks) == k7 by { StringsInStep(ps, ks, 7); }
    assert StringsIn(ps[..9], ks) == k7 + Keep(ps[8], ks) by { StringsInStep(ps, ks, 8); }
    assert ps[..9] == ps;
  }

  /** Which of the recognised statuses occur in the example. */
  lemma MixedKeeps()
    ensures var so, ms := StatusOrder, MixedStatuses;
      && Keep(so[0], ms) == ["Interviewing"] && Keep(so[1], ms) == ["Submitted"]
      && Keep(so[2], ms) == [] && Keep(so[3], ms) == ["Screening"]
      && Keep(so[4], ms) == ["Rejected"] && Keep(so[5], ms) == []
      && Keep(so[6], ms) == [] && Keep(so[7], ms) == []
      && Keep(so[8], ms) == ["Not Interested"]
  {
    var so, ms := StatusOrder, MixedStatuses;
    assert so[0] == ms[2] && so[1] == ms[3] && so[3] == ms[1] && so[4] == ms[0] && so[8] == ms[4];
  }

  /** The recognised statuses among the example's, in priority order. */
  lemma MixedPriorityPart()
    ensures StringsIn(StatusOrder, MixedStatuses) ==
      ["Interviewing", "Submitted", "Screening", "Rejected", "Not Interested"]
  {
    StringsInNine(StatusOrder, MixedStatuses);
    MixedKeeps();
  }

  /** Every status of the example is a recognised one. */
  lemma MixedAllRecognised()
    ensures StringsNotIn(FirstSeen(MixedStatuses), StatusOrder) == []
  {
    var ms, so := MixedStatuses, StatusOrder;
    assert ms[0] == so[4] && ms[1] == so[3] && ms[2] == so[0] && ms[3] == so[1] && ms[4] == so[8];
    FirstSeenSpec(ms);
    StringsNotInAllExcluded(FirstSeen(ms), so);
  }

  /** Recognised statuses come out in the fixed priority order, whatever the
      input order: Interviewing, Submitted, Screening, Rejected, Not Interested. */
  lemma MixedStatusesOrdered()
    ensures Keys(Grouped(Candidates(MixedRows))) ==
      ["Interviewing", "Submitted", "Screening", "Rejected", "Not Interested"]
  {
    GroupedSpec(Candidates(MixedRows));
    MixedStatusesOf();
    MixedPriorityPart();
    MixedAllRecognised();
  }

  /** The rows of the grouping example. */
  const SubmissionRows: seq<Row> := [
    ("John Doe", "Acme", "Submitted"),
    ("Jane Smith", "Tech Corp", "Interviewing"),
    ("Bob Wilson", "Startup", "Submitted"),
    ("Alice Brown", "BigCo", "Rejected")
  ]

  /** One more candidate for the members of a status. */
  lemma MembersStep(cs: seq<Record>, s: string, k: nat)
    requires k < |cs|
    ensures Members(cs[..k + 1], s) == Members(cs[..k], s) + (if Statuses(cs)[k] == s then [cs[k]] else [])
  {
    assert cs[..k + 1][..k] == cs[..k];
  }

  /** The members of a status among the first two candidates. */
  lemma MembersOfTwo(cs: seq<Record>, s: string)
    requires |cs| >= 2
    ensures var ss := Statuses(cs);
      Members(cs[..2], s) == (if ss[0] == s then [cs[0]] else []) + (if ss[1] == s then [cs[1]] else [])
  {
    var ss := Statuses(cs);
    assert Members(cs[..1], s) == (if ss[0] == s then [cs[0]] else []) by {
      MembersStep(cs, s, 0);
      assert cs[..0] == [];
    }
    MembersStep(cs, s, 1);
  }

  /** The members of a status among four candidates, given their statuses. */
  lemma MembersOfFour(cs: seq<Record>, s: string)
    requires |cs| == 4
    ensures var ss := Statuses(cs);
      Members(cs, s) ==
        (if ss[0] == s then [cs[0]] else []) + (if ss[1] == s then [cs[1]] else [])
        + (if ss[2] == s then [cs[2]] else []) + (if ss[3] == s then [cs[3]] else [])
  {
    var ss := Statuses(cs);
    var m1 := (if ss[0] == s then [cs[0]] else []) + (if ss[1] == s then [cs[1]] else []);
    assert Members(cs[..2], s) == m1 by { MembersOfTwo(cs, s); }
    var m2 := m1 + (if ss[2] == s then [cs[2]] else []);
    assert Members(cs[..3], s) == m2 by { MembersStep(cs, s, 2); }
    assert Members(cs[..4], s) == m2 + (if ss[3] == s then [cs[3]] else []) by { MembersStep(cs, s, 3); }
    assert cs[..4] == cs;
  }

  /** The group of a status that occurs is its list of members. */
  lemma GroupIs(cs: seq<Record>, s: string, k: nat, ms: seq<Record>)
    requires k < |cs| && Statuses(cs)[k] == s
    requires Members(cs, s) == ms
    ensures Get(Grouped(cs), s) == Some(ms)
  {
    GroupedGet(cs, s);
  }

  /** Four candidates with statuses Submitted, Interviewing, Submitted,
      Rejected, in that order. */
  predicate SubmissionPattern(cs: seq<Record>) {
    |cs| == 4
    && Statuses(cs)[0] == "Submitted" && Statuses(cs)[1] == "Interviewing"
    && Statuses(cs)[2] == "Submitted" && Statuses(cs)[3] == "Rejected"
  }

  lemma SubmittedMembers(cs: seq<Record>)
    requires SubmissionPattern(cs)
    ensures Members(cs, "Submitted") == [cs[0], cs[2]]
  {
    MembersOfFour(cs, "Submitted");
    assert "Interviewing" != "Submitted" && "Rejected" != "Submitted";
    assert Members(cs, "Submitted") == [cs[0]] + [] + [cs[2]] + [];
  }

  lemma InterviewingMembers(cs: seq<Record>)
    requires SubmissionPattern(cs)
    ensures Members(cs, "Interviewing") == [cs[1]]
  {
    MembersOfFour(cs, "Interviewing");
    assert "Submitted" != "Interviewing" && "Rejected" != "Interviewing";
    assert Members(cs, "Interviewing") == [] + [cs[1]] + [] + [];
  }

  lemma RejectedMembers(cs: seq<Record>)
    requires SubmissionPattern(cs)
    ensures Members(cs, "Rejected") == [cs[3]]
  {
    MembersOfFour(cs, "Rejected");
    assert "Submitted" != "Rejected" && "Interviewing" != "Rejected";
    assert Members(cs, "Rejected") == [] + [] + [] + [cs[3]];
  }

  /** In that pattern each bucket holds its candidates as a plain list. */
  lemma FourGrouped(cs: seq<Record>)
    requires SubmissionPattern(cs)
    ensures Get(Grouped(cs), "Submitted") == Some([cs[0], cs[2]])
    ensures Get(Grouped(cs), "Interviewing") == Some([cs[1]])
    ensures Get(Grouped(cs), "Rejected") == Some([cs[3]])
  {
    SubmittedMembers(cs);
    InterviewingMembers(cs);
    RejectedMembers(cs);
    GroupIs(cs, "Submitted", 0, [cs[0], cs[2]]);
    GroupIs(cs, "Interviewing", 1, [cs[1]]);
    GroupIs(cs, "Rejected", 3, [cs[3]]);
  }

  lemma SubmissionStatuses()
    ensures SubmissionPattern(Candidates(SubmissionRows))
  {
    assert forall i :: 0 <= i < |SubmissionRows| ==> IsTrimmed(SubmissionRows[i].2);
    StatusesOfCandidates(SubmissionRows);
  }

  /** Each bucket holds the candidates of its status as a plain list, in
      input order: two submitted, one interviewing, one rejected. */
  lemma SubmissionsGrouped()
    ensures var cs := Candidates(SubmissionRows);
      && Get(Grouped(cs), "Submitted") == Some([cs[0], cs[2]])
      && Get(Grouped(cs), "Interviewing") == Some([cs[1]])
      && Get(Grouped(cs), "Rejected") == Some([cs[3]])
  {
    SubmissionStatuses();
    FourGrouped(Candidates(SubmissionRows));
  }
}
