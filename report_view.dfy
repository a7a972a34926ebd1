/**
 * The part of the PDF view that depends on the grouping: one section per
 * group that has candidates, headed by its status (with "Screening" shown as
 * "DeWinter Screening"), listing each candidate's name and company.
 */
module ReportView {
  import opened Wrappers
  import opened OrderedDict
  import opened CsvFetch
  import opened StatusGrouper

  /** The heading printed for a status. */
  function Heading(status: string): string {
    if status == "Screening" then "DeWinter Screening" else status
  }

  /** A table row: the Candidate and Company cells, blank when missing. */
  function Row(c: Record): (string, string) {
    (Get(c, "Candidate").GetOr(""), Get(c, "Company").GetOr(""))
  }

  function Rows(cs: seq<Record>): (rows: seq<(string, string)>)
    ensures |rows| == |cs|
    ensures forall i :: 0 <= i < |cs| ==> rows[i] == Row(cs[i])
  {
    if cs == [] then [] else Rows(cs[..|cs| - 1]) + [Row(cs[|cs| - 1])]
  }

  datatype Section = Section(heading: string, rows: seq<(string, string)>)

  /** The sections rendered for the groups, in group order; a group without
      candidates renders nothing. */
  function Sections(g: Groups): seq<Section> {
    if g == [] then []
    else
      var n := |g| - 1;
      var (status, cs) := g[n];
      Sections(g[..n]) + (if |cs| > 0 then [Section(Heading(status), Rows(cs))] else [])
  }

  /** Two statuses get the same heading only when they are equal or are
      "Screening" and "DeWinter Screening". */
  lemma HeadingCollision(s: string, t: string)
    ensures Heading(s) == Heading(t) <==>
      s == t || {s, t} == {"Screening", "DeWinter Screening"}
  {
    if s != t && Heading(s) == Heading(t) {
      assert s == "Screening" || t == "Screening";
    }
    if {s, t} == {"Screening", "DeWinter Screening"} && s != t {
      assert s in {s, t} && t in {s, t};
    }
  }

  /** With nothing skipped, section i shows group i. */
  lemma {:induction false} SectionsOfNonEmpty(g: Groups)
    requires forall e :: 0 <= e < |g| ==> g[e].1 != []
    ensures |Sections(g)| == |g|
    ensures forall e :: 0 <= e < |g| ==>
      Sections(g)[e] == Section(Heading(g[e].0), Rows(g[e].1))
  {
    if g != [] {
      var n := |g| - 1;
      var init := g[..n];
      assert forall e :: 0 <= e < n ==> init[e] == g[e];
      SectionsOfNonEmpty(init);
      var prev, last := Sections(init), Section(Heading(g[n].0), Rows(g[n].1));
      assert Sections(g) == prev + [last];
      forall e | 0 <= e < |g|
        ensures Sections(g)[e] == Section(Heading(g[e].0), Rows(g[e].1))
      {
        if e < n {
          assert Sections(g)[e] == prev[e];
          assert prev[e] == Section(Heading(init[e].0), Rows(init[e].1));
        }
      }
    }
  }

  /** Empty groups never reach the page, and every section has rows. */
  lemma {:induction false} SectionsHaveRows(g: Groups)
    ensures |Sections(g)| <= |g|
    ensures forall i :: 0 <= i < |Sections(g)| ==> Sections(g)[i].rows != []
  {
    if g != [] {
      SectionsHaveRows(g[..|g| - 1]);
    }
  }

  /** The grouping never produces an empty group, so the view shows one
      section per group, in the grouping's order. */
  lemma SectionsOfGrouped(cs: seq<Record>)
    ensures |Sections(Grouped(cs))| == |Grouped(cs)|
    ensures forall e :: 0 <= e < |Grouped(cs)| ==>
      Sections(Grouped(cs))[e] == Section(Heading(Grouped(cs)[e].0), Rows(Grouped(cs)[e].1))
  {
    forall e | 0 <= e < |Grouped(cs)| ensures Grouped(cs)[e].1 != [] {
      GroupsNonEmpty(cs, e);
    }
    SectionsOfNonEmpty(Grouped(cs));
  }
}
