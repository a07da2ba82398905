/** `advisory:find-bugs`: which bugs to sweep into an advisory, the flags
    put on them, and the report of the bugs the advisory accepted. */
module FindBugs {
  import opened Wrappers
  import opened Seqs
  import opened Branch
  import opened Bugzilla

  /** Where the bugs come from: a search by target release, or the ids given. */
  datatype BugSelection = SearchTargetReleases(targetReleases: seq<string>) | ById(ids: seq<int>)

  datatype OptionError = AutoWithIds | NoBugsGiven

  /** The releases searched in `--auto` mode for minor version Y: `3.Y.z`, then
      `3.Y.0`; each reads back, split on '.', as major 3, minor Y and a stream. */
  function TargetReleases(minor: string): (r: seq<string>)
    ensures |r| == 2
    ensures '.' !in minor ==> Split(r[0], '.') == ["3", minor, "z"] && Split(r[1], '.') == ["3", minor, "0"]
  {
    var r := ["3." + minor + ".z", "3." + minor + ".0"];
    if '.' !in minor then
      assert Join(["3", minor, "z"], '.') == r[0] by {
        assert Join(["3", minor, "z"][1..], '.') == minor + ".z";
      }
      assert Join(["3", minor, "0"], '.') == r[1] by {
        assert Join(["3", minor, "0"][1..], '.') == minor + ".0";
      }
      SplitJoin(["3", minor, "z"], '.');
      SplitJoin(["3", minor, "0"], '.');
      r
    else
      r
  }

  /** The option checks of `find_bugs`. The branch is read only in `--auto` mode. */
  function SelectBugs(auto: bool, ids: seq<int>, branch: string): (r: Result<BugSelection, OptionError>)
    requires auto && ids == [] ==> HasMinor(branch)
    ensures r.Err? <==> (auto <==> |ids| > 0)
    ensures auto && |ids| > 0 ==> r == Err(AutoWithIds)
    ensures !auto && ids == [] ==> r == Err(NoBugsGiven)
    ensures auto && ids == [] ==> r == Ok(SearchTargetReleases(TargetReleases(MinorFromBranch(branch))))
    ensures !auto && |ids| > 0 ==> r == Ok(ById(ids))
  {
    if auto && |ids| > 0 then Err(AutoWithIds)
    else if auto then Ok(SearchTargetReleases(TargetReleases(MinorFromBranch(branch))))
    else if |ids| == 0 then Err(NoBugsGiven)
    else Ok(ById(ids))
  }

  /** For group `openshift-X.Y`, `--auto` searches `3.Y.z` and `3.Y.0`; the
      major version X plays no part. */
  lemma AutoSearchesMinorReleases(major: string, minor: string)
    requires '-' !in major && '.' !in major
    requires '-' !in minor && '.' !in minor
    ensures HasMinor(GroupBranch(major, minor))
    ensures SelectBugs(true, [], GroupBranch(major, minor))
         == Ok(SearchTargetReleases(["3." + minor + ".z", "3." + minor + ".0"]))
  {
    BranchComponents(major, minor);
  }

  /** The `--flag` loop: every bug found receives the flags given, in order.
      The bug objects are distinct, each having been built on its own. */
  method AddFlagsToAll(bugs: seq<Bug>, flags: seq<string>)
    requires forall i, j :: 0 <= i < j < |bugs| ==> bugs[i] != bugs[j]
    modifies set i | 0 <= i < |bugs| :: bugs[i]
    ensures forall i :: 0 <= i < |bugs| ==> bugs[i].flags == old(bugs[i].flags) + flags
    ensures forall i :: 0 <= i < |bugs| ==>
              bugs[i].whiteboard == old(bugs[i].whiteboard) && bugs[i].comments == old(bugs[i].comments)
  {
    if |flags| > 0 {
      for k := 0 to |bugs|
        invariant forall i :: 0 <= i < k ==> bugs[i].flags == old(bugs[i].flags) + flags
        invariant forall i :: k <= i < |bugs| ==> bugs[i].flags == old(bugs[i].flags)
        invariant forall i :: 0 <= i < |bugs| ==>
                    bugs[i].whiteboard == old(bugs[i].whiteboard) && bugs[i].comments == old(bugs[i].comments)
      {
        bugs[k].AddFlags(flags);
      }
    } else {
      assert forall i :: 0 <= i < |bugs| ==> old(bugs[i].flags) + flags == old(bugs[i].flags);
    }
  }

  /** One reply of the advisory service to adding one bug. */
  datatype AddBugResponse = AddBugResponse(bugId: int, statusCode: int)

  /** 201 is the only status reported as "Added bug". */
  predicate BugAdded(response: AddBugResponse)
  {
    response.statusCode == 201
  }

  predicate BugNotAdded(response: AddBugResponse)
  {
    !BugAdded(response)
  }

  /** The report loop over the service's replies: the bugs added and the bugs
      that failed, each in reply order. */
  method ReportAddedBugs(responses: seq<AddBugResponse>) returns (added: seq<AddBugResponse>, failed: seq<AddBugResponse>)
    ensures added == Filter(responses, BugAdded)
    ensures failed == Filter(responses, BugNotAdded)
    ensures |added| + |failed| == |responses|
  {
    added, failed := [], [];
    for i := 0 to |responses|
      invariant added == Filter(responses[..i], BugAdded)
      invariant failed == Filter(responses[..i], BugNotAdded)
    {
      var response := responses[i];
      ghost var done := responses[..i];
      assert responses[..i + 1] == done + [response];
      FilterSnoc(done, response, BugAdded);
      FilterSnoc(done, response, BugNotAdded);
      if BugAdded(response) {
        added := added + [response];
      } else {
        failed := failed + [response];
      }
    }
    assert responses[..|responses|] == responses;
    assert forall x :: BugNotAdded(x) == !BugAdded(x);
    FilterComplementLength(responses, BugAdded, BugNotAdded);
  }
}
