/** The group branch name (for example `rhaos-3.9-rhel-7`) and everything
    the commands derive from it: the release `3.9`, its major and minor
    components, the product version and the base tag. */
module Branch {

  /** Python's `s.split(sep)` for a one-character separator: the pieces
      between separators, empty pieces included. */
  function Split(s: string, sep: char): (r: seq<string>)
    ensures |r| >= 1
    ensures forall k :: 0 <= k < |r| ==> sep !in r[k]
    ensures forall k, c :: 0 <= k < |r| && c in r[k] ==> c in s
    ensures r[0] <= s && (|r[0]| == |s| || s[|r[0]|] == sep)
  {
    if s == [] then [[]]
    else
      var rest := Split(s[1..], sep);
      assert forall c :: c in s[1..] ==> c in s;
      if s[0] == sep then [[]] + rest
      else [[s[0]] + rest[0]] + rest[1..]
  }

  /** Python's `sep.join(pieces)`. */
  function Join(pieces: seq<string>, sep: char): string
    requires |pieces| >= 1
  {
    if |pieces| == 1 then pieces[0] else pieces[0] + [sep] + Join(pieces[1..], sep)
  }

  /** A separator-free string is its own only piece. */
  lemma {:induction false} SplitNoSeparator(a: string, sep: char)
    requires sep !in a
    ensures Split(a, sep) == [a]
  {
    if a != [] {
      SplitNoSeparator(a[1..], sep);
      assert a == [a[0]] + a[1..];
    }
  }

  /** Splitting at the first separator. */
  lemma {:induction false} SplitAtFirst(a: string, t: string, sep: char)
    requires sep !in a
    ensures Split(a + [sep] + t, sep) == [a] + Split(t, sep)
  {
    var s := a + [sep] + t;
    if a == [] {
      assert s[0] == sep && s[1..] == t;
    } else {
      assert s[0] == a[0] && s[1..] == a[1..] + [sep] + t;
      SplitAtFirst(a[1..], t, sep);
      assert [a[0]] + a[1..] == a;
    }
  }

  /** Joining the pieces gives back the string that was split. */
  lemma {:induction false} JoinSplit(s: string, sep: char)
    ensures Join(Split(s, sep), sep) == s
  {
    var r := Split(s, sep);
    var i := |r[0]|;
    if i == |s| {
      assert r[0] == s;
      SplitNoSeparator(s, sep);
    } else {
      assert s == s[..i] + [sep] + s[i + 1..];
      assert s[..i] == r[0];
      SplitAtFirst(s[..i], s[i + 1..], sep);
      JoinSplit(s[i + 1..], sep);
      assert r[1..] == Split(s[i + 1..], sep);
    }
  }

  /** Splitting a join of separator-free pieces gives back the pieces. */
  lemma {:induction false} SplitJoin(pieces: seq<string>, sep: char)
    requires |pieces| >= 1
    requires forall k :: 0 <= k < |pieces| ==> sep !in pieces[k]
    ensures Split(Join(pieces, sep), sep) == pieces
  {
    if |pieces| == 1 {
      SplitNoSeparator(pieces[0], sep);
    } else {
      SplitJoin(pieces[1..], sep);
      SplitAtFirst(pieces[0], Join(pieces[1..], sep), sep);
      assert pieces == [pieces[0]] + pieces[1..];
    }
  }

  /** `ver.split('-')[1]` exists. */
  predicate HasRelease(branch: string)
  {
    |Split(branch, '-')| >= 2
  }

  /** `ver.split('-')[1].split('.')[1]` exists. */
  predicate HasMinor(branch: string)
  {
    HasRelease(branch) && |Split(Split(branch, '-')[1], '.')| >= 2
  }

  /** The release: the text between the first and the second '-' of the branch. */
  function ReleaseFromBranch(branch: string): (r: string)
    requires HasRelease(branch)
    ensures '-' !in r
    ensures exists i :: 0 <= i < |branch| && branch[i] == '-' && '-' !in branch[..i]
                        && r <= branch[i + 1..]
                        && (i + 1 + |r| == |branch| || branch[i + 1 + |r|] == '-')
  {
    var pieces := Split(branch, '-');
    var i := |pieces[0]|;
    assert i < |branch| by {
      if i == |branch| {
        assert pieces[0] == branch;
        SplitNoSeparator(branch, '-');
      }
    }
    assert branch == branch[..i] + ['-'] + branch[i + 1..];
    assert branch[..i] == pieces[0];
    SplitAtFirst(branch[..i], branch[i + 1..], '-');
    pieces[1]
  }

  /** The major version: the release up to its first '.'. */
  function MajorFromBranch(branch: string): (r: string)
    requires HasRelease(branch)
    ensures '-' !in r && '.' !in r
    ensures r <= ReleaseFromBranch(branch)
    ensures |r| == |ReleaseFromBranch(branch)| || ReleaseFromBranch(branch)[|r|] == '.'
  {
    Split(ReleaseFromBranch(branch), '.')[0]
  }

  /** The minor version: the text between the first and the second '.' of the release. */
  function MinorFromBranch(branch: string): (r: string)
    requires HasMinor(branch)
    ensures '-' !in r && '.' !in r
    ensures var rel := ReleaseFromBranch(branch);
            var k := |MajorFromBranch(branch)|;
            k < |rel| && rel[k] == '.' && r <= rel[k + 1..]
            && (k + 1 + |r| == |rel| || rel[k + 1 + |r|] == '.')
  {
    var rel := ReleaseFromBranch(branch);
    var pieces := Split(rel, '.');
    var k := |pieces[0]|;
    assert k < |rel| by {
      if k == |rel| {
        assert pieces[0] == rel;
        SplitNoSeparator(rel, '.');
      }
    }
    assert rel == rel[..k] + ['.'] + rel[k + 1..];
    assert rel[..k] == pieces[0];
    SplitAtFirst(rel[..k], rel[k + 1..], '.');
    pieces[1]
  }

  /** `X.Y` rebuilt from the major and the minor is the start of the release. */
  lemma MajorDotMinorStartsRelease(branch: string)
    requires HasMinor(branch)
    ensures MajorFromBranch(branch) + "." + MinorFromBranch(branch) <= ReleaseFromBranch(branch)
  {
    var rel, major, minor := ReleaseFromBranch(branch), MajorFromBranch(branch), MinorFromBranch(branch);
    var k := |major|;
    var xy := major + "." + minor;
    assert |xy| <= |rel|;
    forall n | 0 <= n < |xy|
      ensures xy[n] == rel[n]
    {
      if n > k {
        assert rel[k + 1..][n - k - 1] == minor[n - k - 1];
      }
    }
  }

  /** `RHEL-7-OSE-X.Y`, as `find_builds` builds it: the product prefix, then
      the start of the release whose '.'-pieces are the major and the minor. */
  function ProductVersion(branch: string): (r: string)
    requires HasMinor(branch)
    ensures |r| > 11 && r[..11] == "RHEL-7-OSE-"
    ensures r[11..] <= ReleaseFromBranch(branch)
    ensures Split(r[11..], '.') == [MajorFromBranch(branch), MinorFromBranch(branch)]
  {
    var major, minor := MajorFromBranch(branch), MinorFromBranch(branch);
    var r := "RHEL-7-OSE-" + major + "." + minor;
    assert r[11..] == major + "." + minor;
    MajorDotMinorStartsRelease(branch);
    assert Join([major, minor], '.') == major + "." + minor;
    SplitJoin([major, minor], '.');
    r
  }

  /** The branch of group `openshift-X.Y`. */
  function GroupBranch(major: string, minor: string): string
  {
    "rhaos-" + major + "." + minor + "-rhel-7"
  }

  /** Parsing the branch of `openshift-X.Y` recovers X and Y. */
  lemma ParseGroupBranch(major: string, minor: string)
    requires '-' !in major && '.' !in major
    requires '-' !in minor && '.' !in minor
    ensures HasMinor(GroupBranch(major, minor))
    ensures ReleaseFromBranch(GroupBranch(major, minor)) == major + "." + minor
    ensures MajorFromBranch(GroupBranch(major, minor)) == major
    ensures MinorFromBranch(GroupBranch(major, minor)) == minor
  {
    var rel := major + "." + minor;
    var b := GroupBranch(major, minor);
    var dashPieces := ["rhaos", rel, "rhel", "7"];
    assert '-' !in rel by {
      assert forall c :: c in rel ==> c in major || c == '.' || c in minor;
    }
    assert Join(dashPieces, '-') == b by {
      assert Join(dashPieces[3..], '-') == "7";
      assert Join(dashPieces[2..], '-') == "rhel-7";
      assert Join(dashPieces[1..], '-') == rel + "-rhel-7";
    }
    SplitJoin(dashPieces, '-');
    assert Join([major, minor], '.') == rel;
    SplitJoin([major, minor], '.');
  }

  /** `rhaos-X.Y-rhel-7`, as `find_builds` builds it: a branch name whose
      major and minor are those of the given branch. */
  function BaseTag(branch: string): (r: string)
    requires HasMinor(branch)
    ensures r == GroupBranch(MajorFromBranch(branch), MinorFromBranch(branch))
    ensures HasMinor(r)
    ensures MajorFromBranch(r) == MajorFromBranch(branch) && MinorFromBranch(r) == MinorFromBranch(branch)
    ensures ReleaseFromBranch(r) <= ReleaseFromBranch(branch)
  {
    var major, minor := MajorFromBranch(branch), MinorFromBranch(branch);
    ParseGroupBranch(major, minor);
    MajorDotMinorStartsRelease(branch);
    "rhaos-" + major + "." + minor + "-rhel-7"
  }

  /** For `rhaos-X.Y-rhel-7` (X, Y free of '-' and '.'): release `X.Y`, major X,
      minor Y, product version `RHEL-7-OSE-X.Y`, and the base tag is the branch. */
  lemma BranchComponents(major: string, minor: string)
    requires '-' !in major && '.' !in major
    requires '-' !in minor && '.' !in minor
    ensures HasMinor(GroupBranch(major, minor))
    ensures ReleaseFromBranch(GroupBranch(major, minor)) == major + "." + minor
    ensures MajorFromBranch(GroupBranch(major, minor)) == major
    ensures MinorFromBranch(GroupBranch(major, minor)) == minor
    ensures ProductVersion(GroupBranch(major, minor)) == "RHEL-7-OSE-" + major + "." + minor
    ensures BaseTag(GroupBranch(major, minor)) == GroupBranch(major, minor)
  {
    ParseGroupBranch(major, minor);
  }
}
