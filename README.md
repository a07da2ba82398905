# elliott release-advisory decisions, modelled in Dafny

`elliott` is a command-line tool for release engineers: it creates release
advisories, sweeps bugs into them, and proposes the builds that may ship in
them. Most of it wires command-line options to network clients. This project
models the decisions those commands make themselves, and proves what they
guarantee:

- how a group branch such as `rhaos-3.9-rhel-7` is split into the release
  `3.9`, the major `3` and the minor `9`, and how the product version
  `RHEL-7-OSE-3.9`, the base tag `rhaos-3.9-rhel-7` and the bug target
  releases `3.9.z` / `3.9.0` are built from them (module `Branch`, and
  `FindBugs.SelectBugs`);
- the release date of a new advisory (`Create`). Dates are day numbers
  counted from 1970-01-01, a Thursday, so the `%w` weekday is `(d + 4) % 7`;
- the email-address check of the `advisory:create` options (`Validation`);
- the option checks, the flag loop and the report loop of
  `advisory:find-bugs` (`FindBugs`);
- the build pipeline of `advisory:find-builds`: fetching build records,
  dropping non-release images, dropping rpm builds already attached to an
  open advisory, and the sorted dry-run listing (`FindBuilds`);
- how `advisory:add-metadata` reads the service's status code (`AddMetadata`);
- the flag-once loop of `bugzilla:find-transitions` over bug objects whose
  comments and whiteboard it updates in place (`FindTransitions`, with the
  bug object in `Bugzilla`).

`Wrappers` holds the `Option` and `Result` types. The errors the modelled
decisions end the command with (the option checks of `find_bugs`, the
release-date lookup of `create`, the email check) and the build-lookup failures
of `find_builds` are `Err` values; the exits listed under "Left out" are not
modelled. `Seqs` holds the order-preserving filter that the list
comprehensions perform, Python's string order, and the sort that `sorted`
performs.

Some behaviours of the code that a reader might not expect, which the model
keeps:

- The release date is counted from the release date of the latest advisory,
  not from today: three weeks after that date (`Create.ReleaseDate`).
- The release date is moved to the Tuesday of its Sunday-to-Saturday week.
  From a Sunday or a Monday that is a move forward, because the shift
  `day_of_week - 2` is then negative. It is not always a move back.
- Nothing in `find_builds` removes duplicate builds (`ManualDuplicatesKept`,
  `ImageDuplicatesKept`).
- The thread-pool maps keep input order. Only the dry-run listing is sorted;
  the builds attached to an advisory are passed on in the order they were found.
- The image path never asks whether a build is attached to an open advisory.
  Only the rpm path does.
- `--build` values are only looked up, never checked for attachment to an
  open advisory, whatever the kind (`FindBuilds.FindBuilds`).
- The bug target releases are `3.Y.z` and `3.Y.0` whatever the major version
  of the branch (`AutoSearchesMinorReleases`).

## Model

| member | source | states |
|---|---|---|
| `Branch.Split` | tools/src/elliott.py:148 | `str.split` on one character: at least one piece, no piece holds the separator, every character of a piece comes from the input, and the first piece is the prefix up to the first separator |
| `Branch.ReleaseFromBranch` | tools/src/elliott.py:135-148 | the release is the dash-free text between the first and the second `-` of the branch |
| `Branch.MajorFromBranch` | tools/src/elliott.py:151-166 | the major is the release up to its first `.`, and holds neither `-` nor `.` |
| `Branch.MinorFromBranch` | tools/src/elliott.py:169-184 | the minor is the text between the first and the second `.` of the release |
| `Branch.ProductVersion` | tools/src/elliott.py:604 | the product version is `RHEL-7-OSE-` followed by the start of the branch's release, which splits on `.` into exactly the major and the minor |
| `Branch.BaseTag` | tools/src/elliott.py:605 | the base tag is `rhaos-X.Y-rhel-7` for the branch's major X and minor Y, and parses back to the same major and minor |
| `Branch.GroupBranch` | tools/src/elliott.py:605 | the `rhaos-{major}.{minor}-rhel-7` format; `ParseGroupBranch`, `BaseTag` and `BranchComponents` prove that it parses back to the same major and minor |
| `Branch.BranchComponents` | tools/src/elliott.py:601-605 | for `rhaos-X.Y-rhel-7` (X, Y free of `-` and `.`): release `X.Y`, major X, minor Y, product version `RHEL-7-OSE-X.Y`, and the base tag equals the branch |
| `Validation.EmailReadingsAgree` | tools/src/elliott.py:128 | the regular expression accepts a string exactly when it has no space, exactly one `@`, a non-empty local part, and a domain with a `.` that has a character on each side |
| `Validation.ValidateEmailAddress` | tools/src/elliott.py:125-133 | the value is returned unchanged exactly when it matches `^[^@ ]+@[^@ ]+\.[^@ ]+$`; otherwise the error names the value |
| `Create.WeekdayCalendar` | tools/src/elliott.py:385 | the `%w` weekday of day 0 (1970-01-01) is Thursday, each day moves the weekday on by one, and weekdays repeat every seven days |
| `Create.NextReleaseDate` | tools/src/elliott.py:381-391 | the date is a Tuesday in the same Sunday-to-Saturday week as previous + 21; it is previous + 21 when that is a Tuesday, and always between previous + 17 and previous + 23 |
| `Create.NextReleaseDateDirection` | tools/src/elliott.py:385-389 | the date moves later exactly when previous + 21 is a Sunday or a Monday, and earlier exactly when it is Wednesday to Saturday |
| `Create.MondayMovesForward` | tools/src/elliott.py:381-389 | after a release on Monday 2024-01-01 the next one is Tuesday 2024-01-23 |
| `Create.DateOption` | tools/src/elliott.py:297-298 | the `--date` value with its `1970-01-01` default; `ExplicitEpochIsDefault` proves that an absent option and an explicit default both take the lookup path |
| `Create.ReleaseDate` | tools/src/elliott.py:357-396 | a date other than 1970-01-01 is used as given; for 1970-01-01 the latest advisory's date decides, and no advisory, an unauthenticated, an unauthorized or a failed search each end the command with their own error |
| `Create.ExplicitEpochIsDefault` | tools/src/elliott.py:297-300 | the latest advisory decides the date exactly when `--date` is absent or is `1970-01-01`; any other date is used as given whatever the lookup says; a found advisory never yields 1970-01-01 |
| `FindBugs.TargetReleases` | tools/src/elliott.py:501 | two target releases, which split on `.` into `3`, the minor and `z`, then `3`, the minor and `0` |
| `FindBugs.SelectBugs` | tools/src/elliott.py:493-504 | `--auto` with ids, and neither `--auto` nor ids, are errors (an error exactly when both or neither are given); `--auto` alone searches the target releases of the branch's minor; ids alone are used as given |
| `FindBugs.AutoSearchesMinorReleases` | tools/src/elliott.py:496-501 | for the branch of `openshift-X.Y`, `--auto` searches `["3.Y.z", "3.Y.0"]` in that order |
| `FindBugs.AddFlagsToAll` | tools/src/elliott.py:529-531 | every bug receives the given flags after its own, and nothing else of any bug changes |
| `FindBugs.BugAdded` | tools/src/elliott.py:534 | a reply counts as an added bug exactly when its status is 201; `ReportAddedBugs` proves its two lists are the replies that pass and fail this test |
| `FindBugs.ReportAddedBugs` | tools/src/elliott.py:533-539 | the replies are split, in order, into those with status 201 and all others; together they are all the replies |
| `Bugzilla.Bug.constructor` | tools/src/elliott.py:509 | the handle for an existing tracker bug carries its id; its lists record only what this run appends, so they start empty |
| `Bugzilla.Bug.HasWhiteboardValue` | tools/src/elliott.py:888 | whether the value is on the bug's whiteboard; `FlagInvalidTransitions` proves, through `FlagOnce`, that a bug with the mark is left alone |
| `Bugzilla.Bug.AddFlags` | tools/src/elliott.py:531 | the flags are appended and nothing else changes |
| `Bugzilla.Bug.AddComment` | tools/src/elliott.py:889 | the comment is appended and nothing else changes |
| `Bugzilla.Bug.AddWhiteboardValue` | tools/src/elliott.py:891 | the value is appended to the whiteboard and nothing else changes |
| `FindBuilds.FetchAll` | tools/src/elliott.py:615-623 | looking up builds is a map: it succeeds exactly when every lookup does, the result has the input's length and element i is the lookup of input i; a failure is that of the first failing input |
| `FindBuilds.NonReleaseNames` | tools/src/elliott.py:650 | `get('non_release', [])`: the configured names, or none; `DropNonRelease` proves that exactly the entries with these names are dropped, and nothing when the list is absent |
| `Seqs.Filter` | tools/src/elliott.py:649-650 | a list comprehension with a test (also the one at line 694): no longer than its input, and every entry passes the test; `FilterCounts` and `FilterIsSubsequence` prove that it keeps every passing occurrence, in order, and nothing else |
| `FindBuilds.DropNonRelease` | tools/src/elliott.py:648-650 | exactly the entries whose name is not a non-release name are kept, every occurrence of them, in their original order; with no `non_release` list nothing is dropped |
| `FindBuilds.LatestInfos` | tools/src/elliott.py:634-640 | the pool map of `get_latest_build_info`: one entry per image, entry i being image i's latest build |
| `FindBuilds.NvrString` | tools/src/elliott.py:660 | `"{}-{}-{}".format(n, v, r)`: the name, a dash, the version, a dash and the release, each in its own place, so the string is determined by the three parts; `ImageNvrs` is stated through it |
| `FindBuilds.ImageNvrs` | tools/src/elliott.py:648-664 | the NVRs fetched in image mode are, one for one and in order, `n-v-r` of the latest builds whose name is not a non-release name |
| `FindBuilds.ImageNvrFromReleaseImage` | tools/src/elliott.py:648-664 | every NVR fetched in image mode is `n-v-r` of some image's latest build with a release name |
| `FindBuilds.ReleaseImageNvrFetched` | tools/src/elliott.py:648-664 | every image whose latest build has a release name has its NVR fetched |
| `FindBuilds.ImageDuplicatesKept` | tools/src/elliott.py:634-664 | an image listed twice has its NVR fetched twice |
| `FindBuilds.KeepUnattached` | tools/src/elliott.py:693-694 | exactly the builds not attached to an open advisory are kept, every occurrence of them, in their original order |
| `FindBuilds.FindBuilds` | tools/src/elliott.py:615-694 | `--build` values win over the kind and are fetched in order; image mode fetches the release images' NVRs in order; rpm mode fails exactly when a candidate's lookup fails, and keeps only unattached builds |
| `FindBuilds.RpmModeKeepsExactlyUnattached` | tools/src/elliott.py:669-694 | a fetched rpm build is proposed exactly when it is not attached to an open advisory |
| `FindBuilds.ManualDuplicatesKept` | tools/src/elliott.py:615-619 | a build given twice is proposed twice |
| `FindBuilds.Nvrs` | tools/src/elliott.py:715 | the NVRs of the builds: one per build, in order, entry i being build i's NVR |
| `FindBuilds.DryRunListing` | tools/src/elliott.py:714-715 | the listing is sorted and is a permutation of the builds' NVRs |
| `Seqs.LexLe` | tools/src/elliott.py:714 | Python's `<=` on strings: a prefix is at most the whole, and a non-empty string is at most another only if its first character is; `LexTotal`, `LexAntisymmetric` and `LexTransitive` make it a total order |
| `Seqs.Sort` | tools/src/elliott.py:714 | `sorted` on strings: the result is ordered by `LexLe` and is a permutation of the input |
| `Seqs.SortedPermutationUnique` | tools/src/elliott.py:714 | two sorted permutations of the same strings are equal, so the sorted listing is unique |
| `FindBuilds.DryRunListingIgnoresOrder` | tools/src/elliott.py:714 | the listing does not depend on the order in which the builds were found |
| `FindBuilds.Conclude` | tools/src/elliott.py:696-715 | with an advisory, the builds are attached in the order found; without one, the preview gives their number and their NVRs sorted |
| `AddMetadata.MetadataResponse` | tools/src/elliott.py:842-851 | 201 is success, 403 is unauthorized, any other status is an unexpected response carrying that status |
| `FindTransitions.FlagOnce` | tools/src/elliott.py:887-893 | after one iteration the bug holds the mark; a marked bug is unchanged; any other bug gains the private nag comment and the mark |
| `FindTransitions.FlagOnceIdempotent` | tools/src/elliott.py:886-891 | running the iteration again on a bug changes nothing |
| `FindTransitions.FlagOnceComments` | tools/src/elliott.py:888-893 | a marked bug receives no comment; any other bug receives exactly one, the private nag |
| `FindTransitions.FlagInvalidTransitions` | tools/src/elliott.py:885-893 | with `--add-comment` every bug found ends as one iteration leaves it, even when it occurs more than once; without it no bug changes; flags never change |

## Left out

- Click decorators, `Runtime` initialisation, metadata and working-directory
  setup, coloured output, `pbar_header`/`progress_func` printing and the
  `requests.Session`: configuration and I/O with no decisions in them.
- The commands `advisory:change-state`, `advisory:get`, `advisory:list` and
  `bugzilla:add-comment`: each forwards its options to a network client and
  prints the reply.
- The errata, brew and bugzilla clients are not part of this model. Their
  results are parameters: `lookup` (`find_latest_erratum`), `fetch`
  (`get_brew_build`), `latestBuildInfo` (`get_latest_build_info`),
  `rpmCandidates` (`find_unshipped_build_candidates`, whose tag difference is
  not visible), and the bug lists searched for. `new_erratum`, `get_erratum`,
  `add_builds`, `add_bugs`, `search_for_bugs` and
  `search_for_bug_transitions` are left out.
- `Bugzilla.Bug`: the bug object's own code is not part of this model; it is
  modelled as a list of whiteboard values, a list of comments and a list of
  flags that the calls append to.
- `FindBugs.AddFlagsToAll`: requires the bug objects to be distinct, as they
  are when each is built from an id; a bug listed twice would get the flags twice.
- `FindBuilds.FetchAll`: the thread pools are modelled as sequential maps.
  When several lookups fail, the pool may report a failure other than the
  first in input order; pool sizing and progress output do not affect results.
- `FindBuilds.DryRunListing`: `sorted` compares the build objects with an
  ordering that is not part of this model; it is assumed to order builds
  by NVR, so the listing is the NVRs sorted as Python sorts strings.
- `Create.ReleaseDate`: dates are taken already parsed, as day numbers.
  `strptime` and `validate_release_date` are left out, so is the time of day.
  The source compares the option's text with `1970-01-01`, so a spelling such
  as `1970-1-1` would count as a given date; the model sees only the day.
- Exit codes and messages: each modelled error is an `Err` value without its text.
- `Branch.ReleaseFromBranch`, `Branch.MajorFromBranch`, `Branch.MinorFromBranch`:
  a branch with too few `-` or `.` makes `split(...)[1]` raise `IndexError`
  (lines 148, 166, 184); the model requires `HasRelease` / `HasMinor` instead
  of giving an `Err` for it.
- The authentication probe of `find_builds` (`get_filtered_list`, lines
  608-611), the advisory lookup of `find_bugs` and its "could not locate
  advisory" exit (lines 513-522), and the authentication and attach failures
  of `add_builds` (lines 700-709) are not modelled: each depends only on a
  network reply and ends the command.
- `FindBuilds.LatestInfos`: `latestBuildInfo` is a total function, so a
  failing `get_latest_build_info` (lines 634-636) is not modelled.
- `FindBuilds.FindBuilds`: a failing lookup of an image or rpm build is not
  caught by the source and ends the command with the exception; the model
  gives the same `Err` value as for a `--build` value that fails.
