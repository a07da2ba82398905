/** `advisory:find-builds`: which builds are proposed for an advisory.
    Build lookups in the build system are a parameter `fetch`; the thread
    pools that run them are modelled as sequential, order-preserving maps. */
module FindBuilds {
  import opened Wrappers
  import opened Seqs

  datatype Kind = Rpm | Image

  /** What the command reads of a build-system build. */
  datatype Build = Build(nvr: string, attachedToOpenErratum: bool)

  /** The (name, version, release) triple an image's latest build reports. */
  datatype NvrInfo = NvrInfo(name: string, version: string, release: string)

  /** A lookup of one build, by NVR or build id, that may fail. */
  type Fetch = string -> Result<Build, string>

  /** Looks up every identifier, in order: the list comprehension of the
      manual mode, and `pool.map` in the automatic modes. The first failure
      (in input order) aborts the whole lookup. */
  function FetchAll(ids: seq<string>, fetch: Fetch): (r: Result<seq<Build>, string>)
    ensures r.Ok? <==> forall i :: 0 <= i < |ids| ==> fetch(ids[i]).Ok?
    ensures r.Ok? ==> |r.value| == |ids|
    ensures r.Ok? ==> forall i :: 0 <= i < |ids| ==> r.value[i] == fetch(ids[i]).value
    ensures r.Err? ==> exists i :: 0 <= i < |ids| && fetch(ids[i]) == Err(r.error)
                                   && forall j :: 0 <= j < i ==> fetch(ids[j]).Ok?
  {
    if ids == [] then Ok([])
    else
      match fetch(ids[0])
      case Err(e) => Err(e)
      case Ok(b) =>
        match FetchAll(ids[1..], fetch)
        case Err(e) =>
          assert exists i :: 0 <= i < |ids[1..]| && fetch(ids[1..][i]) == Err(e)
                             && forall j :: 0 <= j < i ==> fetch(ids[1..][j]).Ok?;
          var i :| 0 <= i < |ids[1..]| && fetch(ids[1..][i]) == Err(e)
                   && forall j :: 0 <= j < i ==> fetch(ids[1..][j]).Ok?;
          assert fetch(ids[i + 1]) == Err(e);
          assert forall j :: 0 < j < i + 1 ==> fetch(ids[j]) == fetch(ids[1..][j - 1]);
          Err(e)
        case Ok(rest) =>
          assert forall i :: 0 < i < |ids| ==> fetch(ids[i]) == fetch(ids[1..][i - 1]);
          Ok([b] + rest)
  }

  /** `group_config.get('non_release', [])`: names excluded from image advisories. */
  function NonReleaseNames(nonRelease: Option<seq<string>>): seq<string>
  {
    match nonRelease
    case None => []
    case Some(names) => names
  }

  /** The image-mode comprehension: drop every latest build whose name is a
      non-release image, keeping the rest in order. */
  function DropNonRelease(potential: seq<NvrInfo>, nonRelease: Option<seq<string>>): (r: seq<NvrInfo>)
    ensures |r| <= |potential|
    ensures forall i :: 0 <= i < |r| ==> r[i].name !in NonReleaseNames(nonRelease)
    ensures forall x :: multiset(r)[x] ==
              if x.name in NonReleaseNames(nonRelease) then 0 else multiset(potential)[x]
    ensures IsSubsequence(r, potential)
    ensures nonRelease.None? ==> r == potential
  {
    var names := NonReleaseNames(nonRelease);
    var r := Filter(potential, (i: NvrInfo) => i.name !in names);
    FilterCounts(potential, (i: NvrInfo) => i.name !in names);
    FilterIsSubsequence(potential, (i: NvrInfo) => i.name !in names);
    if nonRelease.None? then
      FilterKeepsAll(potential, (i: NvrInfo) => i.name !in names);
      r
    else
      r
  }

  /** `"{}-{}-{}".format(n, v, r)`: the name, then a dash, the version,
      and at the end a dash and the release. */
  function NvrString(info: NvrInfo): (r: string)
    ensures |r| == |info.name| + |info.version| + |info.release| + 2
    ensures r[..|info.name|] == info.name && r[|info.name|] == '-'
    ensures r[|info.name| + 1..|info.name| + 1 + |info.version|] == info.version
    ensures r[|r| - |info.release| - 1..] == "-" + info.release
  {
    info.name + "-" + info.version + "-" + info.release
  }

  /** The first `pool.map`: each image's latest build, in image order. */
  function LatestInfos<Img>(images: seq<Img>, latestBuildInfo: Img -> NvrInfo): (p: seq<NvrInfo>)
    ensures |p| == |images|
    ensures forall i :: 0 <= i < |images| ==> p[i] == latestBuildInfo(images[i])
  {
    if images == [] then []
    else [latestBuildInfo(images[0])] + LatestInfos(images[1..], latestBuildInfo)
  }

  /** The NVRs the image mode fetches: one `n-v-r` per latest build that
      survives the non-release filter, in the filter's order. */
  function ImageNvrs<Img>(images: seq<Img>, latestBuildInfo: Img -> NvrInfo,
                          nonRelease: Option<seq<string>>): (r: seq<string>)
    ensures var kept := DropNonRelease(LatestInfos(images, latestBuildInfo), nonRelease);
            |r| == |kept| && forall i :: 0 <= i < |kept| ==> r[i] == NvrString(kept[i])
    ensures |r| <= |images|
  {
    var kept := DropNonRelease(LatestInfos(images, latestBuildInfo), nonRelease);
    seq(|kept|, i requires 0 <= i < |kept| => NvrString(kept[i]))
  }

  /** Every NVR fetched in image mode is that of some image with a release name. */
  lemma ImageNvrFromReleaseImage<Img>(images: seq<Img>, latestBuildInfo: Img -> NvrInfo,
                                      nonRelease: Option<seq<string>>, i: int)
    requires 0 <= i < |ImageNvrs(images, latestBuildInfo, nonRelease)|
    ensures exists k :: 0 <= k < |images| && latestBuildInfo(images[k]).name !in NonReleaseNames(nonRelease)
                        && ImageNvrs(images, latestBuildInfo, nonRelease)[i] == NvrString(latestBuildInfo(images[k]))
  {
    var potential := LatestInfos(images, latestBuildInfo);
    var kept := DropNonRelease(potential, nonRelease);
    assert multiset(kept)[kept[i]] > 0;
    assert kept[i] in multiset(potential);
    var k :| 0 <= k < |potential| && potential[k] == kept[i];
    assert ImageNvrs(images, latestBuildInfo, nonRelease)[i] == NvrString(latestBuildInfo(images[k]));
  }

  /** Every image with a release name has its NVR fetched. */
  lemma ReleaseImageNvrFetched<Img>(images: seq<Img>, latestBuildInfo: Img -> NvrInfo,
                                    nonRelease: Option<seq<string>>, k: int)
    requires 0 <= k < |images| && latestBuildInfo(images[k]).name !in NonReleaseNames(nonRelease)
    ensures NvrString(latestBuildInfo(images[k])) in ImageNvrs(images, latestBuildInfo, nonRelease)
  {
    var potential := LatestInfos(images, latestBuildInfo);
    var kept := DropNonRelease(potential, nonRelease);
    assert potential[k] in multiset(potential);
    assert potential[k] in multiset(kept);
    var i :| 0 <= i < |kept| && kept[i] == potential[k];
    assert ImageNvrs(images, latestBuildInfo, nonRelease)[i] == NvrString(latestBuildInfo(images[k]));
  }

  /** An image listed twice yields its NVR twice: the image path removes no duplicates. */
  lemma ImageDuplicatesKept<Img>(image: Img, latestBuildInfo: Img -> NvrInfo, nonRelease: Option<seq<string>>)
    requires latestBuildInfo(image).name !in NonReleaseNames(nonRelease)
    ensures ImageNvrs([image, image], latestBuildInfo, nonRelease)
         == [NvrString(latestBuildInfo(image)), NvrString(latestBuildInfo(image))]
  {
    var info := latestBuildInfo(image);
    var potential := LatestInfos([image, image], latestBuildInfo);
    assert potential == [info, info];
    var names := NonReleaseNames(nonRelease);
    FilterKeepsAll(potential, (i: NvrInfo) => i.name !in names);
    var kept := DropNonRelease(potential, nonRelease);
    assert kept == [info, info];
  }

  /** The rpm-mode comprehension: drop every build already attached to an
      open advisory, keeping the rest in order. */
  function KeepUnattached(results: seq<Build>): (r: seq<Build>)
    ensures forall i :: 0 <= i < |r| ==> !r[i].attachedToOpenErratum
    ensures forall b :: multiset(r)[b] ==
              if b.attachedToOpenErratum then 0 else multiset(results)[b]
    ensures IsSubsequence(r, results)
  {
    FilterCounts(results, (b: Build) => !b.attachedToOpenErratum);
    FilterIsSubsequence(results, (b: Build) => !b.attachedToOpenErratum);
    Filter(results, (b: Build) => !b.attachedToOpenErratum)
  }

  /** The builds proposed for the advisory. Builds given with `--build` are
      taken verbatim, whatever the kind; otherwise the kind chooses the image
      or the rpm path. `rpmCandidates` is what the build system reports as
      unshipped candidates of the base tag. */
  function FindBuilds<Img>(manual: seq<string>, kind: Kind,
                           images: seq<Img>, latestBuildInfo: Img -> NvrInfo,
                           nonRelease: Option<seq<string>>,
                           rpmCandidates: seq<string>, fetch: Fetch): (r: Result<seq<Build>, string>)
    ensures |manual| > 0 ==> (r.Ok? <==> forall i :: 0 <= i < |manual| ==> fetch(manual[i]).Ok?)
    ensures |manual| > 0 && r.Ok? ==>
              |r.value| == |manual| && forall i :: 0 <= i < |manual| ==> r.value[i] == fetch(manual[i]).value
    ensures manual == [] && kind == Image ==>
              var nvrs := ImageNvrs(images, latestBuildInfo, nonRelease);
              (r.Ok? <==> forall i :: 0 <= i < |nvrs| ==> fetch(nvrs[i]).Ok?)
    ensures manual == [] && kind == Image && r.Ok? ==>
              var nvrs := ImageNvrs(images, latestBuildInfo, nonRelease);
              |r.value| == |nvrs| && forall i :: 0 <= i < |nvrs| ==> fetch(nvrs[i]).Ok? && r.value[i] == fetch(nvrs[i]).value
    ensures manual == [] && kind == Rpm ==> (r.Ok? <==> FetchAll(rpmCandidates, fetch).Ok?)
    ensures manual == [] && kind == Rpm && r.Ok? ==>
              forall i :: 0 <= i < |r.value| ==> !r.value[i].attachedToOpenErratum
    ensures manual == [] && kind == Rpm && r.Ok? ==>
              r.value == KeepUnattached(FetchAll(rpmCandidates, fetch).value)
  {
    if |manual| > 0 then
      FetchAll(manual, fetch)
    else if kind == Image then
      FetchAll(ImageNvrs(images, latestBuildInfo, nonRelease), fetch)
    else
      match FetchAll(rpmCandidates, fetch)
      case Err(e) => Err(e)
      case Ok(results) => Ok(KeepUnattached(results))
  }

  /** A build the rpm mode fetched survives exactly when it is not attached
      to an open advisory; the image mode never asks. */
  lemma RpmModeKeepsExactlyUnattached<Img>(images: seq<Img>, latestBuildInfo: Img -> NvrInfo,
                                            nonRelease: Option<seq<string>>,
                                            rpmCandidates: seq<string>, fetch: Fetch, i: int)
    requires 0 <= i < |rpmCandidates| && FetchAll(rpmCandidates, fetch).Ok?
    ensures var r := FindBuilds([], Rpm, images, latestBuildInfo, nonRelease, rpmCandidates, fetch);
            r.Ok? && (fetch(rpmCandidates[i]).value in r.value <==> !fetch(rpmCandidates[i]).value.attachedToOpenErratum)
  {
    var fetched := FetchAll(rpmCandidates, fetch).value;
    var b := fetch(rpmCandidates[i]).value;
    assert fetched[i] == b;
    assert multiset(fetched)[b] > 0;
  }

  /** Builds given twice are fetched, and proposed, twice: nothing removes duplicates. */
  lemma ManualDuplicatesKept<Img>(id: string, kind: Kind, images: seq<Img>, latestBuildInfo: Img -> NvrInfo,
                                  nonRelease: Option<seq<string>>, rpmCandidates: seq<string>, fetch: Fetch)
    requires fetch(id).Ok?
    ensures FindBuilds([id, id], kind, images, latestBuildInfo, nonRelease, rpmCandidates, fetch)
         == Ok([fetch(id).value, fetch(id).value])
  {
    var r := FindBuilds([id, id], kind, images, latestBuildInfo, nonRelease, rpmCandidates, fetch);
    var manual := [id, id];
    assert forall i :: 0 <= i < |manual| ==> manual[i] == id;
    assert r.Ok? && |r.value| == 2;
    assert r.value[0] == fetch(id).value && r.value[1] == fetch(id).value;
    assert r.value == [fetch(id).value, fetch(id).value];
  }

  /** What the command does with the builds: attach them to the advisory in
      the order found, or (dry run) list how many there are and their NVRs. */
  datatype Outcome =
    | AttachTo(advisory: string, builds: seq<Build>)
    | Preview(count: nat, listing: seq<string>)

  function Nvrs(builds: seq<Build>): (r: seq<string>)
    ensures |r| == |builds| && forall i :: 0 <= i < |builds| ==> r[i] == builds[i].nvr
  {
    seq(|builds|, i requires 0 <= i < |builds| => builds[i].nvr)
  }

  /** The dry-run listing: the NVRs of `sorted(unshipped_builds)`, builds
      being taken to compare by NVR. */
  function DryRunListing(builds: seq<Build>): (r: seq<string>)
    ensures Sorted(r)
    ensures multiset(r) == multiset(Nvrs(builds))
  {
    Sort(Nvrs(builds))
  }

  /** The listing does not depend on the order in which the builds were found. */
  lemma DryRunListingIgnoresOrder(a: seq<Build>, b: seq<Build>)
    requires multiset(Nvrs(a)) == multiset(Nvrs(b))
    ensures DryRunListing(a) == DryRunListing(b)
  {
    SortedPermutationUnique(DryRunListing(a), DryRunListing(b));
  }

  function Conclude(advisory: Option<string>, unshipped: seq<Build>): (r: Outcome)
    ensures advisory.Some? ==> r == AttachTo(advisory.value, unshipped)
    ensures advisory.None? ==> r.Preview? && r.count == |unshipped| == |r.listing|
    ensures advisory.None? ==> Sorted(r.listing) && multiset(r.listing) == multiset(Nvrs(unshipped))
  {
    match advisory
    case Some(id) => AttachTo(id, unshipped)
    case None =>
      var listing := DryRunListing(unshipped);
      assert |listing| == |multiset(listing)|;
      Preview(|unshipped|, listing)
  }
}
