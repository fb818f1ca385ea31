/**
 * Pipeline builds: which build `get_last_build_info` reports, the source ref
 * `trigger_new_build` asks Azure DevOps to build, and what it reports back.
 */
module Builds {
  import opened Wrappers
  import opened PyStr
  import opened Seqs

  /** The fields of one entry of the builds API that the selection reads or reports. */
  datatype Build = Build(
    id: Option<int>,
    buildNumber: Option<string>,
    status: Option<string>,
    result: Option<string>,
    sourceVersion: Option<string>,
    startTime: Option<string>,
    deploymentType: Option<string>)  // `templateParameters.deploymentType`

  /** The build-info record the selection returns. */
  datatype BuildInfo = BuildInfo(
    buildNumber: Option<string>,
    buildId: Option<int>,
    sourceVersion: Option<string>,
    startTime: Option<string>,
    result: Option<string>,
    status: Option<string>)

  /** The decoded body of the builds request: its `count` and its `value` list. */
  datatype BuildList = BuildList(count: int, value: seq<Build>)

  function InfoOf(b: Build): (info: BuildInfo)
    ensures info.buildId == b.id && info.buildNumber == b.buildNumber && info.status == b.status
    ensures info.result == b.result && info.sourceVersion == b.sourceVersion && info.startTime == b.startTime
  {
    BuildInfo(b.buildNumber, b.id, b.sourceVersion, b.startTime, b.result, b.status)
  }

  /** A build that can serve as the baseline: it succeeded, and is a Full Stack one when that is required. */
  predicate IsValidBuild(b: Build, requireFullstack: bool)
  {
    && (b.result == Some("succeeded") || b.result == Some("partiallySucceeded"))
    && (requireFullstack ==> b.deploymentType.GetOr("") == "Full Stack")
  }

  /** A build that is queued or running. */
  predicate IsActiveBuild(b: Build)
  {
    b.status == Some("inProgress") || b.status == Some("notStarted")
  }

  /**
   * The build reported: with `includeInProgress`, the first active build in the list
   * (the API lists the newest first); otherwise, or when none is active, the first valid one.
   */
  function SelectBuild(builds: seq<Build>, includeInProgress: bool, requireFullstack: bool): (r: Option<Build>)
  {
    var active := Filter(builds, IsActiveBuild);
    var valid := Filter(builds, b => IsValidBuild(b, requireFullstack));
    if includeInProgress && active != [] then Some(active[0])
    else if valid != [] then Some(valid[0])
    else None
  }

  /**
   * The selection described as a search: the first active build when in-progress builds are
   * wanted and one exists, else the first valid build, else nothing.
   */
  lemma SelectBuildIsFirstMatch(builds: seq<Build>, includeInProgress: bool, requireFullstack: bool)
    ensures var r := SelectBuild(builds, includeInProgress, requireFullstack);
      var act := FirstIndex(builds, IsActiveBuild);
      var ok := FirstIndex(builds, b => IsValidBuild(b, requireFullstack));
      && (includeInProgress && act.Some? ==> r == Some(builds[act.value]))
      && ((!includeInProgress || act.None?) && ok.Some? ==> r == Some(builds[ok.value]))
      && ((!includeInProgress || act.None?) && ok.None? ==> r.None?)
  {
    var valid := b => IsValidBuild(b, requireFullstack);
    FilterEmpty(builds, IsActiveBuild);
    FilterEmpty(builds, valid);
    if Filter(builds, IsActiveBuild) != [] {
      FilterHead(builds, IsActiveBuild);
    }
    if Filter(builds, valid) != [] {
      FilterHead(builds, valid);
    }
  }

  /**
   * `get_last_build_info` after its HTTP call: `response` is the decoded body, absent when
   * the status code was not 200 or 202. A non-positive `count` means no builds.
   */
  method GetLastBuildInfo(response: Option<BuildList>, includeInProgress: bool, requireFullstack: bool)
    returns (r: Option<BuildInfo>)
    ensures response.None? || response.value.count <= 0 ==> r.None?
    ensures response.Some? && response.value.count > 0 ==>
      r == match SelectBuild(response.value.value, includeInProgress, requireFullstack)
           case Some(b) => Some(InfoOf(b))
           case None => None
  {
    if response.None? || response.value.count <= 0 {
      return None;
    }
    var builds := response.value.value;
    var validBuilds: seq<Build> := [];
    var inProgressBuilds: seq<Build> := [];
    var i := 0;
    while i < |builds|
      invariant 0 <= i <= |builds|
      invariant validBuilds == Filter(builds[..i], b => IsValidBuild(b, requireFullstack))
      invariant includeInProgress ==> inProgressBuilds == Filter(builds[..i], IsActiveBuild)
      invariant !includeInProgress ==> inProgressBuilds == []
    {
      var build := builds[i];
      FilterSnoc(builds, i, b => IsValidBuild(b, requireFullstack));
      FilterSnoc(builds, i, IsActiveBuild);
      if build.result == Some("succeeded") || build.result == Some("partiallySucceeded") {
        if requireFullstack {
          if build.deploymentType.GetOr("") == "Full Stack" {
            validBuilds := validBuilds + [build];
          }
        } else {
          validBuilds := validBuilds + [build];
        }
      }
      if includeInProgress && (build.status == Some("inProgress") || build.status == Some("notStarted")) {
        inProgressBuilds := inProgressBuilds + [build];
      }
      i := i + 1;
    }
    assert builds[..i] == builds;
    if includeInProgress && inProgressBuilds != [] {
      return Some(InfoOf(inProgressBuilds[0]));
    }
    if validBuilds != [] {
      return Some(InfoOf(validBuilds[0]));
    }
    return None;
  }

  // ---------------------------------------------------------------- triggering a build

  /** The ref to build and whether it names a tag or a branch. */
  datatype SourceRef = SourceRef(ref: string, isTag: bool)

  /** Python truthiness of an optional string. */
  predicate Truthy(s: Option<string>)
  {
    s.Some? && s.value != []
  }

  /**
   * The source ref of `trigger_new_build`: a non-empty tag wins and is put under
   * `refs/tags/`; otherwise the branch is put under `refs/heads/`; with neither, `None`.
   */
  function BuildSourceRef(branch: Option<string>, tag: Option<string>): (r: Option<SourceRef>)
    ensures r.None? <==> !Truthy(tag) && !Truthy(branch)
    ensures r.Some? ==> (r.value.isTag <==> Truthy(tag))
    ensures r.Some? && r.value.isTag ==>
      StartsWith(r.value.ref, "refs/tags/")
      && (StartsWith(tag.value, "refs/tags/") ==> r.value.ref == tag.value)
      && (!StartsWith(tag.value, "refs/tags/") ==> r.value.ref == "refs/tags/" + tag.value)
    ensures r.Some? && !r.value.isTag ==>
      StartsWith(r.value.ref, "refs/heads/")
      && (StartsWith(branch.value, "refs/heads/") ==> r.value.ref == branch.value)
      && (!StartsWith(branch.value, "refs/heads/") ==> r.value.ref == "refs/heads/" + branch.value)
  {
    if Truthy(tag) then
      var t := tag.value;
      var ref := if StartsWith(t, "refs/tags/") then t else "refs/tags/" + t;
      assert ("refs/tags/" + t)[..10] == "refs/tags/";
      Some(SourceRef(ref, true))
    else if !Truthy(branch) then None
    else
      var b := branch.value;
      var ref := if StartsWith(b, "refs/heads/") then b else "refs/heads/" + b;
      assert ("refs/heads/" + b)[..11] == "refs/heads/";
      Some(SourceRef(ref, false))
  }

  /** Normalising a normalised ref changes nothing: the prefix is never doubled. */
  lemma BuildSourceRefIdempotent(branch: Option<string>, tag: Option<string>)
    requires BuildSourceRef(branch, tag).Some?
    ensures var r := BuildSourceRef(branch, tag).value;
      && (r.isTag ==> BuildSourceRef(None, Some(r.ref)).value.ref == r.ref)
      && (!r.isTag ==> BuildSourceRef(Some(r.ref), None).value.ref == r.ref)
  {
  }

  /** The JSON body of the trigger request. */
  datatype BuildRequest = BuildRequest(definitionId: int, sourceBranch: string)

  /**
   * The request `trigger_new_build` posts, `None` when there is nothing to build, or `Err`
   * where `int(definition_id)` raises (the ref is chosen first).
   */
  function TriggerRequest(definitionId: string, branch: Option<string>, tag: Option<string>): (r: Result<Option<BuildRequest>>)
    ensures r.Ok? && r.value.Some? ==>
      BuildSourceRef(branch, tag).Some? && r.value.value.sourceBranch == BuildSourceRef(branch, tag).value.ref
      && ParseInt(definitionId) == Some(r.value.value.definitionId)
    ensures r.Ok? && r.value.None? <==> BuildSourceRef(branch, tag).None?
    ensures r.Err? <==> BuildSourceRef(branch, tag).Some? && ParseInt(definitionId).None?
  {
    match BuildSourceRef(branch, tag)
    case None => Ok(None)
    case Some(src) =>
      match ParseInt(definitionId)
      case None => Err("ValueError")
      case Some(id) => Ok(Some(BuildRequest(id, src.ref)))
  }

  /** What `trigger_new_build` returns for the new build. */
  datatype TriggeredBuild = TriggeredBuild(buildId: Option<int>, buildNumber: Option<string>, status: string)

  /** The trigger's result for the HTTP status code and body of the POST. */
  function TriggerResult(statusCode: int, id: Option<int>, number: Option<string>): (r: Option<TriggeredBuild>)
    ensures r.Some? <==> statusCode == 200 || statusCode == 201
    ensures r.Some? ==> r.value == TriggeredBuild(id, number, "triggered")
  {
    if statusCode in [200, 201] then Some(TriggeredBuild(id, number, "triggered")) else None
  }
}
