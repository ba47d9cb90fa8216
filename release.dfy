/**
 * The release repository and the iteration loop (run.php:134-304). For every due point of the
 * schedule the loop resolves a snapshot, builds composer.json, installs it once into a scratch
 * vendor directory, merges every tracked repository's own manifest, installs again, runs the
 * test suites, and commits a release record, tagging it when every suite passed.
 */
module Release {
  import opened Common
  import opened Repos
  import opened Schedule
  import opened Resolver
  import opened Composer
  import opened Bookkeeping

  /** One commit on the `releases` branch: its date, subject, body and committed composer.json. */
  datatype Record = Record(date: int, title: string, description: string, manifest: Option<ComposerJson>)

  /**
   * What the iteration loop learns from outside: the cache directory, the two date formats
   * ('Y-m-d H:i:s' and 'ymd.His'), whether the scratch and the final `composer install` of
   * the iteration at a time succeed, the composer.json each tracked repository has under
   * vendor2 after the scratch install (`None` when missing or unreadable), and whether each
   * repository's test suite passes.
   */
  datatype Env = Env(
    cacheDir: string,
    stamp: int -> string,
    tagStamp: int -> string,
    scratchOk: int -> bool,
    finalOk: int -> bool,
    vendored: int -> string -> Option<PackageJson>,
    passes: int -> string -> bool)

  /** The exceptions that end the script. */
  datatype Fatal =
    | NoReleaseHistory
    | InstallFailed(at: int, scratch: bool)
    | DuplicatePsr4(at: int, conflict: Conflict)

  /** `config` while `composer install` runs (run.php:191-195). */
  function InstallConfig(config: Config, cacheDir: string): (r: Config)
    ensures r.discardChanges == Some(true)
    ensures r.dataDir == Some(cacheDir + "/d") && r.cacheDir == Some(cacheDir + "/c")
    ensures WithoutInstallKeys(r) == WithoutInstallKeys(config)
  {
    config.(discardChanges := Some(true), dataDir := Some(cacheDir + "/d"), cacheDir := Some(cacheDir + "/c"))
  }

  /** The composer.json as saved and installed while the install helper runs. */
  function DuringInstall(doc: ComposerJson, cacheDir: string): ComposerJson
  {
    doc.(config := InstallConfig(doc.config, cacheDir))
  }

  /** `config` once the install helper has unset its three keys again (run.php:197-199). */
  function WithoutInstallKeys(config: Config): Config
  {
    config.(discardChanges := None, dataDir := None, cacheDir := None)
  }

  /** `config` carries none of the install helper's keys. */
  predicate NoInstallKeys(config: Config)
  {
    config.discardChanges.None? && config.dataDir.None? && config.cacheDir.None?
  }

  /** The release composer.json of a snapshot as the scratch install sees it (run.php:165-203). */
  function ScratchManifest(snap: seq<Commit>): (doc: ComposerJson)
    ensures doc.config == InitialConfig.(vendorDir := Some("vendor2"))
    ensures doc.require == RequireMap(snap) && doc.requireDev == map[] && doc.psr4 == map[]
  {
    var init := Initial(snap);
    init.(config := init.config.(vendorDir := Some("vendor2")))
  }

  /**
   * After the scratch install has removed its keys and `vendor-dir` is unset again
   * (run.php:198-205), the release composer.json is the one first built for the snapshot.
   */
  lemma ScratchRoundTrip(snap: seq<Commit>)
    ensures var d := ScratchManifest(snap);
            d.(config := WithoutInstallKeys(d.config).(vendorDir := None)) == Initial(snap)
  {
  }

  /** The dates of the release records. */
  function Dates(records: seq<Record>): (r: seq<int>)
    ensures |r| == |records| && forall i :: 0 <= i < |records| ==> r[i] == records[i].date
  {
    seq(|records|, i requires 0 <= i < |records| => records[i].date)
  }

  /** Every commit of every tracked repository. */
  ghost function AllCommits(repos: seq<Repo>): set<Commit>
    reads repos
  {
    set r, c | r in repos && c in r.commits :: c
  }

  lemma SnapshotCommitsTracked(repos: seq<Repo>, t: int)
    ensures forall c :: c in Snapshot(repos, t) ==> c in AllCommits(repos)
  {
    var snap := Snapshot(repos, t);
    SnapshotResolved(repos, t);
    forall c | c in snap ensures c in AllCommits(repos) {
      var k :| 0 <= k < |snap| && snap[k] == c;
      var r := WithCommits(repos)[k];
      assert c in r.commits && r in repos;
    }
  }

  /**
   * With distinct registry aliases, the snapshot holds at most one commit per alias: each
   * resolved commit belongs to the repository it was resolved from.
   */
  lemma SnapshotUnique(repos: seq<Repo>, t: int)
    requires DistinctAliases(repos)
    requires forall i :: 0 <= i < |repos| ==> repos[i].Valid()
    ensures UniqueRepos(Snapshot(repos, t))
  {
    var snap := Snapshot(repos, t);
    var with := WithCommits(repos);
    SnapshotResolved(repos, t);
    forall k | 0 <= k < |snap|
      ensures snap[k].repo == with[k]
    {
      var i :| 0 <= i < |repos| && repos[i] == with[k];
      assert repos[i].Valid();
      assert snap[k] in with[k].commits;
    }
  }

  /** The committed `require` pins every resolved commit under its alias (run.php:175-184). */
  lemma SnapshotPinned(repos: seq<Repo>, t: int)
    requires DistinctAliases(repos)
    requires forall i :: 0 <= i < |repos| ==> repos[i].Valid()
    ensures forall c :: c in Snapshot(repos, t) ==> RequireMap(Snapshot(repos, t))[c.repo.alias] == Pin(c)
  {
    SnapshotUnique(repos, t);
  }

  /**
   * The working copy and history of the release repository: the records of the `releases`
   * branch, newest last; the tags pushed; the composer.json last saved; and the composer.json
   * every `composer install` ran with.
   */
  class ReleaseRepo {
    var history: seq<Record>
    var tags: seq<string>
    var composerFile: Option<ComposerJson>
    var installs: seq<ComposerJson>

    constructor (history: seq<Record>)
      ensures this.history == history && tags == [] && composerFile == None && installs == []
    {
      this.history := history;
      tags := [];
      composerFile := None;
      installs := [];
    }

    /**
     * The install helper (run.php:189-202): adds the three install keys to `config`, saves,
     * runs `composer install`, then removes the keys again and saves. `ok` is the outcome of
     * the install; a failed install throws, leaving the keys in the saved file.
     */
    method ComposerInstall(doc: ComposerJson, cacheDir: string, ok: bool) returns (after: ComposerJson, success: bool)
      modifies this
      ensures installs == old(installs) + [DuringInstall(doc, cacheDir)]
      ensures success == ok
      ensures success ==> after == doc.(config := WithoutInstallKeys(doc.config)) && composerFile == Some(after)
      ensures success && NoInstallKeys(doc.config) ==> after == doc
      ensures !success ==> composerFile == Some(DuringInstall(doc, cacheDir))
      ensures history == old(history) && tags == old(tags)
    {
      var during := DuringInstall(doc, cacheDir);
      composerFile := Some(during);
      installs := installs + [during];
      if !ok {
        return during, false;
      }
      var config := during.config.(discardChanges := None);
      config := config.(dataDir := None);
      config := config.(cacheDir := None);
      after := during.(config := config);
      composerFile := Some(after);
      success := true;
    }

    /**
     * Commits and pushes one release record (run.php:292-296), then pushes its tag when there
     * is one (run.php:299-303).
     */
    method CommitRelease(record: Record, tag: Option<string>)
      modifies this
      ensures history == old(history) + [record]
      ensures tags == old(tags) + (if tag.Some? then [tag.value] else [])
      ensures installs == old(installs) && composerFile == old(composerFile)
    {
      history := history + [record];
      if tag.Some? {
        tags := tags + [tag.value];
      }
    }
  }

  /** The date of the newest release record, read once before the loop (run.php:135). */
  function Watermark(history: seq<Record>): (r: Option<int>)
    ensures r.None? <==> history == []
    ensures r.Some? ==> r.value == Dates(history)[|history| - 1]
  {
    if history == [] then None else Some(history[|history| - 1].date)
  }

  /**
   * The composer.json the final install uses for a snapshot, if merging every tracked
   * repository's manifest into the one first built for it succeeds.
   */
  function FinalManifest(snap: seq<Commit>, aliases: seq<string>, vendored: string -> Option<PackageJson>): Option<ComposerJson>
  {
    MergedAll(Initial(snap), aliases, vendored)
  }

  /**
   * The final install's composer.json has `config` back to `sort-packages` alone: `vendor-dir`
   * is set only for the scratch install, and none of the install helper's keys remain.
   */
  lemma FinalManifestConfig(snap: seq<Commit>, aliases: seq<string>, vendored: string -> Option<PackageJson>)
    ensures var m := FinalManifest(snap, aliases, vendored);
            m.Some? ==> m.value.config == InitialConfig && m.value.config.vendorDir.None? && NoInstallKeys(m.value.config)
    ensures ScratchManifest(snap).config.vendorDir == Some("vendor2")
  {
    MergedAllKeeps(Initial(snap), aliases, vendored);
  }

  /**
   * The first half of an iteration (run.php:164-235): install the composer.json of the
   * snapshot into vendor2, drop `vendor-dir` again and merge every tracked repository's
   * manifest into it. Fails at the scratch install or at a duplicate PSR-4 prefix.
   */
  method PrepareManifest(snap: seq<Commit>, repos: seq<Repo>, rel: ReleaseRepo, t: int, env: Env) returns (res: Result<ComposerJson, Fatal>)
    modifies rel
    ensures var m := FinalManifest(snap, Aliases(repos), env.vendored(t));
            && (res.Success? <==> env.scratchOk(t) && m.Some?)
            && (res.Success? ==> Some(res.value) == m && res.value.config == InitialConfig)
    ensures res.Failure? && !env.scratchOk(t) ==> res.error == InstallFailed(t, true)
    ensures res.Failure? && env.scratchOk(t) ==> res.error.DuplicatePsr4? && res.error.at == t && res.error.conflict.alias in Aliases(repos)
    ensures rel.history == old(rel.history) && rel.tags == old(rel.tags)
    ensures rel.installs == old(rel.installs) + [DuringInstall(ScratchManifest(snap), env.cacheDir)]
    ensures env.scratchOk(t) ==> rel.composerFile == Some(ScratchManifest(snap))
    ensures !env.scratchOk(t) ==> rel.composerFile == Some(DuringInstall(ScratchManifest(snap), env.cacheDir))
  {
    var doc := ScratchManifest(snap);
    var after, ok := rel.ComposerInstall(doc, env.cacheDir, env.scratchOk(t));
    if !ok {
      return Failure(InstallFailed(t, true));
    }
    ScratchRoundTrip(snap);
    doc := after.(config := after.config.(vendorDir := None));
    var merged := MergeTrackedManifests(doc, repos, env.vendored(t));
    if merged.Failure? {
      return Failure(DuplicatePsr4(t, merged.error));
    }
    MergedAllKeeps(doc, Aliases(repos), env.vendored(t));
    res := Success(merged.value);
  }

  /**
   * The second half of an iteration (run.php:243-303): test every resolved commit, commit a
   * release record with the title, the status description and the installed composer.json,
   * and push a tag exactly when no suite failed.
   */
  method Publish(snap: seq<Commit>, rel: ReleaseRepo, t: int, manifest: ComposerJson, env: Env)
    modifies rel, snap
    ensures var failed := FailedAliases(snap, env.passes(t));
            && rel.history == old(rel.history) + [Record(t, Title(env.stamp(t), failed), Description(Tested(snap, env.passes(t)), env.stamp), Some(manifest))]
            && rel.tags == old(rel.tags) + (if failed == [] then [ReleaseTag(env.tagStamp(t))] else [])
    ensures forall i :: 0 <= i < |snap| ==> snap[i].passed == env.passes(t)(snap[i].repo.alias)
    ensures rel.installs == old(rel.installs) && rel.composerFile == old(rel.composerFile)
  {
    var failed := RunTests(snap, env.passes(t));
    var title := Title(env.stamp(t), failed);
    var description := Description(Statuses(snap), env.stamp);
    var tag := if failed == [] then Some(ReleaseTag(env.tagStamp(t))) else None;
    rel.CommitRelease(Record(t, title, description, Some(manifest)), tag);
  }

  /**
   * One iteration of the loop at time `t` (run.php:162-303) on the snapshot `snap` resolved at
   * its start. It fails at the scratch install, at a duplicate PSR-4 prefix, or at the final
   * install, in that order, and then neither tests, commits nor tags; otherwise every resolved
   * commit is tested, a release record carrying the title, the description and the merged
   * composer.json is committed, and a tag is pushed exactly when no suite failed.
   */
  method Iteration(snap: seq<Commit>, repos: seq<Repo>, rel: ReleaseRepo, t: int, env: Env) returns (err: Option<Fatal>)
    modifies rel, snap
    ensures var m := FinalManifest(snap, Aliases(repos), env.vendored(t));
            && (err == Some(InstallFailed(t, true)) <==> !env.scratchOk(t))
            && (err.Some? && err.value.DuplicatePsr4? <==> env.scratchOk(t) && m.None?)
            && (err == Some(InstallFailed(t, false)) <==> env.scratchOk(t) && m.Some? && !env.finalOk(t))
            && (err.None? <==> env.scratchOk(t) && m.Some? && env.finalOk(t))
    ensures err.Some? && err.value.DuplicatePsr4? ==> err.value.at == t && err.value.conflict.alias in Aliases(repos)
    ensures err.Some? ==> rel.history == old(rel.history) && rel.tags == old(rel.tags) && unchanged(snap)
    ensures err.None? ==>
              var failed := FailedAliases(snap, env.passes(t));
              && rel.history == old(rel.history) + [Record(t, Title(env.stamp(t), failed), Description(Tested(snap, env.passes(t)), env.stamp), FinalManifest(snap, Aliases(repos), env.vendored(t)))]
              && rel.tags == old(rel.tags) + (if failed == [] then [ReleaseTag(env.tagStamp(t))] else [])
              && (forall i :: 0 <= i < |snap| ==> snap[i].passed == env.passes(t)(snap[i].repo.alias))
    ensures var m := FinalManifest(snap, Aliases(repos), env.vendored(t));
            var scratch := DuringInstall(ScratchManifest(snap), env.cacheDir);
            && (!env.scratchOk(t) ==> rel.installs == old(rel.installs) + [scratch] && rel.composerFile == Some(scratch))
            && (env.scratchOk(t) && m.None? ==>
                  rel.installs == old(rel.installs) + [scratch] && rel.composerFile == Some(ScratchManifest(snap)))
            && (env.scratchOk(t) && m.Some? ==>
                  && rel.installs == old(rel.installs) + [scratch, DuringInstall(m.value, env.cacheDir)]
                  && rel.composerFile == Some(if env.finalOk(t) then m.value else DuringInstall(m.value, env.cacheDir)))
  {
    var merged := PrepareManifest(snap, repos, rel, t, env);
    if merged.Failure? {
      return Some(merged.error);
    }
    FinalManifestConfig(snap, Aliases(repos), env.vendored(t));
    var final, ok := rel.ComposerInstall(merged.value, env.cacheDir, env.finalOk(t));
    if !ok {
      return Some(InstallFailed(t, false));
    }
    Publish(snap, rel, t, final, env);
    err := None;
  }

  /**
   * One iteration at time `t` (run.php:152-303): resolves the snapshot and runs the iteration
   * on it. Stated only as far as the loop needs it: a successful iteration commits exactly one
   * record, dated `t`; a failed one reports `t` and commits nothing.
   */
  method RunIteration(repos: seq<Repo>, rel: ReleaseRepo, t: int, env: Env) returns (err: Option<Fatal>)
    modifies rel, AllCommits(repos)
    ensures err.None? ==> Dates(rel.history) == Dates(old(rel.history)) + [t]
    ensures err.Some? ==> !err.value.NoReleaseHistory? && err.value.at == t && rel.history == old(rel.history)
  {
    ghost var tracked := AllCommits(repos);
    var snap := Resolve(repos, t);
    SnapshotCommitsTracked(repos, t);
    assert AllCommits(repos) == tracked;
    assert forall c :: c in snap ==> c in tracked;
    err := Iteration(snap, repos, rel, t, env);
    if err.None? {
      DatesAppend(old(rel.history), rel.history[|rel.history| - 1]);
    }
  }

  lemma DatesAppend(records: seq<Record>, r: Record)
    ensures Dates(records + [r]) == Dates(records) + [r.date]
  {
  }

  /**
   * The loop over the ksorted commit times (run.php:145-304) with watermark `w`: skipped points
   * are passed over, every other point is released in order, and the loop stops at the first
   * iteration that fails. `stop` is the position it stopped at.
   */
  method ReleaseDue(repos: seq<Repo>, rel: ReleaseRepo, env: Env, sorted: seq<int>, w: int)
    returns (processed: seq<int>, err: Option<Fatal>, ghost stop: nat)
    modifies rel, AllCommits(repos)
    ensures stop <= |sorted| && processed == DuePoints(sorted[..stop], w)
    ensures Dates(rel.history) == Dates(old(rel.history)) + processed
    ensures err.None? ==> stop == |sorted|
    ensures err.Some? ==> stop < |sorted| && !Skipped(sorted[stop], w) && !err.value.NoReleaseHistory? && err.value.at == sorted[stop]
  {
    processed := [];
    ghost var start := rel.history;
    ghost var tracked := AllCommits(repos);
    for i := 0 to |sorted|
      invariant unchanged(repos)
      invariant processed == DuePoints(sorted[..i], w)
      invariant Dates(rel.history) == Dates(start) + processed
    {
      assert sorted[..i + 1][..i] == sorted[..i];
      var t := sorted[i];
      if Skipped(t, w) {
        continue;
      }
      assert AllCommits(repos) == tracked;
      var e := RunIteration(repos, rel, t, env);
      if e.Some? {
        return processed, e, i;
      }
      processed := processed + [t];
    }
    assert sorted[..|sorted|] == sorted;
    err := None;
    stop := |sorted|;
  }

  /**
   * The whole loop (run.php:134-304): with no release record there is no watermark and the
   * script stops; otherwise the due points are visited in ascending order, each resolving its
   * snapshot and committing one release record, until one iteration fails. On success every
   * due point has been released and a rerun would find nothing to do. The repositories'
   * timelines are not changed by the run, so the due points are those at its start.
   */
  method Run(repos: seq<Repo>, rel: ReleaseRepo, env: Env) returns (processed: seq<int>, err: Option<Fatal>)
    modifies rel, AllCommits(repos)
    ensures old(rel.history) == [] ==> err == Some(NoReleaseHistory) && processed == [] && rel.history == []
    ensures Dates(rel.history) == Dates(old(rel.history)) + processed
    ensures StrictlyAscending(processed)
    ensures old(rel.history) != [] ==>
              var due := old(Due(repos, rel.history[|rel.history| - 1].date));
              && (forall t :: t in processed ==> t in due)
              && (err.None? ==> forall t :: t in due ==> t in processed)
              && (err.Some? ==>
                    && !err.value.NoReleaseHistory?
                    && err.value.at in due && err.value.at !in processed
                    && forall t :: t in due && t < err.value.at ==> t in processed)
    ensures old(rel.history) != [] && err.None? ==>
              var last := Watermark(rel.history).value;
              old(Due(repos, last)) == {}
    ensures old(rel.history) != [] ==>
              && Watermark(rel.history).Some?
              && old(Watermark(rel.history)).value <= Watermark(rel.history).value
              && (processed != [] ==> Watermark(rel.history) == Some(processed[|processed| - 1]))
  {
    var watermark := Watermark(rel.history);
    if watermark.None? {
      return [], Some(NoReleaseHistory);
    }
    ghost var dts := CommitDts(repos);
    var w := watermark.value;
    var keys := UniqueDts(repos);
    var sorted := SortKeys(keys);
    ScheduleIsDue(dts, sorted, w);
    ghost var stop;
    processed, err, stop := ReleaseDue(repos, rel, env, sorted, w);
    if err.Some? {
      StoppedAt(sorted, w, stop);
    } else {
      assert sorted[..stop] == sorted;
      RerunFindsNothing(dts, w, processed);
    }
    WatermarkAdvances(old(rel.history), rel.history, processed);
  }

  /**
   * Monotonicity: records appended for times after the old watermark move it forward, to the
   * last time processed.
   */
  lemma WatermarkAdvances(before: seq<Record>, after: seq<Record>, processed: seq<int>)
    requires before != [] && Dates(after) == Dates(before) + processed
    requires forall t :: t in processed ==> t > Watermark(before).value
    ensures Watermark(after).Some? && Watermark(before).value <= Watermark(after).value
    ensures processed != [] ==> Watermark(after) == Some(processed[|processed| - 1])
  {
    if processed != [] {
      assert processed[|processed| - 1] in processed;
    }
  }
}
