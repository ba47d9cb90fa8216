/**
 * The iteration schedule (run.php:135-148): every distinct commit time of every tracked
 * repository, in ascending order, minus the points at or before the watermark (the date of
 * the newest release record, read once before the loop) and the points before a fixed floor.
 */
module Schedule {
  import opened Repos

  /** `$minDt`: 2020-01-01 00:00:00 UTC in whole seconds (run.php:83). */
  const MinDt: int := 1577836800

  /** The commit times of one repository. */
  function Dts(cs: seq<Commit>): set<int>
  {
    set c | c in cs :: c.dt
  }

  /** The commit times of all tracked repositories, one entry per distinct second. */
  ghost function CommitDts(repos: seq<Repo>): set<int>
    reads repos
  {
    if repos == [] then {}
    else CommitDts(repos[..|repos| - 1]) + Dts(repos[|repos| - 1].commits)
  }

  /** The loop's skip test (run.php:146). */
  predicate Skipped(t: int, watermark: int)
  {
    t <= watermark || t < MinDt
  }

  /** The commit times in `dts` that a run after `watermark` must process. */
  function DueIn(dts: set<int>, watermark: int): set<int>
  {
    set t | t in dts && !Skipped(t, watermark)
  }

  /** The points a run after `watermark` must process. */
  ghost function Due(repos: seq<Repo>, watermark: int): set<int>
    reads repos
  {
    DueIn(CommitDts(repos), watermark)
  }

  predicate StrictlyAscending(s: seq<int>)
  {
    forall i, j :: 0 <= i < j < |s| ==> s[i] < s[j]
  }

  /** A time is collected exactly when some commit of some tracked repository carries it. */
  lemma {:induction false} CommitDtsMembers(repos: seq<Repo>, t: int)
    ensures t in CommitDts(repos) <==>
            exists i, j :: 0 <= i < |repos| && 0 <= j < |repos[i].commits| && repos[i].commits[j].dt == t
  {
    if repos != [] {
      var n := |repos| - 1;
      var pre := repos[..n];
      CommitDtsMembers(pre, t);
      if t in CommitDts(repos) {
        if t in CommitDts(pre) {
          var i, j :| 0 <= i < |pre| && 0 <= j < |pre[i].commits| && pre[i].commits[j].dt == t;
          assert repos[i] == pre[i];
        } else {
          var c :| c in repos[n].commits && c.dt == t;
          var j :| 0 <= j < |repos[n].commits| && repos[n].commits[j] == c;
        }
      } else {
        forall i, j | 0 <= i < |repos| && 0 <= j < |repos[i].commits|
          ensures repos[i].commits[j].dt != t
        {
          if i < n {
            assert pre[i] == repos[i];
          } else {
            assert repos[i].commits[j] in repos[n].commits;
          }
        }
      }
    }
  }

  predicate Distinct(s: seq<int>)
  {
    forall i, j :: 0 <= i < j < |s| ==> s[i] != s[j]
  }

  /**
   * Fills the keys of `$uniqueDts` (run.php:137-142), in insertion order: one key per
   * commit time of every tracked repository; a time shared by several commits is kept once.
   */
  method UniqueDts(repos: seq<Repo>) returns (keys: seq<int>)
    ensures Distinct(keys)
    ensures forall t :: t in keys <==> t in CommitDts(repos)
  {
    keys := [];
    for i := 0 to |repos|
      invariant Distinct(keys)
      invariant forall t :: t in keys <==> t in CommitDts(repos[..i])
    {
      var cs := repos[i].commits;
      for j := 0 to |cs|
        invariant Distinct(keys)
        invariant forall t :: t in keys <==> t in CommitDts(repos[..i]) + Dts(cs[..j])
      {
        assert cs[..j + 1] == cs[..j] + [cs[j]];
        if cs[j].dt !in keys {
          keys := keys + [cs[j].dt];
        }
      }
      assert cs[..|cs|] == cs;
      assert repos[..i + 1][..i] == repos[..i];
    }
    assert repos[..|repos|] == repos;
  }

  /** Inserts a new key into a strictly ascending list of keys. */
  function InsertKey(s: seq<int>, k: int): (r: seq<int>)
    requires StrictlyAscending(s) && k !in s
    ensures StrictlyAscending(r)
    ensures |r| == |s| + 1
    ensures forall x :: x in r <==> x in s || x == k
  {
    if s == [] then [k]
    else if k < s[0] then [k] + s
    else
      assert s == [s[0]] + s[1..];
      var rest := InsertKey(s[1..], k);
      assert forall i :: 0 <= i < |rest| ==> s[0] < rest[i] by {
        forall i | 0 <= i < |rest| ensures s[0] < rest[i] {
          assert rest[i] in s[1..] || rest[i] == k;
        }
      }
      [s[0]] + rest
  }

  /** ksort on `$uniqueDts` (run.php:143): the same keys, strictly ascending. */
  method SortKeys(keys: seq<int>) returns (s: seq<int>)
    requires Distinct(keys)
    ensures StrictlyAscending(s)
    ensures forall x :: x in s <==> x in keys
  {
    s := [];
    for i := 0 to |keys|
      invariant StrictlyAscending(s)
      invariant forall x :: x in s <==> x in keys[..i]
    {
      assert keys[..i + 1] == keys[..i] + [keys[i]];
      s := InsertKey(s, keys[i]);
    }
    assert keys[..|keys|] == keys;
  }

  /** The points of `sorted` that the loop does not skip, in the order it reaches them. */
  function DuePoints(sorted: seq<int>, watermark: int): (r: seq<int>)
    ensures forall x :: x in r <==> x in sorted && !Skipped(x, watermark)
    ensures StrictlyAscending(sorted) ==> StrictlyAscending(r)
  {
    if sorted == [] then []
    else
      var n := |sorted| - 1;
      var pre := DuePoints(sorted[..n], watermark);
      assert forall x :: x in pre ==> x in sorted[..n];
      assert StrictlyAscending(sorted) ==> forall i :: 0 <= i < |pre| ==> pre[i] < sorted[n] by {
        if StrictlyAscending(sorted) {
          forall i | 0 <= i < |pre| ensures pre[i] < sorted[n] {
            assert pre[i] in sorted[..n];
          }
        }
      }
      if Skipped(sorted[n], watermark) then pre else pre + [sorted[n]]
  }

  /** In a strictly ascending list, the entries before position `i` are exactly those below `s[i]`. */
  lemma AscendingPrefix(s: seq<int>, i: nat)
    requires StrictlyAscending(s) && i < |s|
    ensures forall x :: x in s[..i] <==> x in s && x < s[i]
  {
    forall x | x in s && x < s[i] ensures x in s[..i] {
      var k :| 0 <= k < |s| && s[k] == x;
      assert k < i;
    }
  }

  /**
   * Walking the ksorted keys with the skip test visits exactly the due points, strictly
   * ascending (run.php:137-148).
   */
  lemma ScheduleIsDue(dts: set<int>, sorted: seq<int>, watermark: int)
    requires StrictlyAscending(sorted)
    requires forall x :: x in sorted <==> x in dts
    ensures StrictlyAscending(DuePoints(sorted, watermark))
    ensures forall t :: t in DuePoints(sorted, watermark) <==> t in DueIn(dts, watermark)
  {
  }

  /**
   * A walk that stops at position `stop` of the ksorted keys has visited exactly the due
   * points below `sorted[stop]`, and not `sorted[stop]` itself.
   */
  lemma StoppedAt(sorted: seq<int>, watermark: int, stop: nat)
    requires StrictlyAscending(sorted) && stop < |sorted|
    ensures var done := DuePoints(sorted[..stop], watermark);
            && sorted[stop] !in done
            && (forall t :: t in done ==> t in DuePoints(sorted, watermark))
            && (forall t :: t in DuePoints(sorted, watermark) && t < sorted[stop] ==> t in done)
  {
    AscendingPrefix(sorted, stop);
  }

  /**
   * Idempotence: once a run has processed every due point, a second run whose watermark is
   * the last processed point (or the old watermark, if there was none) finds nothing to do.
   */
  lemma RerunFindsNothing(dts: set<int>, watermark: int, processed: seq<int>)
    requires StrictlyAscending(processed)
    requires forall t :: t in processed <==> t in DueIn(dts, watermark)
    ensures DueIn(dts, if processed == [] then watermark else processed[|processed| - 1]) == {}
  {
    if processed != [] {
      var last := |processed| - 1;
      assert processed[last] in processed;
      assert processed[last] > watermark;
      assert forall t :: t in DueIn(dts, processed[last]) ==> t in DueIn(dts, watermark);
      forall t | t in DueIn(dts, watermark) ensures t <= processed[last] {
        var k :| 0 <= k < |processed| && processed[k] == t;
        assert k == last || processed[k] < processed[last];
      }
    }
  }
}
