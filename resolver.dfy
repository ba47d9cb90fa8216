/**
 * The snapshot resolver (run.php:152-160): for one iteration time, the commit each tracked
 * repository is built at.
 */
module Resolver {
  import opened Common
  import opened Repos

  /** The position of the last commit not later than `t`, if there is one. */
  function LastAtOrBefore(cs: seq<Commit>, t: int): (r: Option<nat>)
    ensures r.Some? ==> r.value < |cs| && cs[r.value].dt <= t
    ensures r.Some? ==> forall k :: r.value < k < |cs| ==> cs[k].dt > t
    ensures r.None? ==> forall k :: 0 <= k < |cs| ==> cs[k].dt > t
  {
    if cs == [] then None
    else if cs[|cs| - 1].dt <= t then Some(|cs| - 1)
    else LastAtOrBefore(cs[..|cs| - 1], t)
  }

  /**
   * The resolution rule: the last commit in list order whose time is not later than `t`;
   * when every commit is later than `t`, the first commit.
   */
  function Resolved(cs: seq<Commit>, t: int): (c: Commit)
    requires cs != []
    ensures c in cs
  {
    match LastAtOrBefore(cs, t)
    case Some(k) => cs[k]
    case None => cs[0]
  }

  /** The repositories that have at least one commit, in registry order. */
  function WithCommits(repos: seq<Repo>): (r: seq<Repo>)
    reads repos
    ensures |r| <= |repos|
    ensures forall k :: 0 <= k < |r| ==> r[k] in repos && r[k].commits != []
    ensures forall x :: x in repos && x.commits != [] ==> x in r
    ensures DistinctAliases(repos) ==> DistinctAliases(r)
  {
    if repos == [] then []
    else
      var n := |repos| - 1;
      var pre := WithCommits(repos[..n]);
      assert forall x :: x in pre ==> x in repos[..n];
      if repos[n].commits == [] then pre else pre + [repos[n]]
  }

  /**
   * The filter keeps registry order: the repositories with commits of a concatenation are those
   * of the first part followed by those of the second.
   */
  lemma {:induction false} WithCommitsConcat(a: seq<Repo>, b: seq<Repo>)
    ensures WithCommits(a + b) == WithCommits(a) + WithCommits(b)
  {
    if b == [] {
      assert a + b == a;
    } else {
      var n := |b| - 1;
      assert a + b == (a + b[..n]) + [b[n]];
      assert b == b[..n] + [b[n]];
      WithCommitsSnoc(a + b[..n], b[n]);
      WithCommitsSnoc(b[..n], b[n]);
      WithCommitsConcat(a, b[..n]);
    }
  }

  lemma WithCommitsSnoc(pre: seq<Repo>, r: Repo)
    ensures WithCommits(pre + [r]) == WithCommits(pre) + if r.commits == [] then [] else [r]
  {
    assert (pre + [r])[..|pre|] == pre;
  }

  /** The resolved snapshot: the resolved commit of every repository that has commits. */
  function Snapshot(repos: seq<Repo>, t: int): seq<Commit>
    reads repos
  {
    if repos == [] then []
    else
      var n := |repos| - 1;
      Snapshot(repos[..n], t) + if repos[n].commits == [] then [] else [Resolved(repos[n].commits, t)]
  }

  /** The snapshot holds the resolved commit of each repository with commits, in that order. */
  lemma {:induction false} SnapshotResolved(repos: seq<Repo>, t: int)
    ensures |Snapshot(repos, t)| == |WithCommits(repos)|
    ensures forall k :: 0 <= k < |Snapshot(repos, t)| ==> Snapshot(repos, t)[k] == Resolved(WithCommits(repos)[k].commits, t)
  {
    if repos != [] {
      var n := |repos| - 1;
      SnapshotResolved(repos[..n], t);
      assert repos == repos[..n] + [repos[n]];
      WithCommitsSnoc(repos[..n], repos[n]);
    }
  }

  /**
   * On a list ascending by time, the resolved commit is the latest one not later than `t`
   * (ties going to the one that comes last); when there is none, it is the earliest commit.
   */
  lemma ResolvedIsLatest(cs: seq<Commit>, t: int)
    requires cs != [] && SortedByDate(cs)
    ensures (exists k :: 0 <= k < |cs| && cs[k].dt <= t) ==>
              && Resolved(cs, t).dt <= t
              && forall c :: c in cs && c.dt <= t ==> c.dt <= Resolved(cs, t).dt
    ensures (forall k :: 0 <= k < |cs| ==> cs[k].dt > t) ==>
              && Resolved(cs, t) == cs[0]
              && forall c :: c in cs ==> Resolved(cs, t).dt <= c.dt
  {
    match LastAtOrBefore(cs, t)
    case Some(r) =>
      forall c | c in cs && c.dt <= t ensures c.dt <= cs[r].dt {
        var k :| 0 <= k < |cs| && cs[k] == c;
        assert k <= r;
      }
    case None =>
  }

  /**
   * The resolver loop (run.php:153-160). Within one repository a commit replaces the entry when
   * its time is not later than `t`, or when the repository has no entry yet.
   */
  method Resolve(repos: seq<Repo>, t: int) returns (snap: seq<Commit>)
    ensures snap == Snapshot(repos, t)
  {
    snap := [];
    for i := 0 to |repos|
      invariant snap == Snapshot(repos[..i], t)
    {
      var chosen := ResolveRepo(repos[i].commits, t);
      SnapshotSnoc(repos, i, t);
      if chosen.Some? {
        snap := snap + [chosen.value];
      }
    }
    assert repos[..|repos|] == repos;
  }

  /** The snapshot of the first `i + 1` repositories extends that of the first `i`. */
  lemma SnapshotSnoc(repos: seq<Repo>, i: nat, t: int)
    requires i < |repos|
    ensures Snapshot(repos[..i + 1], t) ==
              Snapshot(repos[..i], t) + if repos[i].commits == [] then [] else [Resolved(repos[i].commits, t)]
  {
    assert repos[..i + 1][..i] == repos[..i];
  }

  /**
   * The inner loop of the resolver (run.php:155-159) over one repository's commits: the entry
   * the repository ends with, if any.
   */
  method ResolveRepo(cs: seq<Commit>, t: int) returns (chosen: Option<Commit>)
    ensures chosen == if cs == [] then None else Some(Resolved(cs, t))
  {
    chosen := None;
    for j := 0 to |cs|
      invariant chosen == if j == 0 then None else Some(Resolved(cs[..j], t))
    {
      if cs[j].dt <= t || chosen.None? {
        chosen := Some(cs[j]);
      }
      assert cs[..j + 1][..j] == cs[..j];
    }
    assert cs[..|cs|] == cs;
  }
}
