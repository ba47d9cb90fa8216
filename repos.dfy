/**
 * The tracked repositories and their commit timelines (run.php:35-48, 75-81, 99-132).
 * A `Repo` owns the list of its commits, which the loader appends to and then sorts by
 * commit time; a `Commit` keeps a back-reference to its repository and a pass/fail flag
 * that only the test loop writes.
 */
module Repos {

  /** One parsed line of `git log --pretty="%H %cD"`: hash and commit time in whole UTC seconds. */
  datatype LogEntry = LogEntry(hash: string, dt: int)

  /** The aliases of the tracked repositories, in registry order (run.php:75-81). */
  const TrackedAliases: seq<string> :=
    ["atk4/core", "atk4/dsql", "atk4/data", "atk4/schema", "atk4/ui"]

  class Repo {
    const alias: string
    const url: string
    const branch: string
    var commits: seq<Commit>

    constructor (alias: string, url: string)
      ensures this.alias == alias && this.url == url
      ensures branch == "develop" && commits == []
    {
      this.alias := alias;
      this.url := url;
      branch := "develop";
      commits := [];
    }

    /** Every commit belongs to this repository, and the list is ascending by commit time. */
    ghost predicate Valid()
      reads this
    {
      && SortedByDate(commits)
      && forall c :: c in commits ==> c.repo == this
    }

    /**
     * Appends one `Commit` per log entry and sorts the list by commit time
     * (run.php:120-132). The result is a permutation of the old commits plus the log.
     */
    method LoadLog(log: seq<LogEntry>)
      requires Valid()
      modifies this
      ensures Valid()
      ensures multiset(Entries(commits)) == multiset(Entries(old(commits)) + log)
      ensures forall c :: c in commits && c !in old(commits) ==> fresh(c)
    {
      var i := 0;
      while i < |log|
        invariant 0 <= i <= |log|
        invariant Entries(commits) == Entries(old(commits)) + log[..i]
        invariant forall c :: c in commits ==> c.repo == this
        invariant forall c :: c in commits && c !in old(commits) ==> fresh(c)
      {
        var c := new Commit(this, log[i].hash, log[i].dt);
        assert Entries(commits + [c]) == Entries(commits) + [LogEntry(c.hash, c.dt)];
        assert log[..i + 1] == log[..i] + [log[i]];
        commits := commits + [c];
        i := i + 1;
      }
      assert log[..i] == log;
      ghost var unsorted := commits;
      SortByDate();
      forall c | c in commits
        ensures c.repo == this && (c !in old(commits) ==> fresh(c))
      {
        assert c in multiset(unsorted);
      }
    }

    /** usort by `dt` (run.php:129-131): sorted, and a permutation of the old list. */
    method SortByDate()
      modifies this
      ensures SortedByDate(commits)
      ensures multiset(commits) == multiset(old(commits))
      ensures multiset(Entries(commits)) == multiset(Entries(old(commits)))
    {
      var sorted: seq<Commit> := [];
      var i := 0;
      while i < |commits|
        invariant 0 <= i <= |commits|
        invariant SortedByDate(sorted)
        invariant multiset(sorted) == multiset(commits[..i])
        invariant multiset(Entries(sorted)) == multiset(Entries(commits[..i]))
      {
        assert commits[..i + 1] == commits[..i] + [commits[i]];
        assert Entries(commits[..i + 1]) == Entries(commits[..i]) + [LogEntry(commits[i].hash, commits[i].dt)];
        sorted := InsertByDate(sorted, commits[i]);
        i := i + 1;
      }
      assert commits[..i] == commits;
      commits := sorted;
    }
  }

  class Commit {
    const repo: Repo
    const hash: string
    const dt: int
    var passed: bool

    constructor (repo: Repo, hash: string, dt: int)
      ensures this.repo == repo && this.hash == hash && this.dt == dt && !passed
    {
      this.repo := repo;
      this.hash := hash;
      this.dt := dt;
      passed := false;
    }
  }

  ghost predicate SortedByDate(cs: seq<Commit>)
  {
    forall i, j :: 0 <= i < j < |cs| ==> cs[i].dt <= cs[j].dt
  }

  /** Registry aliases are pairwise different. */
  predicate DistinctAliases(repos: seq<Repo>)
  {
    forall i, j :: 0 <= i < j < |repos| ==> repos[i].alias != repos[j].alias
  }

  /** The (hash, time) pairs a commit list was built from. */
  function Entries(cs: seq<Commit>): seq<LogEntry>
  {
    seq(|cs|, i requires 0 <= i < |cs| => LogEntry(cs[i].hash, cs[i].dt))
  }

  /** Where a commit at time `d` goes in a list ascending by time: after every commit not later than `d`. */
  function InsertPos(cs: seq<Commit>, d: int): (k: nat)
    requires SortedByDate(cs)
    ensures k <= |cs|
    ensures forall i :: 0 <= i < k ==> cs[i].dt <= d
    ensures forall i :: k <= i < |cs| ==> d < cs[i].dt
  {
    if cs == [] || d < cs[0].dt then 0 else 1 + InsertPos(cs[1..], d)
  }

  lemma EntriesConcat(a: seq<Commit>, b: seq<Commit>)
    ensures Entries(a + b) == Entries(a) + Entries(b)
  {
  }

  lemma InsertSorted(cs: seq<Commit>, k: nat, c: Commit)
    requires SortedByDate(cs) && k <= |cs|
    requires forall i :: 0 <= i < k ==> cs[i].dt <= c.dt
    requires forall i :: k <= i < |cs| ==> c.dt < cs[i].dt
    ensures SortedByDate(cs[..k] + ([c] + cs[k..]))
  {
    var r := cs[..k] + ([c] + cs[k..]);
    assert forall i :: 0 <= i < |r| ==> r[i] == if i < k then cs[i] else if i == k then c else cs[i - 1];
    forall i, j | 0 <= i < j < |r| ensures r[i].dt <= r[j].dt {
      if j < k || k < i {
      } else if i == k {
        assert c.dt < cs[j - 1].dt;
      } else if j == k {
        assert cs[i].dt <= c.dt;
      } else {
        assert cs[i].dt <= c.dt < cs[j - 1].dt;
      }
    }
  }

  /**
   * Inserts `c` into a list ascending by commit time, after every commit that is not later
   * than it, so that repeated insertion keeps equal-time commits in their original order.
   */
  function InsertByDate(cs: seq<Commit>, c: Commit): (r: seq<Commit>)
    requires SortedByDate(cs)
    ensures SortedByDate(r)
    ensures multiset(r) == multiset(cs) + multiset{c}
    ensures multiset(Entries(r)) == multiset(Entries(cs)) + multiset{LogEntry(c.hash, c.dt)}
  {
    var k := InsertPos(cs, c.dt);
    var pre, post := cs[..k], cs[k..];
    assert cs == pre + post;
    var r := pre + ([c] + post);
    InsertSorted(cs, k, c);
    assert multiset(r) == multiset(pre) + multiset([c] + post);
    EntriesConcat(pre, post);
    EntriesConcat(pre, [c] + post);
    EntriesConcat([c], post);
    assert Entries([c]) == [LogEntry(c.hash, c.dt)];
    r
  }

  /** Builds the five tracked repositories of the registry (run.php:75-81), none loaded yet. */
  method Registry() returns (repos: seq<Repo>)
    ensures |repos| == |TrackedAliases|
    ensures forall i :: 0 <= i < |repos| ==> repos[i].alias == TrackedAliases[i]
    ensures forall i :: 0 <= i < |repos| ==> repos[i].branch == "develop"
    ensures forall i :: 0 <= i < |repos| ==> fresh(repos[i]) && repos[i].commits == [] && repos[i].Valid()
    ensures DistinctAliases(repos)
  {
    var core := new Repo("atk4/core", "https://github.com/atk4/core.git");
    var dsql := new Repo("atk4/dsql", "https://github.com/atk4/dsql.git");
    var data := new Repo("atk4/data", "https://github.com/atk4/data.git");
    var schema := new Repo("atk4/schema", "https://github.com/atk4/schema.git");
    var ui := new Repo("atk4/ui", "https://github.com/atk4/ui.git");
    repos := [core, dsql, data, schema, ui];
  }

  /**
   * Loads the log of every tracked repository (run.php:120-132): each repository's list becomes
   * a sorted permutation of its old commits plus its own log, `log` giving the parsed output of
   * `git log` for each alias.
   */
  method LoadTimelines(repos: seq<Repo>, log: string -> seq<LogEntry>)
    requires forall i, j :: 0 <= i < j < |repos| ==> repos[i] != repos[j]
    requires forall i :: 0 <= i < |repos| ==> repos[i].Valid()
    modifies set r | r in repos
    ensures forall i :: 0 <= i < |repos| ==> repos[i].Valid()
    ensures forall i :: 0 <= i < |repos| ==>
              multiset(Entries(repos[i].commits)) == multiset(Entries(old(repos[i].commits)) + log(repos[i].alias))
  {
    for i := 0 to |repos|
      invariant forall j :: 0 <= j < |repos| ==> repos[j].Valid()
      invariant forall j :: 0 <= j < i ==>
                  multiset(Entries(repos[j].commits)) == multiset(Entries(old(repos[j].commits)) + log(repos[j].alias))
      invariant forall j :: i <= j < |repos| ==> repos[j].commits == old(repos[j].commits)
    {
      repos[i].LoadLog(log(repos[i].alias));
    }
  }
}
