# atk4 monorepo release iteration, modelled in Dafny

`run.php` builds the release history of the atk4 monorepo. It loads the commit log of five
tracked repositories (atk4/core, dsql, data, schema, ui) and sorts each log by commit time. It
takes every distinct commit time of every repository, in ascending order. For each time after the
watermark and not before 2020-01-01, it does the following:

- resolves the commit each repository was at;
- writes a composer.json that pins those commits;
- installs once into a scratch `vendor2` directory, so it can read each repository's own
  composer.json;
- merges their `require-dev` constraints and `autoload-dev.psr-4` prefixes;
- installs again and runs every repository's test suite;
- commits a release record to the `releases` branch, and tags it when every suite passed.

The watermark is the date of the newest record on that branch.

The model is imperative where the script is:

- `Repo` and `Commit` are classes. The loader reassigns `Repo.commits`, and the test loop sets
  `Commit.passed`.
- The release repository is a class holding its history, tags, saved composer.json and install
  log.
- The loops are methods with invariants. Each is proved against a function that specifies it.

The pure parts are functions with lemmas: the `require` map, the one-repository merge, the title,
the description and the tag.

Files:

- `common.dfy`: Option, Result and `implode`.
- `repos.dfy`: repositories, commits, loading and sorting.
- `schedule.dfy`: the iteration schedule.
- `resolver.dfy`: the snapshot resolver.
- `composer.dfy`: composer.json synthesis and merging.
- `bookkeeping.dfy`: tests, `failedRepos`, title, description and tag.
- `release.dfy`: the install helper, one iteration, and the whole loop.

Two behaviours of the script worth knowing:

- An empty release history stands for a missing `releases` branch. The script fetches and checks
  out that branch before anything else (run.php:94-95), and that step fails, so the run ends
  (`NoReleaseHistory`).
- The duplicate PSR-4 check fires whenever a repository declares a prefix already present in the
  release composer.json, whichever repository added it. A prefix declared earlier with an empty
  path list adds no entry, so it does not clash.

## Model

| member | source | states |
|---|---|---|
| Repos.Repo.constructor | run.php:35-48 | a new repository has the given alias and url, branch `develop` and no commits |
| Repos.Commit.constructor | run.php:100-118 | a new commit keeps its repository, hash and time, and is not marked passed |
| Repos.Registry | run.php:75-81 | the five tracked repositories in registry order, fresh, empty, on the `develop` branch, with pairwise distinct aliases |
| Repos.Repo.LoadLog | run.php:120-132 | after loading, the commit list is sorted by time, every commit belongs to the repository, and its (hash, time) entries are a permutation of the old ones plus the log |
| Repos.LoadTimelines | run.php:120-132 | every tracked repository ends valid, holding a permutation of its old commits plus its own log |
| Repos.Repo.SortByDate | run.php:129-131 | usort by time: the list is sorted and a permutation of the old list |
| Repos.InsertPos | run.php:129-131 | the insertion point lies after every commit not later than the new one and before every later one |
| Repos.InsertSorted | run.php:129-131 | inserting at that point keeps the list sorted |
| Repos.InsertByDate | run.php:129-131 | insertion keeps the list sorted and adds exactly the new commit to its multiset |
| Schedule.CommitDtsMembers | run.php:137-142 | a time is collected iff some commit of some tracked repository carries it |
| Schedule.UniqueDts | run.php:137-142 | the keys of `$uniqueDts` are distinct and are exactly the collected commit times |
| Schedule.InsertKey | run.php:143 | inserting a new key keeps the keys strictly ascending and adds exactly that key |
| Schedule.SortKeys | run.php:143 | ksort: the same keys, strictly ascending |
| Schedule.DuePoints | run.php:145-148 | the loop visits exactly the keys the skip test lets through, and in ascending order |
| Schedule.ScheduleIsDue | run.php:137-148 | walking the sorted keys visits exactly the due commit times, strictly ascending |
| Schedule.StoppedAt | run.php:145-148 | a loop stopped at a key has visited exactly the due times below it, and not that key |
| Schedule.RerunFindsNothing | run.php:135-148 | once every due time is processed, a rerun whose watermark is the last processed time finds nothing due |
| Resolver.LastAtOrBefore | run.php:153-160 | the position of the last commit not later than t, or None when every commit is later |
| Resolver.Resolved | run.php:153-160 | the chosen commit is one of the repository's commits |
| Resolver.WithCommits | run.php:153-160 | exactly the repositories that have commits, keeping distinct aliases |
| Resolver.WithCommitsConcat | run.php:153-160 | the filter keeps registry order: filtering a concatenation concatenates the filtered parts |
| Resolver.SnapshotResolved | run.php:152-160 | the snapshot holds one commit per repository with commits, in registry order, each that repository's resolved commit |
| Resolver.SnapshotSnoc | run.php:152-160 | the snapshot of one more repository extends the snapshot by that repository's resolved commit, if it has commits |
| Resolver.ResolvedIsLatest | run.php:153-160 | on a sorted log, the resolved commit is the latest one not later than t, or the earliest when none is |
| Resolver.ResolveRepo | run.php:155-159 | the inner loop leaves a repository's resolved commit, or no entry when it has no commits |
| Resolver.Resolve | run.php:152-160 | the resolver loop yields exactly the resolved snapshot |
| Composer.FakerAllowed | run.php:210-224 | the injected faker package is not on the denylist |
| Composer.Pins | run.php:177-184 | one pin per alias in the snapshot; a commit whose alias does not recur is pinned as dev-branch#hash |
| Composer.RequireMap | run.php:175-184 | `require` keys are php plus the snapshot's aliases; php is ^7.3; every commit is pinned when aliases are unique |
| Composer.DevOf | run.php:207-210 | a repository's require-dev keeps every constraint it declares and gains fzaninotto/faker at "*"; nothing else is added |
| Composer.MergeConstraintsKeeps | run.php:213-215 | the merged keys are the union; a package on both sides gets old + ", " + new; one on a single side keeps its constraint; nothing is overwritten |
| Composer.MergeRequireDev | run.php:213-215 | the require-dev loop yields the constraint merge |
| Composer.MergePsr4Keeps | run.php:226-234 | without a clash, old prefixes keep their paths, and each new prefix with paths maps to its vendor paths |
| Composer.MergedFails | run.php:226-229 | merging one repository fails iff it declares a prefix already present |
| Composer.MergedRequireDev | run.php:207-224 | a successful merge keeps config and require; the denylist is absent; faker ends in "*"; earlier constraints outside the denylist are kept as prefixes, and the repository's own constraints outside the denylist end each merged entry |
| Composer.MergedPsr4 | run.php:226-234 | a successful merge keeps the old prefixes and adds exactly the newly declared ones, with vendor paths |
| Composer.AppendPaths | run.php:231-233 | appending the paths of a new prefix gives its vendor paths in order; an empty list adds no entry |
| Composer.MergeAutoload | run.php:226-234 | the PSR-4 loop fails iff some prefix is already present, reporting one such prefix; otherwise it yields the PSR-4 merge |
| Composer.MergePackage | run.php:207-234 | merging one repository succeeds iff the specified merge does, with the same result; a failure names the repository and a clashing prefix |
| Composer.MergedAllKeeps | run.php:206-235 | merging all repositories never touches config or require; afterwards the denylist is absent and faker is present |
| Composer.DuplicatePrefixIff | run.php:206-235 | starting without PSR-4 entries, the merge fails iff a repository declares a prefix an earlier one declared with paths; on success the prefixes are exactly the declared ones |
| Composer.MergedAllPaths | run.php:206-235 | on success every declared prefix maps to vendor/<alias>/<path> of its repository |
| Composer.MergeTrackedManifests | run.php:206-235 | the merge loop over the repositories succeeds iff the specified merge does, with the same result; a failure names a tracked repository |
| Composer.MergedAllFailed | run.php:206-235 | once the merge of the first repositories fails, the merge of all of them fails |
| Release.InstallConfig | run.php:191-195 | during an install, config has discard-changes, data-dir and cache-dir set, and is otherwise unchanged |
| Release.ReleaseRepo.constructor | run.php:72-73 | the release repository starts with its history, no tags, no saved file and no installs |
| Release.SnapshotUnique | run.php:152-160 | with the registry's distinct aliases, the snapshot holds at most one commit per alias, each from the repository it was resolved from |
| Release.SnapshotPinned | run.php:175-184 | with the registry's distinct aliases, the committed `require` maps every resolved commit's alias to dev-branch#hash of that commit |
| Release.Watermark | run.php:135 | no watermark without records; otherwise the date of the newest record |
| Release.ReleaseRepo.ComposerInstall | run.php:189-202 | the install runs with the three keys added; on success they are removed again and the file is saved (a document without them comes back unchanged); on failure the file keeps them; history and tags are unchanged |
| Release.ScratchManifest | run.php:165-205 | the scratch install sees the initial composer.json with vendor-dir set to vendor2 |
| Release.ScratchRoundTrip | run.php:198-205 | removing the install keys and vendor-dir gives back the composer.json first built for the snapshot |
| Release.PrepareManifest | run.php:164-235 | fails at the scratch install or at a duplicate prefix, in that order; otherwise yields the merged manifest, whose config is back to sort-packages only; one install logged; the saved composer.json is the scratch one (vendor-dir vendor2), with the install keys still set if that install failed; commits nothing |
| Release.FinalManifestConfig | run.php:203-205 | vendor-dir is vendor2 for the scratch install only: the final manifest's config is sort-packages alone, with no vendor-dir and no install keys |
| Bookkeeping.FailedAliasesMembers | run.php:243-282 | an alias is in `failedRepos` iff one of its resolved commits failed; the list is empty iff every suite passed |
| Bookkeeping.RunTests | run.php:243-282 | every commit is marked with its suite's verdict, and `failedRepos` lists the failures in snapshot order |
| Bookkeeping.Title | run.php:287 | the title starts "Build <time>: " and then reads PASSED iff nothing failed, otherwise "FAILED - " followed by exactly the failed aliases joined by ", " |
| Bookkeeping.JoinMentions | run.php:287 | every part of an implode occurs in it |
| Bookkeeping.TitleNamesFailures | run.php:287 | a failing title names every failed repository |
| Bookkeeping.ShortHash | run.php:290 | the first 16 characters of the hash, or the whole hash when shorter |
| Bookkeeping.StatusText | run.php:290 | a status line starts with alias, short hash and time, and ends in "passed" iff the commit passed |
| Bookkeeping.StatusTexts | run.php:289-291 | one status line per status, in snapshot order |
| Bookkeeping.Description | run.php:288-291 | the description starts with the header line |
| Bookkeeping.LinesMention | run.php:289-291 | every line occurs in the joined lines |
| Bookkeeping.DescriptionMentions | run.php:288-291 | the description contains the status line of every resolved commit |
| Bookkeeping.Explode | run.php:293-295 | `explode` yields at least one piece, no piece holds a line break, and joining the pieces with line breaks gives back the input |
| Bookkeeping.ExplodeLine | run.php:293-295 | splitting a line without a break, followed by a break, yields that line first |
| Bookkeeping.LinesExplode | run.php:288-295 | lines without breaks, each ended by a break, split back into the same lines and a final empty piece |
| Bookkeeping.DescriptionParagraphs | run.php:288-295 | the commit message has the header, one paragraph per resolved commit carrying its verdict, then an empty paragraph |
| Bookkeeping.ReleaseTag | run.php:299-300 | the tag is "v0." followed by exactly the date stamp |
| Release.ReleaseRepo.CommitRelease | run.php:292-303 | commit and push append exactly the record; the tag is appended iff there is one; the install log and saved composer.json are unchanged |
| Release.Publish | run.php:243-303 | after the tests, exactly one record is committed, holding the time, the title of the failures, the description of the tested snapshot and the manifest; a tag is pushed iff nothing failed; each commit carries its verdict; the install log and saved composer.json are unchanged |
| Release.Iteration | run.php:162-303 | the iteration fails at the scratch install, at a duplicate prefix, or at the final install, each iff its cause; a failure commits, tags and tests nothing; success commits the full record with the merged manifest and tags iff every suite passed; the installs are the scratch one (vendor-dir vendor2) and, once the merge succeeds, the final one with the merged manifest; the saved composer.json is stated in every case |
| Release.RunIteration | run.php:152-303 | success commits exactly one record, dated with the iteration time; a failure reports that time and commits nothing |
| Release.ReleaseDue | run.php:145-304 | the loop commits records exactly for the unskipped keys it reaches, in order, and stops at the first failing iteration |
| Release.Run | run.php:134-304 | without a release record the run stops; otherwise the records added are due times in ascending order; on success they are all the due times and a rerun finds nothing due; on failure they are every due time before the failing one; the watermark never moves back, and after any release it is the last time processed |
| Release.WatermarkAdvances | run.php:135-148 | records appended for times after the watermark move it forward, to the last time processed |

## Left out

- Git, composer, PHPUnit and the file system are not executed. The log of each repository, the
  outcome of each install, the composer.json each repository has under vendor2, and each test
  verdict are parameters (`LoadLog`'s entries and the functions in `Release.Env`).
- Commit, push and tag are modelled as always succeeding. A failed commit or push would end the
  run before the record is durable. A failed tag or tag push would end it after the record was
  pushed, without the tag.
- Parsing the `git log` lines and the DateTime conversions are left out. Times are whole UTC
  seconds. The 'Y-m-d H:i:s' and 'ymd.His' formats are given functions.
- Console output is not modelled: `run()`'s echo, the iteration counter and `print_r`.
- The clone/fetch/checkout step is not modelled, and neither is `$deleteDirFunc`. Also left out:
  the removal of vendor/atk4/ui; the rewriting of atk4/ui test files and of the fake
  vendor/autoload.php before the tests; and the PHPUnit cache directory.
- The constant fields of composer.json (name, description, type, homepage, license, authors) are
  left out. Only the keys that change between iterations are modelled. `config` is modelled as a
  record of the five keys the script sets.
- fix_one_by_one.php is not part of this model.
- Composer.MergeAutoload: the reported prefix is some clashing prefix. PHP's array iteration
  order, which decides which one, is not modelled.
- Composer.MergeRequireDev: keys are merged in an unspecified order. The result is independent of
  that order, because each key is merged once.
- Repos.Repo.SortByDate: the order of equal-time commits is not stated. The model is a stable
  insertion sort, while PHP's usort promises no particular order for ties.
- Composer.Pins: states the pin of every commit whose alias does not recur. For a snapshot of the
  registry every alias is unique, so every resolved commit is pinned (`Release.SnapshotPinned`).
- Release.RunIteration: states only the dates and the error facts the loop needs. The full
  contract of an iteration is on `Release.Iteration`.
- Release.ReleaseDue: states the records' dates, the stop position and the error. The records'
  titles, descriptions, manifests and tags are stated per iteration by `Release.Iteration`.
- Release.Run: a `releases` branch whose commits are all merges makes `git log --no-merges` print
  nothing, and the watermark becomes the current time. This case is not modelled.
- Release.Run: states the records' dates and errors. Their titles, descriptions, manifests and
  tags are stated per iteration by `Release.Iteration`.
