/**
 * Synthesis of the release repository's composer.json (run.php:164-235): the `require` map
 * pinning every resolved commit, and the merge of each tracked repository's own
 * `require-dev` constraints and `autoload-dev.psr-4` prefixes.
 */
module Composer {
  import opened Common
  import opened Repos

  /**
   * The `config` section of the release composer.json, one field per key the script ever
   * sets: `sort-packages`, then `vendor-dir`, `discard-changes`, `data-dir` and `cache-dir`,
   * each `None` while the key is absent.
   */
  datatype Config = Config(
    sortPackages: bool,
    vendorDir: Option<string>,
    discardChanges: Option<bool>,
    dataDir: Option<string>,
    cacheDir: Option<string>)

  /** `config` as first built: only `sort-packages`, set to true (run.php:174). */
  const InitialConfig: Config := Config(true, None, None, None, None)

  /**
   * The parts of the release composer.json that change between iterations. Name, description,
   * type, homepage, license and authors are constant (run.php:166-173) and are not modelled.
   */
  datatype ComposerJson = ComposerJson(
    config: Config,
    require: map<string, string>,
    requireDev: map<string, string>,
    psr4: map<string, seq<string>>)

  /**
   * What the release needs from a tracked repository's own composer.json: its `require-dev`
   * constraints and its `autoload-dev.psr-4` prefixes, each with its list of paths (a single
   * path string is the one-element list that `(array)` makes of it).
   */
  datatype PackageJson = PackageJson(requireDev: map<string, string>, psr4: map<string, seq<string>>)

  /** A PSR-4 prefix declared by `alias` that an earlier repository already declared. */
  datatype Conflict = Conflict(alias: string, prefix: string)

  const PhpConstraint: string := "^7.3"

  /** Injected into every tracked repository's `require-dev` (run.php:210). */
  const Faker: string := "fzaninotto/faker"

  /** Packages removed from `require-dev` after every repository's merge (run.php:218-224). */
  const Denylist: set<string> := {
    "php-coveralls",
    "squizlabs/php_codesniffer",
    "behat/behat",
    "behat/mink-selenium2-driver",
    "behat/mink-extension",
    "codeclimate/php-test-reporter",
    "phpunit/phpcov"
  }

  lemma FakerAllowed()
    ensures Faker !in Denylist
  {
    assert Faker[0] == 'f';
  }

  /** The version constraint that pins a commit on its repository's branch. */
  function Pin(c: Commit): string
  {
    "dev-" + c.repo.branch + "#" + c.hash
  }

  function AliasesOf(snap: seq<Commit>): set<string>
  {
    set c | c in snap :: c.repo.alias
  }

  /** No two commits of the snapshot belong to repositories with the same alias. */
  predicate UniqueRepos(snap: seq<Commit>)
  {
    forall i, j :: 0 <= i < j < |snap| ==> snap[i].repo.alias != snap[j].repo.alias
  }

  /**
   * The closure at run.php:177-184: one entry per alias of the snapshot; when an alias occurs
   * more than once the later commit wins, so every commit whose alias does not occur again is
   * pinned under its alias.
   */
  function Pins(snap: seq<Commit>): (r: map<string, string>)
    ensures r.Keys == AliasesOf(snap)
    ensures forall k :: 0 <= k < |snap| && (forall j :: k < j < |snap| ==> snap[j].repo.alias != snap[k].repo.alias)
              ==> r[snap[k].repo.alias] == Pin(snap[k])
  {
    if snap == [] then map[]
    else
      var n := |snap| - 1;
      var pre := snap[..n];
      assert snap == pre + [snap[n]];
      Pins(pre)[snap[n].repo.alias := Pin(snap[n])]
  }

  /** `require` (run.php:175-184): `array_merge` of the php constraint with the pins. */
  function RequireMap(snap: seq<Commit>): (r: map<string, string>)
    ensures r.Keys == {"php"} + AliasesOf(snap)
    ensures "php" !in AliasesOf(snap) ==> r["php"] == PhpConstraint
    ensures UniqueRepos(snap) ==> forall c :: c in snap ==> r[c.repo.alias] == Pin(c)
  {
    map["php" := PhpConstraint] + Pins(snap)
  }

  /** The release composer.json as first built for a snapshot (run.php:165-185). */
  function Initial(snap: seq<Commit>): ComposerJson
  {
    ComposerJson(InitialConfig, RequireMap(snap), map[], map[])
  }

  /** A missing or unreadable composer.json decodes to null, which PHP treats as an empty array. */
  function PackageOf(pkg: Option<PackageJson>): PackageJson
  {
    match pkg
    case Some(p) => p
    case None => PackageJson(map[], map[])
  }

  /** A tracked repository's `require-dev` after the faker injection (run.php:210). */
  function DevOf(pkg: Option<PackageJson>): (dev: map<string, string>)
    ensures Faker in dev && dev[Faker] == "*"
    ensures forall k :: k in dev && k != Faker ==> k in PackageOf(pkg).requireDev
    ensures forall k :: k in PackageOf(pkg).requireDev && k != Faker ==> k in dev && dev[k] == PackageOf(pkg).requireDev[k]
  {
    PackageOf(pkg).requireDev[Faker := "*"]
  }

  /**
   * The `require-dev` merge loop (run.php:213-215): a package already constrained gets the
   * new constraint appended after ", "; a new package gets it as it is.
   */
  function MergeConstraints(acc: map<string, string>, dev: map<string, string>): map<string, string>
  {
    acc + map k | k in dev :: (if k in acc then acc[k] + ", " else "") + dev[k]
  }

  /** Constraints are concatenated, never overwritten. */
  lemma MergeConstraintsKeeps(acc: map<string, string>, dev: map<string, string>)
    ensures var r := MergeConstraints(acc, dev);
            && r.Keys == acc.Keys + dev.Keys
            && (forall k :: k in acc ==> acc[k] <= r[k])
            && (forall k :: k in dev ==> IsSuffix(dev[k], r[k]))
            && (forall k :: k in acc && k !in dev ==> r[k] == acc[k])
            && (forall k :: k !in acc && k in dev ==> r[k] == dev[k])
            && (forall k :: k in acc && k in dev ==> r[k] == acc[k] + ", " + dev[k])
  {
    var r := MergeConstraints(acc, dev);
    forall k | k in acc ensures acc[k] <= r[k] {
      if k in dev {
        assert r[k] == acc[k] + (", " + dev[k]);
      }
    }
    forall k | k in dev ensures IsSuffix(dev[k], r[k]) {
      var pre := if k in acc then acc[k] + ", " else "";
      assert r[k] == pre + dev[k];
      assert r[k][|r[k]| - |dev[k]|..] == dev[k];
    }
  }

  /** A tracked repository's PSR-4 paths, made relative to the release's vendor directory. */
  function VendorPaths(alias: string, paths: seq<string>): seq<string>
  {
    if paths == [] then []
    else VendorPaths(alias, paths[..|paths| - 1]) + ["vendor/" + alias + "/" + paths[|paths| - 1]]
  }

  /**
   * The PSR-4 merge (run.php:226-234) when no prefix clashes: every prefix with at least one
   * path gets the repository's vendor paths; a prefix with an empty list adds no entry.
   */
  function MergePsr4(acc: map<string, seq<string>>, alias: string, psr4: map<string, seq<string>>): map<string, seq<string>>
  {
    acc + map k | k in psr4 && psr4[k] != [] :: VendorPaths(alias, psr4[k])
  }

  /** Prefixes already present keep their paths; a new prefix with paths gets vendor paths. */
  lemma MergePsr4Keeps(acc: map<string, seq<string>>, alias: string, psr4: map<string, seq<string>>)
    requires acc.Keys !! psr4.Keys
    ensures var r := MergePsr4(acc, alias, psr4);
            && (forall k :: k in r <==> k in acc || (k in psr4 && psr4[k] != []))
            && (forall k :: k in acc ==> r[k] == acc[k])
            && (forall k :: k in psr4 && psr4[k] != [] ==> r[k] == VendorPaths(alias, psr4[k]))
  {
  }

  /**
   * Merging one tracked repository into the release composer.json (run.php:207-234): its
   * require-dev (with the faker package) is merged and the denylist removed, then its PSR-4
   * prefixes are added; `None` stands for the duplicate-prefix exception.
   */
  function Merged(doc: ComposerJson, alias: string, pkg: Option<PackageJson>): Option<ComposerJson>
  {
    var conf := PackageOf(pkg);
    if conf.psr4.Keys !! doc.psr4.Keys then
      Some(doc.(requireDev := MergeConstraints(doc.requireDev, DevOf(pkg)) - Denylist,
                psr4 := MergePsr4(doc.psr4, alias, conf.psr4)))
    else
      None
  }

  /** The merge of one repository fails exactly when it declares a prefix already present. */
  lemma MergedFails(doc: ComposerJson, alias: string, pkg: Option<PackageJson>)
    ensures Merged(doc, alias, pkg).None? <==> exists k :: k in PackageOf(pkg).psr4 && k in doc.psr4
  {
    if !(PackageOf(pkg).psr4.Keys !! doc.psr4.Keys) {
      var k :| k in PackageOf(pkg).psr4.Keys && k in doc.psr4.Keys;
    }
  }

  /**
   * A successful merge leaves config and require untouched; the denylist is absent from
   * require-dev, the faker package is constrained to "*" (after any constraint already
   * collected), and no earlier constraint outside the denylist is overwritten.
   */
  lemma MergedRequireDev(doc: ComposerJson, alias: string, pkg: Option<PackageJson>)
    ensures var r := Merged(doc, alias, pkg);
            && (r.Some? ==> r.value.config == doc.config && r.value.require == doc.require)
            && (r.Some? ==> r.value.requireDev.Keys !! Denylist)
            && (r.Some? ==> Faker in r.value.requireDev && IsSuffix("*", r.value.requireDev[Faker]))
            && (r.Some? ==> forall k :: k in doc.requireDev && k !in Denylist ==> k in r.value.requireDev && doc.requireDev[k] <= r.value.requireDev[k])
            && (r.Some? ==> forall k :: k in PackageOf(pkg).requireDev && k != Faker && k !in Denylist ==>
                  k in r.value.requireDev && IsSuffix(PackageOf(pkg).requireDev[k], r.value.requireDev[k]))
  {
    if PackageOf(pkg).psr4.Keys !! doc.psr4.Keys {
      var merged := MergeConstraints(doc.requireDev, DevOf(pkg));
      var kept := merged - Denylist;
      assert Merged(doc, alias, pkg).value.requireDev == kept;
      FakerAllowed();
      MergeConstraintsKeeps(doc.requireDev, DevOf(pkg));
      assert Faker in kept && kept[Faker] == merged[Faker];
      assert forall k :: k in doc.requireDev && k !in Denylist ==> kept[k] == merged[k];
      assert forall k :: k in PackageOf(pkg).requireDev && k != Faker && k !in Denylist ==> kept[k] == merged[k];
    }
  }

  /** Merging one more package into the constraints merged so far. */
  lemma MergeConstraintsStep(acc: map<string, string>, done: map<string, string>, k: string, v: string)
    requires k !in done
    ensures var m := MergeConstraints(acc, done);
            m[k := (if k in m then m[k] + ", " else "") + v] == MergeConstraints(acc, done[k := v])
  {
  }

  /** The `require-dev` loop (run.php:213-215), one package at a time. */
  method MergeRequireDev(acc: map<string, string>, dev: map<string, string>) returns (r: map<string, string>)
    ensures r == MergeConstraints(acc, dev)
  {
    r := acc;
    var todo := dev.Keys;
    ghost var done: map<string, string> := map[];
    assert MergeConstraints(acc, done) == acc;
    while todo != {}
      invariant todo <= dev.Keys
      invariant done.Keys == dev.Keys - todo
      invariant forall k :: k in done ==> done[k] == dev[k]
      invariant r == MergeConstraints(acc, done)
      decreases |todo|
    {
      var k := Choose(todo);
      MergeConstraintsStep(acc, done, k, dev[k]);
      r := r[k := (if k in r then r[k] + ", " else "") + dev[k]];
      done := done[k := dev[k]];
      todo := todo - {k};
    }
    assert done == dev;
  }

  /** A map with the keys and values the PSR-4 merge promises is the merged map. */
  lemma MergePsr4Equal(acc: map<string, seq<string>>, alias: string, psr4: map<string, seq<string>>, r: map<string, seq<string>>)
    requires acc.Keys !! psr4.Keys
    requires forall x :: x in r <==> x in acc || (x in psr4 && psr4[x] != [])
    requires forall x :: x in acc ==> r[x] == acc[x]
    requires forall x :: x in psr4 && psr4[x] != [] ==> r[x] == VendorPaths(alias, psr4[x])
    ensures r == MergePsr4(acc, alias, psr4)
  {
    MergePsr4Keeps(acc, alias, psr4);
  }

  /**
   * The inner loop at run.php:231-233: appends every path of a new prefix, under the vendor
   * directory, to that prefix's entry; the entry exists once a first path is appended.
   */
  method AppendPaths(m: map<string, seq<string>>, k: string, alias: string, paths: seq<string>)
    returns (r: map<string, seq<string>>)
    requires k !in m
    ensures r == if paths == [] then m else m[k := VendorPaths(alias, paths)]
  {
    r := m;
    for i := 0 to |paths|
      invariant i == 0 ==> r == m
      invariant i > 0 ==> r == m[k := VendorPaths(alias, paths[..i])]
    {
      assert paths[..i + 1][..i] == paths[..i];
      r := r[k := (if k in r then r[k] else []) + ["vendor/" + alias + "/" + paths[i]]];
    }
    assert paths[..|paths|] == paths;
  }

  /**
   * The `autoload-dev.psr-4` loop (run.php:226-234): fails at a prefix already present in
   * `acc`; otherwise appends every path of every prefix under the vendor directory.
   */
  method MergeAutoload(acc: map<string, seq<string>>, alias: string, psr4: map<string, seq<string>>)
    returns (res: Result<map<string, seq<string>>, string>)
    ensures res.Success? <==> acc.Keys !! psr4.Keys
    ensures res.Success? ==> acc.Keys !! psr4.Keys && res.value == MergePsr4(acc, alias, psr4)
    ensures res.Failure? ==> res.error in acc && res.error in psr4
  {
    var r := acc;
    var prefixes := psr4.Keys;
    while prefixes != {}
      invariant prefixes <= psr4.Keys
      invariant forall x :: x in psr4 && x !in prefixes ==> x !in acc
      invariant forall x :: x in r <==> x in acc || (x in psr4 && x !in prefixes && psr4[x] != [])
      invariant forall x :: x in acc ==> r[x] == acc[x]
      invariant forall x :: x in psr4 && x !in prefixes && psr4[x] != [] ==> r[x] == VendorPaths(alias, psr4[x])
      decreases |prefixes|
    {
      var k := Choose(prefixes);
      if k in r {
        return Failure(k);
      }
      r := AppendPaths(r, k, alias, psr4[k]);
      prefixes := prefixes - {k};
    }
    MergePsr4Equal(acc, alias, psr4, r);
    res := Success(r);
  }

  /**
   * The merge of one tracked repository (run.php:207-234): the require-dev constraints, the
   * denylist, then the PSR-4 prefixes, failing at a prefix already present.
   */
  method MergePackage(doc: ComposerJson, alias: string, pkg: Option<PackageJson>) returns (res: Result<ComposerJson, Conflict>)
    ensures res.Success? <==> Merged(doc, alias, pkg).Some?
    ensures res.Success? ==> res.value == Merged(doc, alias, pkg).value
    ensures res.Failure? ==> res.error.alias == alias && res.error.prefix in PackageOf(pkg).psr4 && res.error.prefix in doc.psr4
  {
    var requireDev := MergeRequireDev(doc.requireDev, DevOf(pkg));
    requireDev := requireDev - Denylist;
    var psr4 := MergeAutoload(doc.psr4, alias, PackageOf(pkg).psr4);
    match psr4
    case Failure(prefix) =>
      res := Failure(Conflict(alias, prefix));
    case Success(merged) =>
      res := Success(doc.(requireDev := requireDev, psr4 := merged));
  }

  /** The aliases of the tracked repositories, in registry order. */
  function Aliases(repos: seq<Repo>): seq<string>
  {
    seq(|repos|, i requires 0 <= i < |repos| => repos[i].alias)
  }

  /**
   * The merge of every tracked repository, in registry order (run.php:206-235), stopping at the
   * first repository that declares a prefix already present. `vendored` gives each alias's
   * composer.json as installed under vendor2.
   */
  function MergedAll(doc: ComposerJson, aliases: seq<string>, vendored: string -> Option<PackageJson>): Option<ComposerJson>
  {
    if aliases == [] then Some(doc)
    else
      var n := |aliases| - 1;
      match MergedAll(doc, aliases[..n], vendored)
      case None => None
      case Some(d) => Merged(d, aliases[n], vendored(aliases[n]))
  }

  /**
   * The merge never touches `config` or `require`; once any repository is merged the denylist
   * is absent from `require-dev` and the faker package is present.
   */
  lemma {:induction false} MergedAllKeeps(doc: ComposerJson, aliases: seq<string>, vendored: string -> Option<PackageJson>)
    ensures var m := MergedAll(doc, aliases, vendored);
            m.Some? ==> m.value.config == doc.config && m.value.require == doc.require
    ensures var m := MergedAll(doc, aliases, vendored);
            m.Some? && aliases != [] ==> m.value.requireDev.Keys !! Denylist && Faker in m.value.requireDev
  {
    if aliases != [] {
      var n := |aliases| - 1;
      MergedAllKeeps(doc, aliases[..n], vendored);
      match MergedAll(doc, aliases[..n], vendored)
      case None =>
      case Some(d) => MergedRequireDev(d, aliases[n], vendored(aliases[n]));
    }
  }

  /** `pkg` declares PSR-4 prefix `p` with at least one path. */
  predicate Declares(pkg: Option<PackageJson>, p: string)
  {
    p in PackageOf(pkg).psr4 && PackageOf(pkg).psr4[p] != []
  }

  /** Some repository declares a prefix that an earlier repository already declared with paths. */
  ghost predicate Clash(aliases: seq<string>, vendored: string -> Option<PackageJson>)
  {
    exists i, j, p :: 0 <= i < j < |aliases| && Declares(vendored(aliases[i]), p) && p in PackageOf(vendored(aliases[j])).psr4
  }

  /** Some repository declares `p` with at least one path. */
  ghost predicate DeclaredBy(aliases: seq<string>, vendored: string -> Option<PackageJson>, p: string)
  {
    exists i :: 0 <= i < |aliases| && Declares(vendored(aliases[i]), p)
  }

  /** A clash among `aliases` is a clash among all but the last, or one with the last. */
  lemma ClashStep(aliases: seq<string>, vendored: string -> Option<PackageJson>)
    requires aliases != []
    ensures var n := |aliases| - 1;
            Clash(aliases, vendored) <==>
              || Clash(aliases[..n], vendored)
              || exists p :: DeclaredBy(aliases[..n], vendored, p) && p in PackageOf(vendored(aliases[n])).psr4
  {
    var n := |aliases| - 1;
    if Clash(aliases, vendored) {
      ClashSplit(aliases, vendored);
    }
    if Clash(aliases[..n], vendored) {
      ClashGrows(aliases, vendored);
    }
    if exists p :: DeclaredBy(aliases[..n], vendored, p) && p in PackageOf(vendored(aliases[n])).psr4 {
      var p :| DeclaredBy(aliases[..n], vendored, p) && p in PackageOf(vendored(aliases[n])).psr4;
      ClashWithLast(aliases, vendored, p);
    }
  }

  lemma ClashSplit(aliases: seq<string>, vendored: string -> Option<PackageJson>)
    requires aliases != [] && Clash(aliases, vendored)
    ensures var n := |aliases| - 1;
            || Clash(aliases[..n], vendored)
            || exists p :: DeclaredBy(aliases[..n], vendored, p) && p in PackageOf(vendored(aliases[n])).psr4
  {
    var n := |aliases| - 1;
    var pre := aliases[..n];
    var i, j, p :| 0 <= i < j < |aliases| && Declares(vendored(aliases[i]), p) && p in PackageOf(vendored(aliases[j])).psr4;
    assert pre[i] == aliases[i];
    if j < n {
      assert pre[j] == aliases[j];
      assert Declares(vendored(pre[i]), p) && p in PackageOf(vendored(pre[j])).psr4;
    } else {
      assert DeclaredBy(pre, vendored, p);
    }
  }

  lemma ClashGrows(aliases: seq<string>, vendored: string -> Option<PackageJson>)
    requires aliases != [] && Clash(aliases[..|aliases| - 1], vendored)
    ensures Clash(aliases, vendored)
  {
    var pre := aliases[..|aliases| - 1];
    var i, j, p :| 0 <= i < j < |pre| && Declares(vendored(pre[i]), p) && p in PackageOf(vendored(pre[j])).psr4;
    assert pre[i] == aliases[i] && pre[j] == aliases[j];
    assert Declares(vendored(aliases[i]), p) && p in PackageOf(vendored(aliases[j])).psr4;
  }

  lemma ClashWithLast(aliases: seq<string>, vendored: string -> Option<PackageJson>, p: string)
    requires aliases != []
    requires DeclaredBy(aliases[..|aliases| - 1], vendored, p) && p in PackageOf(vendored(aliases[|aliases| - 1])).psr4
    ensures Clash(aliases, vendored)
  {
    var pre := aliases[..|aliases| - 1];
    var i :| 0 <= i < |pre| && Declares(vendored(pre[i]), p);
    assert pre[i] == aliases[i];
    assert Declares(vendored(aliases[i]), p) && p in PackageOf(vendored(aliases[|aliases| - 1])).psr4;
  }

  /** A prefix declared among `aliases` is declared among all but the last, or by the last. */
  lemma DeclaredStep(aliases: seq<string>, vendored: string -> Option<PackageJson>, p: string)
    requires aliases != []
    ensures var n := |aliases| - 1;
            DeclaredBy(aliases, vendored, p) <==> DeclaredBy(aliases[..n], vendored, p) || Declares(vendored(aliases[n]), p)
  {
    var n := |aliases| - 1;
    var pre := aliases[..n];
    if DeclaredBy(aliases, vendored, p) {
      var i :| 0 <= i < |aliases| && Declares(vendored(aliases[i]), p);
      if i < n {
        assert Declares(vendored(pre[i]), p);
      }
    }
    if DeclaredBy(pre, vendored, p) {
      var i :| 0 <= i < |pre| && Declares(vendored(pre[i]), p);
      assert Declares(vendored(aliases[i]), p);
    }
  }

  /**
   * Starting from a composer.json without PSR-4 entries, the merge of all repositories fails
   * exactly when some repository declares a prefix that an earlier one declared with paths;
   * when it succeeds, the prefixes are exactly those declared with paths.
   */
  lemma {:induction false} DuplicatePrefixIff(doc: ComposerJson, aliases: seq<string>, vendored: string -> Option<PackageJson>)
    requires doc.psr4 == map[]
    ensures MergedAll(doc, aliases, vendored).None? <==> Clash(aliases, vendored)
    ensures var m := MergedAll(doc, aliases, vendored);
            m.Some? ==> forall p :: p in m.value.psr4 <==> DeclaredBy(aliases, vendored, p)
  {
    if aliases != [] {
      var n := |aliases| - 1;
      var pre := aliases[..n];
      var a := aliases[n];
      DuplicatePrefixIff(doc, pre, vendored);
      ClashStep(aliases, vendored);
      match MergedAll(doc, pre, vendored)
      case None =>
      case Some(d) =>
        MergedFails(d, a, vendored(a));
        MergedPsr4(d, a, vendored(a));
        forall p {
          DeclaredStep(aliases, vendored, p);
        }
    }
  }

  /**
   * A successful merge keeps the old prefixes with their paths and adds exactly the newly
   * declared prefixes that have paths, each mapped to its vendor paths.
   */
  lemma MergedPsr4(d: ComposerJson, a: string, pkg: Option<PackageJson>)
    ensures var r := Merged(d, a, pkg);
            r.Some? ==>
              && (forall p :: p in r.value.psr4 <==> p in d.psr4 || Declares(pkg, p))
              && (forall p :: p in d.psr4 ==> r.value.psr4[p] == d.psr4[p])
              && (forall p :: Declares(pkg, p) ==> r.value.psr4[p] == VendorPaths(a, PackageOf(pkg).psr4[p]))
  {
    var conf := PackageOf(pkg);
    if conf.psr4.Keys !! d.psr4.Keys {
      assert Merged(d, a, pkg).value.psr4 == MergePsr4(d.psr4, a, conf.psr4);
      MergePsr4Keeps(d.psr4, a, conf.psr4);
    }
  }

  /** Every prefix declared by one of `aliases` maps to that repository's vendor paths. */
  ghost predicate VendoredPrefixes(psr4: map<string, seq<string>>, aliases: seq<string>, vendored: string -> Option<PackageJson>)
  {
    forall i, p :: 0 <= i < |aliases| && Declares(vendored(aliases[i]), p) ==>
      p in psr4 && psr4[p] == VendorPaths(aliases[i], PackageOf(vendored(aliases[i])).psr4[p])
  }

  /**
   * When the merge of all repositories succeeds, every declared prefix maps to its repository's
   * paths under vendor/<alias>/, in order.
   */
  lemma {:induction false} MergedAllPaths(doc: ComposerJson, aliases: seq<string>, vendored: string -> Option<PackageJson>)
    ensures var m := MergedAll(doc, aliases, vendored);
            m.Some? ==> VendoredPrefixes(m.value.psr4, aliases, vendored)
  {
    if aliases != [] {
      var n := |aliases| - 1;
      var pre := aliases[..n];
      var a := aliases[n];
      MergedAllPaths(doc, pre, vendored);
      MergedAllSnoc(doc, aliases, n, vendored);
      assert aliases[..n + 1] == aliases;
      var m := MergedAll(doc, aliases, vendored);
      if m.Some? {
        var d := MergedAll(doc, pre, vendored).value;
        assert m == Merged(d, a, vendored(a));
        MergedPsr4(d, a, vendored(a));
        assert aliases == pre + [a];
        VendoredPrefixesStep(d.psr4, m.value.psr4, pre, a, vendored);
      }
    }
  }

  lemma VendoredPrefixesStep(before: map<string, seq<string>>, after: map<string, seq<string>>, pre: seq<string>, a: string,
                             vendored: string -> Option<PackageJson>)
    requires VendoredPrefixes(before, pre, vendored)
    requires forall p :: p in before ==> p in after && after[p] == before[p]
    requires forall p :: Declares(vendored(a), p) ==> p in after && after[p] == VendorPaths(a, PackageOf(vendored(a)).psr4[p])
    ensures VendoredPrefixes(after, pre + [a], vendored)
  {
    var aliases := pre + [a];
    forall i, p | 0 <= i < |aliases| && Declares(vendored(aliases[i]), p)
      ensures p in after && after[p] == VendorPaths(aliases[i], PackageOf(vendored(aliases[i])).psr4[p])
    {
      if i < |pre| {
        assert aliases[i] == pre[i];
      }
    }
  }

  /**
   * The merge loop over every tracked repository (run.php:206-235), in registry order; it
   * stops at the first duplicate PSR-4 prefix, reporting the repository that declared it.
   */
  method MergeTrackedManifests(doc: ComposerJson, repos: seq<Repo>, vendored: string -> Option<PackageJson>)
    returns (res: Result<ComposerJson, Conflict>)
    ensures var m := MergedAll(doc, Aliases(repos), vendored);
            && (res.Success? <==> m.Some?)
            && (res.Success? ==> res.value == m.value)
    ensures res.Failure? ==> res.error.alias in Aliases(repos)
  {
    ghost var aliases := Aliases(repos);
    var acc := doc;
    for i := 0 to |repos|
      invariant MergedAll(doc, aliases[..i], vendored) == Some(acc)
    {
      MergedAllSnoc(doc, aliases, i, vendored);
      var r := MergePackage(acc, repos[i].alias, vendored(repos[i].alias));
      match r
      case Failure(conflict) =>
        MergedAllFailed(doc, aliases, i, vendored);
        assert aliases[i] == conflict.alias;
        return Failure(conflict);
      case Success(next) =>
        acc := next;
    }
    assert aliases[..|repos|] == aliases;
    res := Success(acc);
  }

  /** The merge of the first `i + 1` repositories continues the merge of the first `i`. */
  lemma MergedAllSnoc(doc: ComposerJson, aliases: seq<string>, i: nat, vendored: string -> Option<PackageJson>)
    requires i < |aliases|
    ensures MergedAll(doc, aliases[..i + 1], vendored) ==
              match MergedAll(doc, aliases[..i], vendored)
              case None => None
              case Some(d) => Merged(d, aliases[i], vendored(aliases[i]))
  {
    assert aliases[..i + 1][..i] == aliases[..i];
  }

  /** Once the merge of a prefix of the repositories fails, the merge of all of them fails. */
  lemma {:induction false} MergedAllFailed(doc: ComposerJson, aliases: seq<string>, i: nat, vendored: string -> Option<PackageJson>)
    requires i < |aliases|
    requires MergedAll(doc, aliases[..i + 1], vendored).None?
    ensures MergedAll(doc, aliases, vendored).None?
  {
    if |aliases| != i + 1 {
      var n := |aliases| - 1;
      assert aliases[..n][..i + 1] == aliases[..i + 1];
      MergedAllFailed(doc, aliases[..n], i, vendored);
      MergedAllSnoc(doc, aliases, n, vendored);
      assert aliases[..n + 1] == aliases;
    } else {
      assert aliases[..i + 1] == aliases;
    }
  }
}
