/**
 * Result bookkeeping of one iteration (run.php:243-303): the test loop that marks each resolved
 * commit and collects `failedRepos`, the release title, the status description and the tag.
 */
module Bookkeeping {
  import opened Common
  import opened Repos

  /** `s` occurs inside `t` at position `k`. */
  ghost predicate OccursAt(s: string, t: string, k: int)
  {
    0 <= k && k + |s| <= |t| && t[k..k + |s|] == s
  }

  /** `s` occurs somewhere inside `t`. */
  ghost predicate Occurs(s: string, t: string)
  {
    exists k :: OccursAt(s, t, k)
  }

  lemma OccursInside(s: string, pre: string, t: string, post: string)
    requires Occurs(s, t)
    ensures Occurs(s, pre + t + post)
  {
    var k :| OccursAt(s, t, k);
    var u := pre + t + post;
    assert u[|pre| + k..|pre| + k + |s|] == t[k..k + |s|];
    assert OccursAt(s, u, |pre| + k);
  }

  /** Every part of `implode(sep, parts)` occurs in it. */
  lemma {:induction false} JoinMentions(parts: seq<string>, sep: string, i: nat)
    requires i < |parts|
    ensures Occurs(parts[i], Join(parts, sep))
  {
    if |parts| == 1 {
      assert Join(parts, sep)[0..|parts[0]|] == parts[0];
      assert OccursAt(parts[0], Join(parts, sep), 0);
    } else if i == 0 {
      var j := Join(parts, sep);
      assert j == parts[0] + (sep + Join(parts[1..], sep));
      assert j[0..|parts[0]|] == parts[0];
      assert OccursAt(parts[0], j, 0);
    } else {
      JoinMentions(parts[1..], sep, i - 1);
      OccursInside(parts[i], parts[0] + sep, Join(parts[1..], sep), "");
      assert parts[0] + sep + Join(parts[1..], sep) + "" == Join(parts, sep);
    }
  }

  /**
   * `$failedRepos` as the test loop leaves it (run.php:243-282): the aliases of the resolved
   * commits whose test run failed, in snapshot order.
   */
  function FailedAliases(snap: seq<Commit>, passes: string -> bool): seq<string>
  {
    if snap == [] then []
    else
      var n := |snap| - 1;
      var a := snap[n].repo.alias;
      FailedAliases(snap[..n], passes) + if passes(a) then [] else [a]
  }

  /** An alias is listed exactly when a resolved commit of that repository failed its tests. */
  lemma {:induction false} FailedAliasesMembers(snap: seq<Commit>, passes: string -> bool)
    ensures var r := FailedAliases(snap, passes);
            && |r| <= |snap|
            && (forall a :: a in r <==> exists i :: 0 <= i < |snap| && snap[i].repo.alias == a && !passes(a))
            && (r == [] <==> forall i :: 0 <= i < |snap| ==> passes(snap[i].repo.alias))
  {
    if snap != [] {
      var n := |snap| - 1;
      FailedAliasesMembers(snap[..n], passes);
      assert forall i :: 0 <= i < n ==> snap[..n][i] == snap[i];
    }
  }

  /**
   * The test loop (run.php:243-282): every resolved commit is marked failed, tested, and marked
   * passed when its suite succeeds; a failure is recorded and the loop goes on with the next
   * commit. `passes` gives the outcome of each repository's suite in this iteration.
   */
  method RunTests(snap: seq<Commit>, passes: string -> bool) returns (failed: seq<string>)
    modifies snap
    ensures failed == FailedAliases(snap, passes)
    ensures forall i :: 0 <= i < |snap| ==> snap[i].passed == passes(snap[i].repo.alias)
    ensures Statuses(snap) == Tested(snap, passes)
  {
    failed := [];
    for i := 0 to |snap|
      invariant failed == FailedAliases(snap[..i], passes)
      invariant forall j :: 0 <= j < i ==> snap[j].passed == passes(snap[j].repo.alias)
    {
      var c := snap[i];
      c.passed := false;
      if passes(c.repo.alias) {
        c.passed := true;
      } else {
        failed := failed + [c.repo.alias];
      }
      assert snap[..i + 1][..i] == snap[..i];
    }
    assert snap[..|snap|] == snap;
  }

  const Passed: string := "PASSED"
  const FailedHead: string := "FAILED - "

  /**
   * The release title (run.php:287): "Build <time>: " followed by PASSED exactly when no test
   * failed, otherwise by FAILED and every failed alias.
   */
  function Title(stamp: string, failed: seq<string>): (r: string)
    ensures "Build " + stamp + ": " <= r
    ensures r[|"Build " + stamp + ": "|..] == Passed <==> failed == []
    ensures failed != [] ==> FailedHead <= r[|"Build " + stamp + ": "|..]
    ensures failed != [] ==> r[|"Build " + stamp + ": "| + |FailedHead|..] == Join(failed, ", ")
  {
    var head := "Build " + stamp + ": ";
    var status := if failed == [] then Passed else FailedHead + Join(failed, ", ");
    assert (head + status)[|head|..] == status;
    assert status == Passed ==> status[0] == 'P';
    head + status
  }

  /** A failing title names every failed repository. */
  lemma TitleNamesFailures(stamp: string, failed: seq<string>, i: nat)
    requires i < |failed|
    ensures Occurs(failed[i], Title(stamp, failed))
  {
    JoinMentions(failed, ", ", i);
    OccursInside(failed[i], "Build " + stamp + ": " + FailedHead, Join(failed, ", "), "");
    assert "Build " + stamp + ": " + FailedHead + Join(failed, ", ") + "" == Title(stamp, failed);
  }

  /** `substr($hash, 0, 16)`: the first sixteen characters, or the whole hash if shorter. */
  function ShortHash(hash: string): (r: string)
    ensures r <= hash
    ensures |r| == if |hash| < 16 then |hash| else 16
  {
    if |hash| < 16 then hash else hash[..16]
  }

  /** What the status description shows of one resolved commit once its suite has run. */
  datatype Status = Status(alias: string, hash: string, dt: int, passed: bool)

  function StatusOf(c: Commit): Status
    reads c
  {
    Status(c.repo.alias, c.hash, c.dt, c.passed)
  }

  /** The statuses of a snapshot, in snapshot order. */
  function Statuses(snap: seq<Commit>): seq<Status>
    reads snap
  {
    seq(|snap|, i reads snap requires 0 <= i < |snap| => StatusOf(snap[i]))
  }

  /** The statuses of a snapshot once every suite has run, `passes` giving each suite's outcome. */
  function Tested(snap: seq<Commit>, passes: string -> bool): seq<Status>
  {
    seq(|snap|, i requires 0 <= i < |snap| => Status(snap[i].repo.alias, snap[i].hash, snap[i].dt, passes(snap[i].repo.alias)))
  }

  /** The status line of one resolved commit, without its line break (run.php:290). */
  function StatusText(s: Status, stamp: int -> string): (r: string)
    ensures s.alias + ": " + ShortHash(s.hash) + " (" + stamp(s.dt) + "): " <= r
    ensures IsSuffix("passed", r) <==> s.passed
  {
    var head := s.alias + ": " + ShortHash(s.hash) + " (" + stamp(s.dt) + "): ";
    var verdict := if s.passed then "passed" else "FAILED";
    assert (head + verdict)[|head + verdict| - 6..] == verdict;
    head + verdict
  }

  const StatusHeader: string := "Atk4 Monorepo Status: "

  /** `explode("\n", s)`: the pieces of `s` between line breaks (run.php:293-295). */
  function Explode(s: string): (r: seq<string>)
    ensures |r| >= 1
    ensures Join(r, "\n") == s
    ensures forall p :: p in r ==> '\n' !in p
  {
    if s == [] then [""]
    else
      var rest := Explode(s[1..]);
      assert s == [s[0]] + s[1..];
      if s[0] == '\n' then
        assert Join([""] + rest, "\n") == "" + "\n" + Join(rest, "\n");
        [""] + rest
      else
        var r := [[s[0]] + rest[0]] + rest[1..];
        assert |rest| > 1 ==> Join(rest, "\n") == rest[0] + "\n" + Join(rest[1..], "\n");
        assert |rest| > 1 ==> Join(r, "\n") == ([s[0]] + rest[0]) + "\n" + Join(r[1..], "\n");
        assert r[1..] == rest[1..];
        assert forall p :: p in r ==> p == [s[0]] + rest[0] || p in rest;
        r
  }

  lemma {:induction false} ExplodeLine(a: string, b: string)
    requires '\n' !in a
    ensures Explode(a + "\n" + b) == [a] + Explode(b)
  {
    if a == [] {
      assert a + "\n" + b == ['\n'] + b;
      assert (['\n'] + b)[1..] == b;
    } else {
      ExplodeLine(a[1..], b);
      assert (a + "\n" + b)[1..] == a[1..] + "\n" + b;
      assert [a[0]] + a[1..] == a;
    }
  }

  /** Lines joined into one text, each ended by a line break. */
  function Lines(parts: seq<string>): string
  {
    if parts == [] then "" else parts[0] + "\n" + Lines(parts[1..])
  }

  /** The status lines without their line breaks, in snapshot order. */
  function StatusTexts(ss: seq<Status>, stamp: int -> string): (r: seq<string>)
    ensures |r| == |ss| && forall i :: 0 <= i < |ss| ==> r[i] == StatusText(ss[i], stamp)
  {
    if ss == [] then [] else [StatusText(ss[0], stamp)] + StatusTexts(ss[1..], stamp)
  }

  /** The release description (run.php:288-291): the header line, then one line per status. */
  function Description(ss: seq<Status>, stamp: int -> string): (r: string)
    ensures StatusHeader + "\n" <= r
  {
    StatusHeader + "\n" + Lines(StatusTexts(ss, stamp))
  }

  lemma OccursFirst(s: string, t: string)
    ensures Occurs(s, s + t)
  {
    assert (s + t)[0..|s|] == s;
    assert OccursAt(s, s + t, 0);
  }

  /** Every line occurs in the joined text. */
  lemma {:induction false} LinesMention(parts: seq<string>, i: nat)
    requires i < |parts|
    ensures Occurs(parts[i], Lines(parts))
  {
    var tail := Lines(parts[1..]);
    assert Lines(parts) == parts[0] + "\n" + tail;
    if i == 0 {
      OccursFirst(parts[0], "\n" + tail);
      assert parts[0] + ("\n" + tail) == Lines(parts);
    } else {
      assert parts[1..][i - 1] == parts[i];
      LinesMention(parts[1..], i - 1);
      OccursInside(parts[i], parts[0] + "\n", tail, "");
      assert parts[0] + "\n" + tail + "" == Lines(parts);
    }
  }

  /** The description mentions the status line of every resolved commit, whatever its text. */
  lemma DescriptionMentions(ss: seq<Status>, stamp: int -> string, i: nat)
    requires i < |ss|
    ensures Occurs(StatusText(ss[i], stamp), Description(ss, stamp))
  {
    var lines := StatusTexts(ss, stamp);
    LinesMention(lines, i);
    OccursInside(lines[i], StatusHeader + "\n", Lines(lines), "");
    assert StatusHeader + "\n" + Lines(lines) + "" == Description(ss, stamp);
  }

  ghost predicate SingleLine(s: string)
  {
    '\n' !in s
  }

  /** Lines without breaks, joined, split back into the same lines and a final empty piece. */
  lemma {:induction false} LinesExplode(parts: seq<string>)
    requires forall i :: 0 <= i < |parts| ==> SingleLine(parts[i])
    ensures Explode(Lines(parts)) == parts + [""]
  {
    if parts != [] {
      var tail := Lines(parts[1..]);
      assert SingleLine(parts[0]);
      LinesExplode(parts[1..]);
      ExplodeLine(parts[0], tail);
      calc {
        Explode(Lines(parts));
        Explode(parts[0] + "\n" + tail);
        [parts[0]] + Explode(tail);
        [parts[0]] + (parts[1..] + [""]);
        { assert [parts[0]] + parts[1..] == parts; }
        parts + [""];
      }
    }
  }

  /**
   * The commit message the description turns into (run.php:293-295): split at line breaks it
   * gives the status header, one paragraph per resolved commit with that commit's verdict, and
   * a final empty paragraph, provided no alias, hash or formatted date spans lines.
   */
  lemma DescriptionParagraphs(ss: seq<Status>, stamp: int -> string)
    requires forall i :: 0 <= i < |ss| ==> SingleLine(StatusText(ss[i], stamp))
    ensures var p := Explode(Description(ss, stamp));
            && |p| == |ss| + 2
            && p[0] == StatusHeader
            && p[|ss| + 1] == ""
            && (forall i :: 0 <= i < |ss| ==> p[i + 1] == StatusText(ss[i], stamp))
            && (forall i :: 0 <= i < |ss| ==> (IsSuffix("passed", p[i + 1]) <==> ss[i].passed))
  {
    var lines := StatusTexts(ss, stamp);
    HeaderSingleLine();
    ExplodeLine(StatusHeader, Lines(lines));
    LinesExplode(lines);
    var p := Explode(Description(ss, stamp));
    assert p == [StatusHeader] + lines + [""];
    forall i | 0 <= i < |ss|
      ensures p[i + 1] == StatusText(ss[i], stamp)
      ensures IsSuffix("passed", p[i + 1]) <==> ss[i].passed
    {
      assert p[i + 1] == lines[i];
    }
  }

  lemma HeaderSingleLine()
    ensures SingleLine(StatusHeader)
  {
  }

  /** The tag of a release whose tests all passed (run.php:300). */
  function ReleaseTag(tagStamp: string): (r: string)
    ensures |r| == |tagStamp| + 3 && "v0." <= r
    ensures r[3..] == tagStamp
  {
    "v0." + tagStamp
  }
}
