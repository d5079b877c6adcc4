/**
 * The pure core of the release script: sorting commit messages into
 * features, fixes and performance changes, bumping the package version, and
 * rendering the changelog as Markdown. The git calls and the reading and
 * writing of package.json and CHANGELOG.md are not part of this model.
 */
module Changelogger {
  import opened Wrappers
  import opened Text

  /** Where a commit hash links to: the GitHub host, the repository's owner, and its commit path. */
  const REPO_URL := "https://github.com/" + "BrandonGower-Winter/" + "ABMECS/commit/"

  /** A classified commit: its message with the type prefix removed, and its hash. */
  datatype Commit = Commit(msg: string, sha: string)

  // ---------------------------------------------------------------------------
  // Version bump

  /** The exceptions `adjust_version` can raise: a missing component, or one `int` rejects. */
  datatype VersionError = IndexError | ValueError

  /** How many components a bump of this type reads: major, minor, or patch. */
  function Needed(versionType: int): nat {
    if versionType == 0 then 1 else if versionType == 1 then 2 else 3
  }

  /**
   * `adjust_version(version, version_type)` on the components of the old
   * version: type 0 bumps major, type 1 bumps minor, anything else bumps
   * patch. The components before the bumped one are kept verbatim, the ones
   * after it become "0". Only the bumped component is parsed.
   */
  function AdjustVersion(version: seq<string>, versionType: int): (r: Result<string, VersionError>)
    ensures |version| < Needed(versionType) ==> r == Failure(IndexError)
    ensures |version| >= Needed(versionType) ==>
      (r.Failure? <==> ParseNat(version[Needed(versionType) - 1]).None?)
    ensures r.Failure? && |version| >= Needed(versionType) ==> r.error == ValueError
  {
    if versionType == 0 then
      if |version| < 1 then Failure(IndexError)
      else match ParseNat(version[0])
        case None => Failure(ValueError)
        case Some(major) => Success(NatToString(major + 1) + ".0.0")
    else if versionType == 1 then
      if |version| < 2 then Failure(IndexError)
      else match ParseNat(version[1])
        case None => Failure(ValueError)
        case Some(minor) => Success(version[0] + "." + NatToString(minor + 1) + ".0")
    else
      if |version| < 3 then Failure(IndexError)
      else match ParseNat(version[2])
        case None => Failure(ValueError)
        case Some(patch) => Success(version[0] + "." + version[1] + "." + NatToString(patch + 1))
  }

  /** Three dot-free components joined by dots split back into the same three. */
  lemma SplitThree(a: string, b: string, c: string)
    requires '.' !in a && '.' !in b && '.' !in c
    ensures Split(a + "." + b + "." + c, '.') == [a, b, c]
  {
    assert a + "." + b + "." + c == a + ['.'] + (b + ['.'] + c);
    SplitAfter(a, '.', b + ['.'] + c);
    SplitAfter(b, '.', c);
    SplitFree(c, '.');
  }

  lemma NumeralHasNoDot(n: nat)
    ensures '.' !in NatToString(n)
  {
  }

  /**
   * The bumped version, split on '.', is the three components the bump
   * promises: the kept ones verbatim, the bumped one incremented, the rest "0".
   */
  lemma AdjustVersionComponents(version: seq<string>, versionType: int)
    requires forall i :: 0 <= i < |version| ==> '.' !in version[i]
    requires AdjustVersion(version, versionType).Success?
    ensures var parts := Split(AdjustVersion(version, versionType).value, '.');
      && |parts| == 3
      && (versionType == 0 ==> parts == [NatToString(ParseNat(version[0]).value + 1), "0", "0"])
      && (versionType == 1 ==> parts == [version[0], NatToString(ParseNat(version[1]).value + 1), "0"])
      && (versionType != 0 && versionType != 1 ==>
            parts == [version[0], version[1], NatToString(ParseNat(version[2]).value + 1)])
  {
    var k := Needed(versionType);
    var n := ParseNat(version[k - 1]).value;
    NumeralHasNoDot(n + 1);
    assert NatToString(0) == "0";
    if versionType == 0 {
      assert NatToString(n + 1) + ".0.0" == NatToString(n + 1) + "." + "0" + "." + "0";
      SplitThree(NatToString(n + 1), "0", "0");
    } else if versionType == 1 {
      assert version[0] + "." + NatToString(n + 1) + ".0" == version[0] + "." + NatToString(n + 1) + "." + "0";
      SplitThree(version[0], NatToString(n + 1), "0");
    } else {
      SplitThree(version[0], version[1], NatToString(n + 1));
    }
  }

  /** The canonical text of version major.minor.patch. */
  function VersionString(major: nat, minor: nat, patch: nat): string {
    NatToString(major) + "." + NatToString(minor) + "." + NatToString(patch)
  }

  /** Bumping a canonical version yields the next major, minor or patch version. */
  lemma BumpVersion(major: nat, minor: nat, patch: nat, versionType: int)
    ensures AdjustVersion(Split(VersionString(major, minor, patch), '.'), versionType) == Success(
      if versionType == 0 then VersionString(major + 1, 0, 0)
      else if versionType == 1 then VersionString(major, minor + 1, 0)
      else VersionString(major, minor, patch + 1))
  {
    NumeralHasNoDot(major);
    NumeralHasNoDot(minor);
    NumeralHasNoDot(patch);
    SplitThree(NatToString(major), NatToString(minor), NatToString(patch));
    ParsePrinted(major);
    ParsePrinted(minor);
    ParsePrinted(patch);
    assert NatToString(0) == "0";
    assert VersionString(major + 1, 0, 0) == NatToString(major + 1) + ".0.0";
    assert VersionString(major, minor + 1, 0) == NatToString(major) + "." + NatToString(minor + 1) + ".0";
  }

  // ---------------------------------------------------------------------------
  // Markdown

  lemma UrlSingleLine()
    ensures '\n' !in REPO_URL
  {
    assert '\n' !in "https://github.com/";
    assert '\n' !in "BrandonGower-Winter/";
    assert '\n' !in "ABMECS/commit/";
  }

  /**
   * One bullet of a section, without its newline: the message, then the
   * hash's first six characters linking to the full hash. A commit with
   * one-line fields gives a one-line bullet.
   */
  function LineText(c: Commit): (r: string)
    ensures '\n' !in c.msg && '\n' !in c.sha ==> '\n' !in r
  {
    var r := "- " + c.msg + " ([" + Prefix(c.sha, 6) + "](" + REPO_URL + c.sha + "))";
    assert '\n' !in c.msg && '\n' !in c.sha ==> '\n' !in r by {
      if '\n' !in c.msg && '\n' !in c.sha {
        assert '\n' !in Prefix(c.sha, 6) by {
          assert forall j :: 0 <= j < |Prefix(c.sha, 6)| ==> Prefix(c.sha, 6)[j] == c.sha[j];
        }
        UrlSingleLine();
        var parts := ["- ", c.msg, " ([", Prefix(c.sha, 6), "](", REPO_URL, c.sha, "))"];
        assert r == parts[0] + parts[1] + parts[2] + parts[3] + parts[4] + parts[5] + parts[6] + parts[7];
      }
    }
    r
  }

  /** The bullet `format_commits` appends for one commit: a line of its own. */
  function CommitLine(c: Commit): (r: string)
    ensures '\n' !in c.msg && '\n' !in c.sha ==> Split(r, '\n') == [LineText(c), ""]
  {
    var r := LineText(c) + "\n";
    assert '\n' !in c.msg && '\n' !in c.sha ==> Split(r, '\n') == [LineText(c), ""] by {
      if '\n' !in c.msg && '\n' !in c.sha {
        assert r == LineText(c) + ['\n'] + "";
        SplitAfter(LineText(c), '\n', "");
      }
    }
    r
  }

  /** The bullets of a list of commits, in list order. */
  function Bullets(cs: seq<Commit>): string {
    if cs == [] then "" else Bullets(cs[..|cs| - 1]) + CommitLine(cs[|cs| - 1])
  }

  /**
   * What `format_commits(title, cs)` returns: nothing for no commits,
   * otherwise a header and one bullet per commit.
   */
  function Section(title: string, cs: seq<Commit>): (r: string)
    ensures r == "" <==> cs == []
  {
    if |cs| > 0 then "##" + title + ":\n\n" + Bullets(cs) else ""
  }

  /** `format_commits(title, list_of_commits)`: the accumulating loop. */
  method FormatCommits(title: string, listOfCommits: seq<Commit>) returns (content: string)
    ensures content == Section(title, listOfCommits)
  {
    content := "";
    if |listOfCommits| > 0 {
      var header := "##" + title + ":\n\n";
      content := header;
      for i := 0 to |listOfCommits|
        invariant content == header + Bullets(listOfCommits[..i])
      {
        var commit := listOfCommits[i];
        var line := "- " + commit.msg + " ([" + Prefix(commit.sha, 6) + "](" + REPO_URL + commit.sha + "))\n";
        BulletsStep(listOfCommits, i);
        assert line == CommitLine(commit) by {
          assert line == LineText(commit) + "\n";
        }
        AppendAssoc(header, Bullets(listOfCommits[..i]), line);
        content := content + line;
      }
      assert listOfCommits[..|listOfCommits|] == listOfCommits;
    }
  }

  lemma BulletsStep(cs: seq<Commit>, i: nat)
    requires i < |cs|
    ensures Bullets(cs[..i + 1]) == Bullets(cs[..i]) + CommitLine(cs[i])
  {
    assert cs[..i + 1][..i] == cs[..i];
  }

  lemma AppendAssoc(a: string, b: string, c: string)
    ensures a + b + c == a + (b + c)
  {
  }

  /** The title line of the changelog and the blank line after it. */
  function Title(version: string): (r: string)
    ensures '\n' !in version ==> Split(r, '\n') == ["#Version: " + version, "", ""]
  {
    var head := "#Version: " + version;
    var r := head + "\n\n";
    assert '\n' !in version ==> Split(r, '\n') == [head, "", ""] by {
      if '\n' !in version {
        assert '\n' !in "#Version: ";
        assert r == head + ['\n'] + "\n" && "\n" == "" + ['\n'] + "";
        SplitAfter(head, '\n', "\n");
        SplitAfter("", '\n', "");
      }
    }
    r
  }

  /**
   * `format_changelog_markdown(version, features, fixes, performance)`: the
   * title, then the sections; with no commits at all, only the title.
   */
  function ChangelogMarkdown(version: string, features: seq<Commit>, fixes: seq<Commit>, performance: seq<Commit>): (md: string)
    ensures StartsWith(md, Title(version))
    ensures md == Title(version) <==> features == [] && fixes == [] && performance == []
  {
    var body := Section("Features", features) + Section("Fixes", fixes) + Section("Performance", performance);
    StartsWithConcat(Title(version), body);
    assert |Title(version) + body| == |Title(version)| + |body|;
    Title(version) + body
  }

  /** Lines each followed by a newline. */
  function Unlines(ls: seq<string>): string {
    if ls == [] then "" else ls[0] + "\n" + Unlines(ls[1..])
  }

  lemma {:induction false} UnlinesAppend(a: seq<string>, b: seq<string>)
    ensures Unlines(a + b) == Unlines(a) + Unlines(b)
  {
    if a == [] {
      assert a + b == b;
    } else {
      var x, tail := a[0], a[1..];
      UnlinesAppend(tail, b);
      assert (a + b)[0] == x && (a + b)[1..] == tail + b;
      calc {
        Unlines(a + b);
        x + "\n" + Unlines(tail + b);
        x + "\n" + (Unlines(tail) + Unlines(b));
        (x + "\n" + Unlines(tail)) + Unlines(b);
      }
    }
  }

  lemma UnlinesCons(ls: seq<string>, rest: string)
    requires ls != []
    ensures Unlines(ls) + rest == ls[0] + ['\n'] + (Unlines(ls[1..]) + rest)
  {
  }

  /** Newline-free lines, joined as `Unlines` does, split back into the same lines. */
  lemma {:induction false} SplitUnlines(ls: seq<string>, rest: string)
    requires forall i :: 0 <= i < |ls| ==> '\n' !in ls[i]
    ensures Split(Unlines(ls) + rest, '\n') == ls + Split(rest, '\n')
  {
    if ls == [] {
      assert Unlines(ls) + rest == rest;
    } else {
      var head, tail := ls[0], ls[1..];
      var u := Unlines(tail) + rest;
      assert forall i :: 0 <= i < |tail| ==> tail[i] == ls[i + 1];
      UnlinesCons(ls, rest);
      SplitAfter(head, '\n', u);
      SplitUnlines(tail, rest);
      assert ls == [head] + tail;
      assert [head] + (tail + Split(rest, '\n')) == ls + Split(rest, '\n');
    }
  }

  /** The bullet texts of a list of commits, in list order. */
  function LineTexts(cs: seq<Commit>): (ls: seq<string>)
    ensures |ls| == |cs| && forall i :: 0 <= i < |cs| ==> ls[i] == LineText(cs[i])
  {
    if cs == [] then []
    else
      var init := cs[..|cs| - 1];
      assert forall i :: 0 <= i < |init| ==> init[i] == cs[i];
      LineTexts(init) + [LineText(cs[|cs| - 1])]
  }

  /** The lines of a section, as `format_commits` lays them out. */
  function SectionLines(title: string, cs: seq<Commit>): seq<string> {
    if cs == [] then [] else ["##" + title + ":", ""] + LineTexts(cs)
  }

  lemma {:induction false} BulletsAreLines(cs: seq<Commit>)
    ensures Bullets(cs) == Unlines(LineTexts(cs))
  {
    if cs != [] {
      var init := cs[..|cs| - 1];
      BulletsAreLines(init);
      UnlinesAppend(LineTexts(init), [LineText(cs[|cs| - 1])]);
      assert Unlines([LineText(cs[|cs| - 1])]) == CommitLine(cs[|cs| - 1]);
    }
  }

  lemma SectionIsLines(title: string, cs: seq<Commit>)
    ensures Section(title, cs) == Unlines(SectionLines(title, cs))
  {
    if cs != [] {
      BulletsAreLines(cs);
      UnlinesAppend(["##" + title + ":", ""], LineTexts(cs));
      assert Unlines(["##" + title + ":", ""]) == "##" + title + ":\n\n" by {
        assert ["##" + title + ":", ""][1..] == [""];
        assert [""][1..] == [];
      }
    }
  }

  /** No newline inside any field of any commit. */
  predicate SingleLine(cs: seq<Commit>) {
    forall i :: 0 <= i < |cs| ==> '\n' !in cs[i].msg && '\n' !in cs[i].sha
  }

  lemma LineTextsSingleLine(cs: seq<Commit>)
    requires SingleLine(cs)
    ensures forall i :: 0 <= i < |cs| ==> '\n' !in LineTexts(cs)[i]
  {
    forall i | 0 <= i < |cs| ensures '\n' !in LineTexts(cs)[i] {
      assert LineTexts(cs)[i] == LineText(cs[i]);
    }
  }

  /**
   * The lines of a section: for no commits nothing, otherwise the header, a
   * blank line and one bullet per commit in input order.
   */
  lemma SectionSplit(title: string, cs: seq<Commit>)
    requires '\n' !in title && SingleLine(cs)
    ensures Split(Section(title, cs), '\n') == SectionLines(title, cs) + [""]
  {
    SectionIsLines(title, cs);
    SectionLinesSingleLine(title, cs);
    SplitUnlines(SectionLines(title, cs), "");
    assert Section(title, cs) + "" == Section(title, cs);
  }

  lemma SectionLinesSingleLine(title: string, cs: seq<Commit>)
    requires '\n' !in title && SingleLine(cs)
    ensures forall i :: 0 <= i < |SectionLines(title, cs)| ==> '\n' !in SectionLines(title, cs)[i]
  {
    if cs != [] {
      LineTextsSingleLine(cs);
      var ls := SectionLines(title, cs);
      forall i | 0 <= i < |ls| ensures '\n' !in ls[i] {
        if i >= 2 {
          assert ls[i] == LineTexts(cs)[i - 2];
        }
      }
    }
  }

  /** The lines of the changelog: the version title, a blank line, then the three sections. */
  function MarkdownLines(version: string, features: seq<Commit>, fixes: seq<Commit>, performance: seq<Commit>): seq<string> {
    ["#Version: " + version, ""]
    + SectionLines("Features", features) + SectionLines("Fixes", fixes) + SectionLines("Performance", performance)
  }

  lemma MarkdownIsLines(version: string, features: seq<Commit>, fixes: seq<Commit>, performance: seq<Commit>)
    ensures ChangelogMarkdown(version, features, fixes, performance) == Unlines(MarkdownLines(version, features, fixes, performance))
  {
    var head := ["#Version: " + version, ""];
    var a, b, c := SectionLines("Features", features), SectionLines("Fixes", fixes), SectionLines("Performance", performance);
    SectionIsLines("Features", features);
    SectionIsLines("Fixes", fixes);
    SectionIsLines("Performance", performance);
    assert Unlines(head) == Title(version) by {
      assert head[1..] == [""] && [""][1..] == [];
    }
    UnlinesAppend(head, a);
    UnlinesAppend(head + a, b);
    UnlinesAppend(head + a + b, c);
    var t, x, y, z := Title(version), Section("Features", features), Section("Fixes", fixes), Section("Performance", performance);
    Regroup(t, x, y, z);
  }

  lemma Regroup(t: string, x: string, y: string, z: string)
    ensures t + (x + y + z) == t + x + y + z
  {
  }

  lemma MarkdownLinesSingleLine(version: string, features: seq<Commit>, fixes: seq<Commit>, performance: seq<Commit>)
    requires '\n' !in version && SingleLine(features) && SingleLine(fixes) && SingleLine(performance)
    ensures var all := MarkdownLines(version, features, fixes, performance);
      forall i :: 0 <= i < |all| ==> '\n' !in all[i]
  {
    var a, b, c := SectionLines("Features", features), SectionLines("Fixes", fixes), SectionLines("Performance", performance);
    SectionLinesSingleLine("Features", features);
    SectionLinesSingleLine("Fixes", fixes);
    SectionLinesSingleLine("Performance", performance);
    var all := MarkdownLines(version, features, fixes, performance);
    forall i | 0 <= i < |all| ensures '\n' !in all[i] {
      if i < 2 {
        assert all[i] == ["#Version: " + version, ""][i];
      } else if i < 2 + |a| {
        assert all[i] == a[i - 2];
      } else if i < 2 + |a| + |b| {
        assert all[i] == b[i - 2 - |a|];
      } else {
        assert all[i] == c[i - 2 - |a| - |b|];
      }
    }
  }

  /**
   * Split into lines, the changelog is the version title, a blank line, then
   * the Features, Fixes and Performance sections in that order, each present
   * exactly when it has commits, with one bullet per commit in input order.
   */
  lemma ChangelogLines(version: string, features: seq<Commit>, fixes: seq<Commit>, performance: seq<Commit>)
    requires '\n' !in version && SingleLine(features) && SingleLine(fixes) && SingleLine(performance)
    ensures Split(ChangelogMarkdown(version, features, fixes, performance), '\n') ==
      MarkdownLines(version, features, fixes, performance) + [""]
  {
    var md := ChangelogMarkdown(version, features, fixes, performance);
    MarkdownIsLines(version, features, fixes, performance);
    MarkdownLinesSingleLine(version, features, fixes, performance);
    SplitUnlines(MarkdownLines(version, features, fixes, performance), "");
    assert md + "" == md;
  }

  // ---------------------------------------------------------------------------
  // Commit classification

  datatype Kind = Feature | Fix | Performance

  /** The three lists `generate_changelog` builds. */
  datatype Changes = Changes(features: seq<Commit>, fixes: seq<Commit>, performance: seq<Commit>)

  /**
   * What the loop does with one `git log` entry: an entry that does not
   * split on '\n' into exactly a message and a hash is skipped; a message
   * starting with `feat:`, `fix:` or `perf:` is filed under that kind with
   * every occurrence of the prefix removed; any other message is dropped.
   */
  function Classify(commit: string): (r: Option<(Kind, Commit)>)
    ensures Count(commit, '\n') != 1 ==> r == None
    ensures r.Some? ==> '\n' !in r.value.1.msg && '\n' !in r.value.1.sha
  {
    SplitLength(commit, '\n');
    var parts := Split(commit, '\n');
    if |parts| != 2 then None
    else
      var msg, sha := parts[0], parts[1];
      if StartsWith(msg, "feat:") then Some((Feature, Commit(RemoveAll(msg, "feat:"), sha)))
      else if StartsWith(msg, "fix:") then Some((Fix, Commit(RemoveAll(msg, "fix:"), sha)))
      else if StartsWith(msg, "perf:") then Some((Performance, Commit(RemoveAll(msg, "perf:"), sha)))
      else None
  }

  /** A well-formed entry `msg\nsha` is filed by the prefix of `msg`, with the prefix removed. */
  lemma ClassifyEntry(msg: string, sha: string)
    requires '\n' !in msg && '\n' !in sha
    ensures Classify(msg + "\n" + sha) ==
      if StartsWith(msg, "feat:") then Some((Feature, Commit(RemoveAll(msg, "feat:"), sha)))
      else if StartsWith(msg, "fix:") then Some((Fix, Commit(RemoveAll(msg, "fix:"), sha)))
      else if StartsWith(msg, "perf:") then Some((Performance, Commit(RemoveAll(msg, "perf:"), sha)))
      else None
  {
    SplitAfter(msg, '\n', sha);
    SplitFree(sha, '\n');
  }

  /** `feat:xfeat:` is filed as the feature `x`: every occurrence of the prefix goes, not only the first. */
  lemma ClassifyRemovesEveryOccurrence(sha: string)
    requires '\n' !in sha
    ensures Classify("feat:xfeat:" + "\n" + sha) == Some((Feature, Commit("x", sha)))
  {
    var p, msg := "feat:", "feat:xfeat:";
    assert msg == p + ("x" + p);
    assert '\n' !in msg;
    ClassifyEntry(msg, sha);
    assert StartsWith(msg, p) by {
      assert msg[..|p|] == p;
    }
    RemoveAllLeading(p, "x" + p);
    assert RemoveAll("x" + p, p) == "x" + RemoveAll(p, p) by {
      assert ("x" + p)[..|p|] != p;
      assert ("x" + p)[1..] == p;
    }
    assert p == p + "";
    RemoveAllLeading(p, "");
    assert RemoveAll("", p) == "";
    assert RemoveAll(msg, p) == "x";
  }

  function AddEntry(ch: Changes, e: Option<(Kind, Commit)>): Changes {
    match e
    case None => ch
    case Some((Feature, c)) => ch.(features := ch.features + [c])
    case Some((Fix, c)) => ch.(fixes := ch.fixes + [c])
    case Some((Performance, c)) => ch.(performance := ch.performance + [c])
  }

  /** The three lists after the loop has seen `commits`. */
  function Sorted(commits: seq<string>): (ch: Changes)
    ensures |ch.features| + |ch.fixes| + |ch.performance| <= |commits|
  {
    if commits == [] then Changes([], [], [])
    else AddEntry(Sorted(commits[..|commits| - 1]), Classify(commits[|commits| - 1]))
  }

  /** The classification loop of `generate_changelog`, lifted out as a method. */
  method SortCommits(commits: seq<string>) returns (features: seq<Commit>, fixes: seq<Commit>, performance: seq<Commit>)
    ensures Changes(features, fixes, performance) == Sorted(commits)
  {
    features, fixes, performance := [], [], [];
    for i := 0 to |commits|
      invariant Changes(features, fixes, performance) == Sorted(commits[..i])
    {
      var commit := commits[i];
      assert commits[..i + 1][..i] == commits[..i];
      var parts := Split(commit, '\n');
      if |parts| != 2 {
        continue;
      }
      var msg, sha := parts[0], parts[1];
      if StartsWith(msg, "feat:") {
        msg := RemoveAll(msg, "feat:");
        features := features + [Commit(msg, sha)];
      } else if StartsWith(msg, "fix:") {
        msg := RemoveAll(msg, "fix:");
        fixes := fixes + [Commit(msg, sha)];
      } else if StartsWith(msg, "perf:") {
        msg := RemoveAll(msg, "perf:");
        performance := performance + [Commit(msg, sha)];
      }
    }
    assert commits[..|commits|] == commits;
  }

  /** The entries of one kind, in encounter order: a reference definition of one list. */
  function Entries(commits: seq<string>, k: Kind): seq<Commit> {
    if commits == [] then [] else Filed(Classify(commits[0]), k) + Entries(commits[1..], k)
  }

  /** What one classified entry contributes to the list of kind `k`. */
  function Filed(e: Option<(Kind, Commit)>, k: Kind): seq<Commit> {
    match e
    case Some((k', c)) => if k' == k then [c] else []
    case None => []
  }

  lemma OfAddEntry(ch: Changes, e: Option<(Kind, Commit)>, k: Kind)
    ensures Of(AddEntry(ch, e), k) == Of(ch, k) + Filed(e, k)
  {
  }

  function Of(ch: Changes, k: Kind): seq<Commit> {
    match k
    case Feature => ch.features
    case Fix => ch.fixes
    case Performance => ch.performance
  }

  lemma {:induction false} EntriesSnoc(commits: seq<string>, x: string, k: Kind)
    ensures Entries(commits + [x], k) == Entries(commits, k) + Entries([x], k)
  {
    if commits != [] {
      EntriesSnoc(commits[1..], x, k);
      assert (commits + [x])[1..] == commits[1..] + [x];
    }
  }

  /**
   * Each list the loop builds holds exactly the entries classified under
   * its kind, in encounter order, so no entry is filed twice.
   */
  lemma {:induction false} SortedIsEntries(commits: seq<string>, k: Kind)
    ensures Of(Sorted(commits), k) == Entries(commits, k)
  {
    if commits != [] {
      var init, last := commits[..|commits| - 1], commits[|commits| - 1];
      SortedIsEntries(init, k);
      EntriesSnoc(init, last, k);
      assert init + [last] == commits;
      OfAddEntry(Sorted(init), Classify(last), k);
      assert Entries([last], k) == Filed(Classify(last), k) + Entries([], k);
    }
  }

  /** Filing an entry after `x`'s lists are joined to `y`'s files it into `y`'s part. */
  lemma AddEntryAfter(x: Changes, y: Changes, e: Option<(Kind, Commit)>)
    ensures var y' := AddEntry(y, e);
      AddEntry(Changes(x.features + y.features, x.fixes + y.fixes, x.performance + y.performance), e)
      == Changes(x.features + y'.features, x.fixes + y'.fixes, x.performance + y'.performance)
  {
    match e
    case None =>
    case Some((k, c)) =>
      assert x.features + y.features + [c] == x.features + (y.features + [c]);
      assert x.fixes + y.fixes + [c] == x.fixes + (y.fixes + [c]);
      assert x.performance + y.performance + [c] == x.performance + (y.performance + [c]);
  }

  /** Classifying a concatenation concatenates the three lists: encounter order is kept. */
  lemma {:induction false} SortedAppend(a: seq<string>, b: seq<string>)
    ensures var (x, y, z) := (Sorted(a), Sorted(b), Sorted(a + b));
      z == Changes(x.features + y.features, x.fixes + y.fixes, x.performance + y.performance)
  {
    if b == [] {
      assert a + b == a;
    } else {
      var init, last := b[..|b| - 1], b[|b| - 1];
      SortedAppend(a, init);
      assert (a + b)[..|a + b| - 1] == a + init;
      assert (a + b)[|a + b| - 1] == last;
      AddEntryAfter(Sorted(a), Sorted(init), Classify(last));
    }
  }

  lemma StartsWithConcat(a: string, b: string)
    ensures StartsWith(a + b, a)
  {
    assert (a + b)[..|a|] == a;
  }

  /**
   * The pure part of `generate_changelog`: classify the entries, bump the
   * package's version string, and render the changelog for the new version.
   */
  function GenerateChangelog(commits: seq<string>, packageVersion: string, versionType: int)
    : (r: Result<(string, string), VersionError>)
    ensures r.Failure? <==> AdjustVersion(Split(packageVersion, '.'), versionType).Failure?
    ensures r.Success? ==>
      && AdjustVersion(Split(packageVersion, '.'), versionType) == Success(r.value.0)
      && var ch := Sorted(commits);
         r.value.1 == ChangelogMarkdown(r.value.0, ch.features, ch.fixes, ch.performance)
  {
    match AdjustVersion(Split(packageVersion, '.'), versionType)
    case Failure(e) => Failure(e)
    case Success(version) =>
      var ch := Sorted(commits);
      Success((version, ChangelogMarkdown(version, ch.features, ch.fixes, ch.performance)))
  }

  /** Every entry the loop files, under any kind, is free of newlines. */
  lemma {:induction false} SortedSingleLine(commits: seq<string>)
    ensures var ch := Sorted(commits);
      SingleLine(ch.features) && SingleLine(ch.fixes) && SingleLine(ch.performance)
  {
    if commits != [] {
      SortedSingleLine(commits[..|commits| - 1]);
      var ch := Sorted(commits[..|commits| - 1]);
      var e := Classify(commits[|commits| - 1]);
      if e.Some? {
        SingleLineSnoc(ch.features, e.value.1);
        SingleLineSnoc(ch.fixes, e.value.1);
        SingleLineSnoc(ch.performance, e.value.1);
      }
    }
  }

  lemma SingleLineSnoc(cs: seq<Commit>, c: Commit)
    requires SingleLine(cs) && '\n' !in c.msg && '\n' !in c.sha
    ensures SingleLine(cs + [c])
  {
    assert forall i :: 0 <= i < |cs| ==> (cs + [c])[i] == cs[i];
  }

  /** A bumped version has no newline when the old one has none. */
  lemma VersionSingleLine(packageVersion: string, versionType: int)
    requires '\n' !in packageVersion
    requires AdjustVersion(Split(packageVersion, '.'), versionType).Success?
    ensures '\n' !in AdjustVersion(Split(packageVersion, '.'), versionType).value
  {
    var parts := Split(packageVersion, '.');
    SplitKeepsAbsent(packageVersion, '.', '\n');
    var n := ParseNat(parts[Needed(versionType) - 1]).value;
    assert '\n' !in NatToString(n + 1) by {
      assert AllDigits(NatToString(n + 1));
    }
  }

  /**
   * The changelog `generate_changelog` writes, split into lines, is the new
   * version's title, a blank line, then one section per non-empty kind with
   * one bullet per classified entry in encounter order.
   */
  lemma GenerateChangelogLines(commits: seq<string>, packageVersion: string, versionType: int)
    requires '\n' !in packageVersion
    requires GenerateChangelog(commits, packageVersion, versionType).Success?
    ensures var (version, md) := GenerateChangelog(commits, packageVersion, versionType).value;
      var ch := Sorted(commits);
      Split(md, '\n') == MarkdownLines(version, ch.features, ch.fixes, ch.performance) + [""]
  {
    var (version, md) := GenerateChangelog(commits, packageVersion, versionType).value;
    var ch := Sorted(commits);
    VersionSingleLine(packageVersion, versionType);
    SortedSingleLine(commits);
    ChangelogLines(version, ch.features, ch.fixes, ch.performance);
  }
}
