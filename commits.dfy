/**
 * The commit history queries of `deployment_utils.py`: which commits on the branch came after
 * the build's commit, how a "Merged PR" commit message becomes a PR record, and which commit
 * is the latest one not after a build's start time.
 *
 * Timestamps are whole seconds on one clock; the ISO-8601 parsing is not modelled.
 */
module Commits {
  import opened Wrappers
  import opened PyStr
  import opened Seqs

  /**
   * One entry of the commits API: `commitId` (`None` when absent), `committer.date`, `comment`
   * (`''` when absent) and `author.name`.
   */
  datatype Commit = Commit(commitId: Option<string>, date: Option<int>, comment: string, authorName: Option<string>)

  /** `commit.get('commitId', '')`, as the PR-merge scan reads the id. */
  function IdText(c: Commit): string
  {
    c.commitId.GetOr("")
  }

  /** The record the deployment flow keeps for each merged pull request. */
  datatype PrRecord = PrRecord(
    prNumber: string,
    jiraTicket: Option<string>,
    description: string,
    author: string,
    commitHash: string)

  // ---------------------------------------------------------------- commits after the baseline

  /** A commit that is not the baseline commit and was committed strictly after it. */
  predicate IsAfterBaseline(c: Commit, baselineHash: string, baselineDate: int)
  {
    && !StartsWith(IdText(c), baselineHash)
    && c.date.Some?
    && c.date.value > baselineDate
  }

  /** The commits that count as merged after the build, in the order the API lists them. */
  function CommitsAfter(commits: seq<Commit>, baselineHash: string, baselineDate: int): seq<Commit>
  {
    Filter(commits, c => IsAfterBaseline(c, baselineHash, baselineDate))
  }

  // ---------------------------------------------------------------- parsing a merge message

  /** The text between the first "ADW-" and the next, as `split("ADW-")[1]` gives it. */
  function JiraSegment(msg: string): string
    requires Contains(msg, "ADW-")
  {
    TextBefore(TextAfter(msg, "ADW-"), "ADW-")
  }

  /** The Jira key `ADW-<first word after the first "ADW-">`; `Err` where `split()[0]` raises. */
  function JiraOfMessage(msg: string): (r: Result<Option<string>>)
    ensures r.Ok? && r.value.None? <==> !Contains(msg, "ADW-")
    ensures r.Err? <==> Contains(msg, "ADW-") && Words(JiraSegment(msg)) == []
    ensures r.Ok? && r.value.Some? ==>
      Contains(msg, "ADW-") && r.value.value == "ADW-" + Words(JiraSegment(msg))[0]
    ensures r.Ok? && r.value.Some? ==>
      StartsWith(r.value.value, "ADW-") && |r.value.value| > 4 && NoSpace(r.value.value[4..])
  {
    if !Contains(msg, "ADW-") then Ok(None)
    else
      var parts := Split(msg, "ADW-");
      SplitSecond(msg, "ADW-");
      if |parts| < 2 then Err("IndexError")
      else
        var words := Words(parts[1]);
        if words == [] then Err("IndexError")
        else
          var ticket := "ADW-" + words[0];
          assert ticket[4..] == words[0];
          Ok(Some(ticket))
  }

  /** The description: the text between the first and second `:` after "Merged PR", cleaned. */
  function DescriptionOfMessage(msg: string, jira: Option<string>): (d: string)
    requires Contains(msg, "Merged PR")
  {
    var afterMerged := Split(msg, "Merged PR")[1];
    var raw := if Contains(afterMerged, ":") then Split(afterMerged, ":")[1] else "";
    var withoutJira := if jira.Some? && jira.value != [] && Contains(raw, jira.value)
                       then Strip(Replace(raw, jira.value, "")) else raw;
    var withoutTeam := if Contains(withoutJira, "[Merkle]")
                       then Strip(Replace(withoutJira, "[Merkle]", "")) else withoutJira;
    Strip(withoutTeam)
  }

  /**
   * The text read as the PR number: after the first "Merged PR ", up to the next "Merged PR "
   * and then up to the first `:`, stripped, as `split("Merged PR ")[1].split(":")[0].strip()`.
   */
  function NumberText(msg: string): string
    requires Contains(msg, "Merged PR ")
  {
    Strip(TextBefore(TextBefore(TextAfter(msg, "Merged PR "), "Merged PR "), ":"))
  }

  /**
   * The PR record for one commit after the baseline, or `None` when the commit is skipped:
   * no "Merged PR" in its message, a PR number that is not all digits, or a parse step that raises.
   */
  function ParseMergedPr(c: Commit): (r: Option<PrRecord>)
    ensures r.Some? <==>
      Contains(c.comment, "Merged PR ") && IsDigits(NumberText(c.comment)) && JiraOfMessage(c.comment).Ok?
    ensures r.Some? ==>
      && Contains(c.comment, "Merged PR ")
      && r.value.prNumber == NumberText(c.comment)
      && JiraOfMessage(c.comment) == Ok(r.value.jiraTicket)
      && Contains(c.comment, "Merged PR")
      && r.value.description == DescriptionOfMessage(c.comment, r.value.jiraTicket)
      && r.value.author == Strip(Replace(c.authorName.GetOr("Unknown"), "X", ""))
      && 'X' !in r.value.author
      && r.value.commitHash == Take(IdText(c), 8)
      && (r.value.jiraTicket.Some? <==> Contains(c.comment, "ADW-"))
    ensures !Contains(c.comment, "Merged PR") ==> r.None?
  {
    var msg := c.comment;
    if !Contains(msg, "Merged PR") then
      ContainsExtend(msg, "Merged PR", " ");
      assert "Merged PR" + " " == "Merged PR ";
      None
    else
      SplitSecond(msg, "Merged PR ");
      match SplitPart(msg, "Merged PR ", 1)
      case None => None
      case Some(afterNumber) =>
        SplitHead(afterNumber, ":");
        var prNumber := Strip(Split(afterNumber, ":")[0]);
        if !IsDigits(prNumber) then None
        else match JiraOfMessage(msg)
          case Err(_) => None
          case Ok(jira) =>
            var author := Strip(Replace(c.authorName.GetOr("Unknown"), "X", ""));
            ReplaceCharGone(c.authorName.GetOr("Unknown"), 'X', "");
            StripKeepsAbsent(Replace(c.authorName.GetOr("Unknown"), "X", ""), 'X');
            Some(PrRecord(prNumber, jira, DescriptionOfMessage(msg, jira), author, Take(IdText(c), 8)))
  }

  /** The records of the commits that parse, in commit order. */
  function PrRecords(commits: seq<Commit>): seq<PrRecord>
    decreases |commits|
  {
    if commits == [] then []
    else
      var last := commits[|commits| - 1];
      PrRecords(commits[..|commits| - 1]) + (match ParseMergedPr(last) case Some(p) => [p] case None => [])
  }

  lemma PrRecordsSnoc(commits: seq<Commit>, i: nat)
    requires i < |commits|
    ensures PrRecords(commits[..i + 1]) ==
      PrRecords(commits[..i]) + (match ParseMergedPr(commits[i]) case Some(p) => [p] case None => [])
  {
    assert commits[..i + 1][..i] == commits[..i];
  }

  /** Every record comes from one of the commits, by parsing it. */
  lemma {:induction false} PrRecordsFromCommits(commits: seq<Commit>, p: PrRecord)
    requires p in PrRecords(commits)
    ensures exists c :: c in commits && ParseMergedPr(c) == Some(p)
    decreases |commits|
  {
    var init := commits[..|commits| - 1];
    var last := commits[|commits| - 1];
    if p in PrRecords(init) {
      PrRecordsFromCommits(init, p);
      var c :| c in init && ParseMergedPr(c) == Some(p);
      assert c in commits;
    } else {
      assert ParseMergedPr(last) == Some(p);
    }
  }

  /**
   * `get_pr_merges_after_commit` once its HTTP calls are done: `baselineDate` is the baseline
   * commit's date (absent when it could not be read) and `commits` the branch's commits
   * (absent when the request failed). `None` is the function's `None` return.
   */
  method GetPrMergesAfterCommit(baselineHash: string, baselineDate: Option<int>, commits: Option<seq<Commit>>)
    returns (r: Option<seq<PrRecord>>)
    ensures baselineDate.None? || commits.None? <==> r.None?
    ensures r.Some? ==> r.value == PrRecords(CommitsAfter(commits.value, baselineHash, baselineDate.value))
  {
    if baselineDate.None? || commits.None? {
      return None;
    }
    var all := commits.value;
    var date := baselineDate.value;
    var after: seq<Commit> := [];
    var i := 0;
    while i < |all|
      invariant 0 <= i <= |all|
      invariant after == Filter(all[..i], c => IsAfterBaseline(c, baselineHash, date))
    {
      var c := all[i];
      FilterSnoc(all, i, c => IsAfterBaseline(c, baselineHash, date));
      if !StartsWith(c.commitId.GetOr(""), baselineHash) && c.date.Some? && c.date.value > date {
        after := after + [c];
      }
      i := i + 1;
    }
    assert all[..i] == all;
    if after == [] {
      return Some([]);
    }
    var records: seq<PrRecord> := [];
    var k := 0;
    while k < |after|
      invariant 0 <= k <= |after|
      invariant records == PrRecords(after[..k])
    {
      PrRecordsSnoc(after, k);
      match ParseMergedPr(after[k]) {
        case Some(p) => records := records + [p];
        case None =>
      }
      k := k + 1;
    }
    assert after[..k] == after;
    return Some(records);
  }

  /** Every PR reported after the baseline comes from a commit that followed it. */
  lemma MergesFollowBaseline(commits: seq<Commit>, baselineHash: string, baselineDate: int, p: PrRecord)
    requires p in PrRecords(CommitsAfter(commits, baselineHash, baselineDate))
    ensures exists c :: c in commits && IsAfterBaseline(c, baselineHash, baselineDate) && ParseMergedPr(c) == Some(p)
  {
    var after := CommitsAfter(commits, baselineHash, baselineDate);
    PrRecordsFromCommits(after, p);
    var c :| c in after && ParseMergedPr(c) == Some(p);
    FilterMembers(commits, c => IsAfterBaseline(c, baselineHash, baselineDate), c);
  }

  // ---------------------------------------------------------------- the merge message build agents write

  /** The message Azure DevOps writes when it completes PR `n` titled `title`. */
  function MergeMessage(n: string, title: string): string
  {
    "Merged PR " + n + ": " + title
  }

  /** A title that holds none of the markers the parser looks for. */
  predicate PlainTitle(title: string)
  {
    && ':' !in title
    && !Contains(title, "Merged PR")
    && !Contains(title, "ADW-")
    && !Contains(title, "[Merkle]")
  }

  /** A string of digits holds no non-digit character. */
  lemma DigitsLack(n: string, c: char)
    requires IsDigits(n) && !IsDigit(c)
    ensures c !in n
  {
  }

  /** The text after "Merged PR " is the rest of the message, and its part before `:` is `n`. */
  lemma MergeMessageNumber(n: string, title: string)
    requires IsDigits(n) && ':' !in title && !Contains(title, "Merged PR")
    ensures Contains(MergeMessage(n, title), "Merged PR")
    ensures SplitPart(MergeMessage(n, title), "Merged PR ", 1) == Some(n + ": " + title)
    ensures Strip(Split(n + ": " + title, ":")[0]) == n
  {
    var rest := n + ": " + title;
    assert MergeMessage(n, title) == "Merged PR " + rest;
    MergeRestNoMarker(n, title);
    SplitPrefixOnce("Merged PR ", rest);
    ContainsAt(MergeMessage(n, title), "Merged PR", 0);
    MergeRestNumber(n, title);
  }

  lemma MergeRestNoMarker(n: string, title: string)
    requires IsDigits(n) && !Contains(title, "Merged PR")
    ensures !Contains(n + ": " + title, "Merged PR ")
  {
    ContainsExtend(title, "Merged PR", " ");
    assert "Merged PR" + " " == "Merged PR ";
    DigitsLack(n, 'M');
    NotInPrefix(n + ": ", title, "Merged PR ");
  }

  lemma MergeRestNumber(n: string, title: string)
    requires IsDigits(n)
    ensures Strip(Split(n + ": " + title, ":")[0]) == n
  {
    DigitsLack(n, ':');
    assert n + ": " + title == n + [':'] + (" " + title);
    SplitCons(n, ':', " " + title);
    StripEdges(n);
  }

  /** A PR merge message with a plain title names no Jira key. */
  lemma MergeMessageNoJira(n: string, title: string)
    requires IsDigits(n) && PlainTitle(title)
    ensures JiraOfMessage(MergeMessage(n, title)) == Ok(None)
  {
    DigitsLack(n, 'A');
    assert 'A' !in "Merged PR " + n + ": ";
    NotInPrefix("Merged PR " + n + ": ", title, "ADW-");
    assert MergeMessage(n, title) == "Merged PR " + n + ": " + title;
  }

  /** The description of a PR merge message with a plain title is the stripped title. */
  lemma MergeMessageDescription(n: string, title: string)
    requires IsDigits(n) && PlainTitle(title)
    ensures Contains(MergeMessage(n, title), "Merged PR")
    ensures DescriptionOfMessage(MergeMessage(n, title), None) == Strip(title)
  {
    MergeMessageAfterMerged(n, title);
    AfterMergedRaw(n, title);
    NotInPrefix(" ", title, "[Merkle]");
    StripLeadingSpace(' ', title);
  }

  lemma MergeMessageAfterMerged(n: string, title: string)
    requires IsDigits(n) && ':' !in title && !Contains(title, "Merged PR")
    ensures Contains(MergeMessage(n, title), "Merged PR")
    ensures Split(MergeMessage(n, title), "Merged PR")[1] == " " + n + ": " + title
  {
    var msg := MergeMessage(n, title);
    ContainsAt(msg, "Merged PR", 0);
    SplitStartsWith(msg, "Merged PR");
    var afterMerged := msg[9..];
    assert afterMerged == " " + n + ": " + title;
    DigitsLack(n, 'M');
    assert 'M' !in " " + n + ": ";
    NotInPrefix(" " + n + ": ", title, "Merged PR");
    SplitWithout(afterMerged, "Merged PR");
  }

  lemma AfterMergedRaw(n: string, title: string)
    requires IsDigits(n) && ':' !in title && !Contains(title, "Merged PR")
    ensures Contains(" " + n + ": " + title, ":")
    ensures Split(" " + n + ": " + title, ":")[1] == " " + title
  {
    var afterMerged := " " + n + ": " + title;
    assert afterMerged == (" " + n) + [':'] + (" " + title);
    DigitsLack(n, ':');
    assert ':' !in " " + n;
    SplitCons(" " + n, ':', " " + title);
    ContainsAt(afterMerged, ":", |n| + 1);
    var raw := " " + title;
    assert !Contains(raw, ":") by {
      forall j | 0 <= j ensures !At(raw, j, ":") {
        if j < |raw| {
          assert raw[j] != ':';
        }
      }
    }
    SplitWithout(raw, ":");
  }

  /** Parsing the message of a completed PR gives back its number and its title. */
  lemma ParseMergeMessage(id: Option<string>, date: Option<int>, n: string, title: string, author: Option<string>)
    requires IsDigits(n) && PlainTitle(title)
    ensures ParseMergedPr(Commit(id, date, MergeMessage(n, title), author)) ==
      Some(PrRecord(n, None, Strip(title), Strip(Replace(author.GetOr("Unknown"), "X", "")), Take(id.GetOr(""), 8)))
  {
    MergeMessageNumber(n, title);
    MergeMessageNoJira(n, title);
    MergeMessageDescription(n, title);
  }

  /** The title `generate_pr_title` writes: the key, the team tag and the descriptive part. */
  function KeyedTitle(k: string, t: string): string
  {
    "ADW-" + k + " [Merkle] " + t
  }

  /** A keyed title with a plain part holds no `:` and no "Merged PR". */
  lemma {:induction false} KeyedTitleMarkers(k: string, t: string)
    requires IsDigits(k) && PlainTitle(t)
    ensures ':' !in KeyedTitle(k, t) && !Contains(KeyedTitle(k, t), "Merged PR")
  {
    DigitsLack(k, ':');
    DigitsLack(k, 'M');
    var tail := "erkle] " + t;
    NotInPrefix("erkle] ", t, "Merged PR");
    var m := [ 'M'] + tail;
    assert m[3] == 'k';
    assert !StartsWith(m, "Merged PR") by {
      if |m| >= 9 {
        assert m[..9][3] != "Merged PR"[3];
      }
    }
    NotInCons('M', tail, "Merged PR");
    assert KeyedTitle(k, t) == ("ADW-" + k + " [") + m;
    NotInPrefix("ADW-" + k + " [", m, "Merged PR");
  }

  /** The Jira key read from the message of a PR with a keyed title is that key. */
  lemma {:induction false} KeyedMessageJira(n: string, k: string, t: string)
    requires IsDigits(n) && IsDigits(k) && PlainTitle(t)
    ensures JiraOfMessage(MergeMessage(n, KeyedTitle(k, t))) == Ok(Some("ADW-" + k))
  {
    var pre := "Merged PR " + n + ": ";
    var rest := " [Merkle] " + t;
    DigitsLack(n, 'A');
    assert 'A' !in pre;
    NotInPrefix(" [Merkle] ", t, "ADW-");
    assert MergeMessage(n, KeyedTitle(k, t)) == pre + "ADW-" + (k + rest);
    JiraAfterPrefix(pre, k, rest);
  }

  /**
   * The first "ADW-" followed by digits and then whitespace, with no other "ADW-" after it,
   * gives the key made of those digits.
   */
  lemma {:induction false} JiraAfterPrefix(pre: string, k: string, rest: string)
    requires 'A' !in pre && IsDigits(k) && rest != [] && IsSpace(rest[0]) && !Contains(rest, "ADW-")
    ensures JiraOfMessage(pre + "ADW-" + (k + rest)) == Ok(Some("ADW-" + k))
  {
    DigitsLack(k, 'A');
    NotInPrefix(k, rest, "ADW-");
    SplitMarkerOnce(pre, "ADW-", k + rest);
    assert NoSpace(k) by {
      forall i | 0 <= i < |k| ensures !IsSpace(k[i]) {
        assert IsDigit(k[i]);
      }
    }
    WordsCons(k, rest);
  }

  /** The description of a PR with a keyed title is its descriptive part, stripped. */
  lemma KeyedMessageDescription(n: string, k: string, t: string)
    requires IsDigits(n) && IsDigits(k) && PlainTitle(t)
    ensures Contains(MergeMessage(n, KeyedTitle(k, t)), "Merged PR")
    ensures DescriptionOfMessage(MergeMessage(n, KeyedTitle(k, t)), Some("ADW-" + k)) == Strip(t)
  {
    KeyedTitleMarkers(k, t);
    MergeMessageAfterMerged(n, KeyedTitle(k, t));
    AfterMergedRaw(n, KeyedTitle(k, t));
    KeyedRawWithoutKey(k, t);
    TagThenRest(t);
  }

  /** Deleting the key from the raw description and stripping leaves the team tag first. */
  lemma {:induction false} KeyedRawWithoutKey(k: string, t: string)
    requires IsDigits(k) && PlainTitle(t)
    ensures Contains(" " + KeyedTitle(k, t), "ADW-" + k)
    ensures Strip(Replace(" " + KeyedTitle(k, t), "ADW-" + k, "")) == "[Merkle]" + RStripSpace(" " + t)
  {
    ContainsExtend(t, "ADW-", k);
    assert " " + KeyedTitle(k, t) == " " + (("ADW-" + k) + (" " + ("[Merkle]" + (" " + t))));
    DropKeyThenStrip("ADW-" + k, "[Merkle]", t);
  }

  /** Deleting a key that occurs once, after one space, and stripping leaves what follows it. */
  lemma {:induction false} DropKeyThenStrip(key: string, tag: string, t: string)
    requires key != [] && key[0] != ' ' && key[0] !in tag && !Contains(t, key)
    requires tag != [] && !IsSpace(tag[0]) && !IsSpace(tag[|tag| - 1])
    ensures Contains(" " + (key + (" " + (tag + (" " + t)))), key)
    ensures Strip(Replace(" " + (key + (" " + (tag + (" " + t)))), key, "")) == tag + RStripSpace(" " + t)
  {
    var r := " " + (tag + (" " + t));
    NotInPrefix(" ", t, key);
    NotInPrefix(" " + tag, " " + t, key);
    assert (" " + tag) + (" " + t) == r;
    ReplaceKeyAfterSpace(key, r);
    StripSpacedTag(tag, t);
  }

  /** Deleting the one occurrence of a key that follows a space. */
  lemma ReplaceKeyAfterSpace(key: string, r: string)
    requires key != [] && key[0] != ' ' && !Contains(r, key)
    ensures Contains(" " + (key + r), key)
    ensures Replace(" " + (key + r), key, "") == " " + r
  {
    ContainsAt(" " + (key + r), key, 1);
    ReplaceSkip(' ', key + r, key, "");
    ReplaceHere(key, r, "");
    ReplaceAbsent(r, key, "");
  }

  /** Stripping two spaces, a tag with non-space ends and a spaced rest keeps the tag. */
  lemma StripSpacedTag(tag: string, t: string)
    requires tag != [] && !IsSpace(tag[0]) && !IsSpace(tag[|tag| - 1])
    ensures Strip(" " + (" " + (tag + (" " + t)))) == tag + RStripSpace(" " + t)
  {
    var m := tag + (" " + t);
    StripLeadingSpace(' ', " " + m);
    StripLeadingSpace(' ', m);
    assert Strip(m) == RStripSpace(m);
    RStripSpaceAppend(tag, " " + t);
  }

  /** Deleting the leading team tag and stripping twice leaves the stripped rest. */
  lemma TagThenRest(t: string)
    requires !Contains(t, "[Merkle]")
    ensures Contains("[Merkle]" + RStripSpace(" " + t), "[Merkle]")
    ensures Strip(Strip(Replace("[Merkle]" + RStripSpace(" " + t), "[Merkle]", ""))) == Strip(t)
  {
    DropTagThenStrip("[Merkle]", t);
  }

  /** Deleting a tag that starts the text and stripping twice leaves the rest, stripped. */
  lemma {:induction false} DropTagThenStrip(tag: string, t: string)
    requires tag != [] && tag[0] != ' ' && !Contains(t, tag)
    ensures Contains(tag + RStripSpace(" " + t), tag)
    ensures Strip(Strip(Replace(tag + RStripSpace(" " + t), tag, ""))) == Strip(t)
  {
    var u := RStripSpace(" " + t);
    ContainsAt(tag + u, tag, 0);
    ReplaceHere(tag, u, "");
    NotInPrefix(" ", t, tag);
    RStripSpaceKeepsAbsent(" " + t, tag);
    ReplaceAbsent(u, tag, "");
    assert Replace(tag + u, tag, "") == u;
    StripTwice(u);
    StripOfSpacedRStrip(t);
  }

  /** Parsing the message of a completed PR whose title has a key gives back number, key and part. */
  lemma ParseKeyedMergeMessage(id: Option<string>, date: Option<int>, n: string, k: string, t: string, author: Option<string>)
    requires IsDigits(n) && IsDigits(k) && PlainTitle(t)
    ensures ParseMergedPr(Commit(id, date, MergeMessage(n, KeyedTitle(k, t)), author)) ==
      Some(PrRecord(n, Some("ADW-" + k), Strip(t), Strip(Replace(author.GetOr("Unknown"), "X", "")), Take(id.GetOr(""), 8)))
  {
    KeyedTitleMarkers(k, t);
    MergeMessageNumber(n, KeyedTitle(k, t));
    KeyedMessageJira(n, k, t);
    KeyedMessageDescription(n, k, t);
  }

  // ---------------------------------------------------------------- the commit a build was made from

  /** The distance of a commit before `target`, when it has a date at or before `target`. */
  function DiffBefore(c: Commit, target: int): Option<nat>
  {
    if c.date.Some? && target - c.date.value >= 0 then Some(target - c.date.value) else None
  }

  /**
   * Among the first `n` commits, the index of the first one with the smallest distance
   * before `target`, as the scan of `find_commit_on_branch_by_date` keeps it.
   */
  function ClosestBefore(commits: seq<Commit>, target: int, n: nat): (r: Option<nat>)
    requires n <= |commits|
    ensures r.Some? ==> r.value < n && DiffBefore(commits[r.value], target).Some?
    ensures r.Some? ==> forall j :: 0 <= j < n && DiffBefore(commits[j], target).Some? ==>
      DiffBefore(commits[r.value], target).value <= DiffBefore(commits[j], target).value
    ensures r.Some? ==> forall j :: 0 <= j < r.value && DiffBefore(commits[j], target).Some? ==>
      DiffBefore(commits[r.value], target).value < DiffBefore(commits[j], target).value
    ensures r.None? <==> forall j :: 0 <= j < n ==> DiffBefore(commits[j], target).None?
  {
    if n == 0 then None
    else
      var best := ClosestBefore(commits, target, n - 1);
      match DiffBefore(commits[n - 1], target)
      case None => best
      case Some(d) =>
        if best.None? || d < DiffBefore(commits[best.value], target).value then Some(n - 1) else best
  }

  /**
   * The id the scan keeps: that of the nearest commit at or before `target`, which is `None`
   * when that commit has no id or there is no such commit.
   */
  function KeptId(commits: seq<Commit>, target: int): Option<string>
  {
    match ClosestBefore(commits, target, |commits|)
    case Some(i) => commits[i].commitId
    case None => None
  }

  /**
   * The commit id `find_commit_on_branch_by_date` returns for a non-empty commit list: the
   * kept id, or the last listed commit's id when none was kept; `None` when that is missing or empty.
   */
  function ClosestCommit(commits: seq<Commit>, target: int): (r: Option<string>)
    requires commits != []
    ensures r.Some? ==> r.value != ""
    ensures r.Some? ==> r == KeptId(commits, target) || (KeptId(commits, target).None? && r == commits[|commits| - 1].commitId)
    ensures KeptId(commits, target).Some? && KeptId(commits, target).value != "" ==> r == KeptId(commits, target)
    ensures KeptId(commits, target).None? && commits[|commits| - 1].commitId.Some? && commits[|commits| - 1].commitId.value != "" ==>
      r == commits[|commits| - 1].commitId
  {
    var chosen := match KeptId(commits, target)
      case Some(id) => Some(id)
      case None => commits[|commits| - 1].commitId;
    if chosen.Some? && chosen.value != "" then chosen else None
  }

  /**
   * `find_commit_on_branch_by_date` after its HTTP call: `commits` is absent when the request
   * failed. Returns the id of the latest commit at or before `target` (the first of equals),
   * or the last listed commit's id when there is none or that commit has no id.
   */
  method FindCommitOnBranchByDate(target: int, commits: Option<seq<Commit>>) returns (r: Option<string>)
    ensures commits.None? || commits.value == [] ==> r.None?
    ensures commits.Some? && commits.value != [] ==> r == ClosestCommit(commits.value, target)
  {
    if commits.None? || commits.value == [] {
      return None;
    }
    var cs := commits.value;
    var closestCommit: Option<string> := None;
    var closestDiff: Option<int> := None;
    var i := 0;
    while i < |cs|
      invariant 0 <= i <= |cs|
      invariant closestDiff.None? <==> ClosestBefore(cs, target, i).None?
      invariant closestDiff.None? ==> closestCommit.None?
      invariant closestDiff.Some? ==>
        closestDiff.value == DiffBefore(cs[ClosestBefore(cs, target, i).value], target).value
        && closestCommit == cs[ClosestBefore(cs, target, i).value].commitId
    {
      var c := cs[i];
      ghost var best := ClosestBefore(cs, target, i);
      if c.date.Some? {
        var diff := target - c.date.value;
        if diff >= 0 {
          assert DiffBefore(c, target) == Some(diff);
          if closestDiff.None? || diff < closestDiff.value {
            assert ClosestBefore(cs, target, i + 1) == Some(i);
            closestDiff := Some(diff);
            closestCommit := c.commitId;
          } else {
            assert ClosestBefore(cs, target, i + 1) == best;
          }
        } else {
          assert ClosestBefore(cs, target, i + 1) == best;
        }
      } else {
        assert ClosestBefore(cs, target, i + 1) == best;
      }
      i := i + 1;
    }
    assert closestCommit == KeptId(cs, target);
    if closestCommit.None? {
      closestCommit := cs[|cs| - 1].commitId;
    }
    if closestCommit.Some? && closestCommit.value != "" {
      return closestCommit;
    }
    return None;
  }

  /**
   * A nearest commit without an id is passed over for the last listed commit, even when an
   * earlier commit before `target` has an id.
   */
  lemma NearestWithoutIdFallsBack(commits: seq<Commit>, target: int, i: nat)
    requires ClosestBefore(commits, target, |commits|) == Some(i) && commits[i].commitId.None?
    requires commits[|commits| - 1].commitId.Some? && commits[|commits| - 1].commitId.value != ""
    ensures ClosestCommit(commits, target) == commits[|commits| - 1].commitId
  {
  }

  /** Dates 97 (no id), 95 and 110 with target 100: the nearest has no id, so the last commit is returned. */
  lemma FallbackExample()
    ensures ClosestCommit([Commit(None, Some(97), "", None), Commit(Some("b"), Some(95), "", None),
                           Commit(Some("z"), Some(110), "", None)], 100) == Some("z")
  {
    var cs := [Commit(None, Some(97), "", None), Commit(Some("b"), Some(95), "", None),
               Commit(Some("z"), Some(110), "", None)];
    assert ClosestBefore(cs, 100, 1) == Some(0);
    assert ClosestBefore(cs, 100, 2) == Some(0);
    assert ClosestBefore(cs, 100, 3) == Some(0);
    NearestWithoutIdFallsBack(cs, 100, 0);
  }

  /** When some commit is not after `target`, the one chosen is not after it and is the latest such. */
  lemma ClosestCommitIsLatestBefore(commits: seq<Commit>, target: int, j: nat)
    requires j < |commits| && commits[j].date.Some? && commits[j].date.value <= target
    ensures var i := ClosestBefore(commits, target, |commits|);
      && i.Some?
      && commits[i.value].date.Some?
      && commits[j].date.value <= commits[i.value].date.value <= target
  {
    assert DiffBefore(commits[j], target).Some?;
  }
}
