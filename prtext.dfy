/**
 * The text `create_pr.py` derives for a pull request: the Jira key of a branch, the title,
 * the one-line summary, the testing note, and the web address of an existing pull request.
 */
module PrText {
  import opened Wrappers
  import opened PyStr

  const Project := "DigitalExperience"
  const RepositoryName := "aemaacs-life"

  // ---------------------------------------------------------------- the pattern ADW-\d+ under re.IGNORECASE

  /** `ADW-\d+` (ignoring case) can match at index `i`. */
  predicate TicketAt(s: string, i: nat)
  {
    && i + 5 <= |s|
    && CharEqIgnoreCase(s[i], 'A') && CharEqIgnoreCase(s[i + 1], 'D') && CharEqIgnoreCase(s[i + 2], 'W')
    && s[i + 3] == '-' && IsDigit(s[i + 4])
  }

  /** The text the pattern matches at `i`: the marker and the longest run of digits after it. */
  function TicketMatch(s: string, i: nat): (m: string)
    requires TicketAt(s, i)
    ensures 5 <= |m| && i + |m| <= |s| && m == s[i..i + |m|]
    ensures IsDigits(m[4..]) && (i + |m| < |s| ==> !IsDigit(s[i + |m|]))
  {
    var digits := TakeWhile(s[i + 4..], IsDigit);
    assert digits != [] by { assert IsDigit(s[i + 4..][0]); }
    s[i..i + 4] + digits
  }

  /** The first index at or after `from` where the pattern matches. */
  function FirstTicketFrom(s: string, from: nat): (r: Option<nat>)
    requires from <= |s|
    ensures r.Some? ==> from <= r.value && TicketAt(s, r.value)
    ensures r.Some? ==> forall j: nat :: from <= j < r.value ==> !TicketAt(s, j)
    ensures r.None? ==> forall j: nat :: from <= j ==> !TicketAt(s, j)
    decreases |s| - from
  {
    if from == |s| then None
    else if TicketAt(s, from) then Some(from)
    else FirstTicketFrom(s, from + 1)
  }

  /** `extract_jira_ticket`: the first match, upper-cased, or `None` when there is none. */
  function ExtractJiraTicket(branchName: string): (r: Option<string>)
    ensures r.None? <==> forall i: nat :: !TicketAt(branchName, i)
    ensures r.Some? ==> StartsWith(r.value, "ADW-") && IsDigits(r.value[4..])
  {
    match FirstTicketFrom(branchName, 0)
    case None => None
    case Some(i) =>
      var m := TicketMatch(branchName, i);
      var u := Upper(m);
      assert u[..4] == "ADW-";
      assert u[4..] == m[4..] by {
        forall k | 4 <= k < |m| ensures u[k] == m[k] {
          assert IsDigit(m[4..][k - 4]);
        }
      }
      Some(u)
  }

  /** The key reported is the one at the leftmost match. */
  lemma ExtractJiraTicketIsFirstMatch(branchName: string, i: nat)
    requires TicketAt(branchName, i) && forall j: nat :: j < i ==> !TicketAt(branchName, j)
    ensures ExtractJiraTicket(branchName) == Some(Upper(TicketMatch(branchName, i)))
  {
    assert FirstTicketFrom(branchName, 0).Some?;
  }

  /** A key that was extracted extracts to itself: it is one whole match in upper case. */
  lemma ExtractJiraTicketIdempotent(branchName: string)
    requires ExtractJiraTicket(branchName).Some?
    ensures ExtractJiraTicket(ExtractJiraTicket(branchName).value) == ExtractJiraTicket(branchName)
  {
    var t := ExtractJiraTicket(branchName).value;
    assert t[..4] == "ADW-";
    assert IsDigit(t[4..][0]);
    assert TicketAt(t, 0);
    TakeWhileUpTo(t[4..], [], IsDigit);
    assert t[4..] + [] == t[4..];
    assert TicketMatch(t, 0) == t;
    assert Upper(t) == t by {
      forall k | 0 <= k < |t| ensures Upper(t)[k] == t[k] {
        if k >= 4 {
          assert IsDigit(t[4..][k - 4]);
        }
      }
    }
    ExtractJiraTicketIsFirstMatch(t, 0);
  }

  /**
   * Every Jira key (any case), with the whitespace after it, deleted: the text is scanned left
   * to right, and the scan resumes after each deleted key.
   */
  function RemoveTickets(s: string): (r: string)
    ensures |r| <= |s|
    decreases |s|
  {
    if s == [] then []
    else if TicketAt(s, 0) then
      var m := TicketMatch(s, 0);
      RemoveTickets(LStrip(s[|m|..], IsSpace))
    else [s[0]] + RemoveTickets(s[1..])
  }

  /** Text with no match is left as it is. */
  lemma {:induction false} RemoveTicketsAbsent(s: string)
    requires forall i: nat :: !TicketAt(s, i)
    ensures RemoveTickets(s) == s
    decreases |s|
  {
    if s != [] {
      assert !TicketAt(s, 0);
      forall i: nat ensures !TicketAt(s[1..], i) {
        assert !TicketAt(s, i + 1);
      }
      RemoveTicketsAbsent(s[1..]);
    }
  }

  /** A leading key and the space after it are removed. */
  lemma RemoveLeadingTicket(digits: string, rest: string)
    requires IsDigits(digits) && (rest == [] || !IsSpace(rest[0]))
    ensures RemoveTickets("ADW-" + digits + " " + rest) == RemoveTickets(rest)
  {
    var key := "ADW-" + digits;
    var tail := " " + rest;
    assert key + " " + rest == key + tail;
    LeadingTicketMatch(digits, tail);
    RemoveMatchedTicket(key, tail);
    LStripOneSpace(rest);
  }

  lemma LStripOneSpace(rest: string)
    requires rest == [] || !IsSpace(rest[0])
    ensures LStrip(" " + rest, IsSpace) == rest
  {
    assert (" " + rest)[1..] == rest;
  }

  lemma RemoveMatchedTicket(key: string, tail: string)
    requires TicketAt(key + tail, 0) && TicketMatch(key + tail, 0) == key
    ensures RemoveTickets(key + tail) == RemoveTickets(LStrip(tail, IsSpace))
  {
    assert (key + tail)[|key|..] == tail;
  }

  lemma LeadingTicketMatch(digits: string, tail: string)
    requires IsDigits(digits) && (tail == [] || !IsDigit(tail[0]))
    ensures TicketAt("ADW-" + digits + tail, 0)
    ensures TicketMatch("ADW-" + digits + tail, 0) == "ADW-" + digits
  {
    var s := "ADW-" + digits + tail;
    assert s[4..] == digits + tail;
    assert s[4] == digits[0];
    TakeWhileUpTo(digits, tail, IsDigit);
  }

  // ---------------------------------------------------------------- generate_pr_title

  function CapitalizeAll(words: seq<string>): (r: seq<string>)
    ensures |r| == |words| && forall k :: 0 <= k < |r| ==> r[k] == Capitalize(words[k])
  {
    seq(|words|, k requires 0 <= k < |words| => Capitalize(words[k]))
  }

  predicate IsDash(c: char)
  {
    c == '-'
  }

  predicate IsUnderscore(c: char)
  {
    c == '_'
  }

  /** Dashes and underscores turned into spaces. */
  function Spaced(s: string): string
  {
    Replace(Replace(s, "-", " "), "_", " ")
  }

  /** The whitespace-separated words, each capitalised, joined by single spaces. */
  function TitleCase(s: string): string
  {
    Join(CapitalizeAll(Words(s)), " ")
  }

  /** The title part taken from the text after the key in the branch name. */
  function BranchTitlePart(rest: string): string
  {
    TitleCase(Spaced(Strip(StripBy(StripBy(rest, IsDash), IsUnderscore))))
  }

  /** Dashes and underscores become spaces, so neither survives in the title part. */
  lemma BranchTitlePartHasNoSeparators(rest: string)
    ensures '-' !in BranchTitlePart(rest) && '_' !in BranchTitlePart(rest)
  {
    SpacedHasNoSeparators(Strip(StripBy(StripBy(rest, IsDash), IsUnderscore)));
  }

  lemma SpacedHasNoSeparators(s: string)
    ensures '-' !in TitleCase(Spaced(s)) && '_' !in TitleCase(Spaced(s))
  {
    var dashless := Replace(s, "-", " ");
    ReplaceCharGone(s, '-', " ");
    ReplaceKeepsAbsent(dashless, "_", " ", '-');
    ReplaceCharGone(dashless, '_', " ");
    CapitalizedWordsKeepAbsent(Spaced(s), '-');
    CapitalizedWordsKeepAbsent(Spaced(s), '_');
  }

  lemma CapitalizeAllKeepsAbsent(words: seq<string>, x: char)
    requires forall k :: 0 <= k < |words| ==> x !in words[k]
    requires !('a' <= x <= 'z') && !('A' <= x <= 'Z')
    ensures forall k :: 0 <= k < |CapitalizeAll(words)| ==> x !in CapitalizeAll(words)[k]
  {
    forall k | 0 <= k < |words| ensures x !in CapitalizeAll(words)[k] {
      CapitalizeKeepsAbsent(words[k], x);
    }
  }

  lemma CapitalizedWordsKeepAbsent(s: string, x: char)
    requires x !in s && x != ' ' && !('a' <= x <= 'z') && !('A' <= x <= 'Z')
    ensures x !in TitleCase(s)
  {
    WordsKeepAbsent(s, x);
    CapitalizeAllKeepsAbsent(Words(s), x);
    JoinKeepsAbsent(CapitalizeAll(Words(s)), " ", x);
  }

  /** The title part taken from the first commit line: hash and keys removed, at most 50 characters. */
  function CommitTitlePart(commit: string): (part: string)
    ensures |part| <= 50
  {
    var message := if |Split(commit, " ")| > 1 then SplitOnce(commit, " ")[1] else commit;
    Strip(Take(RemoveTickets(message), 50))
  }

  /**
   * `generate_pr_title`: `"<key> [Merkle] <part>"`. The part comes from the branch name when it
   * contains the key, else from the first commit, else it is `Changes`.
   */
  function GeneratePrTitle(branchName: string, jiraTicket: string, commits: seq<string>): (title: string)
    requires jiraTicket != []
    ensures StartsWith(title, jiraTicket + " [Merkle] ")
    ensures var part := title[|jiraTicket| + 10..];
      && (Contains(branchName, jiraTicket) ==> '-' !in part && '_' !in part)
      && (!Contains(branchName, jiraTicket) && commits == [] ==> part == "Changes")
      && (!Contains(branchName, jiraTicket) && commits != [] ==> |part| <= 50)
  {
    var branchParts := SplitOnce(branchName, jiraTicket);
    var part :=
      if |branchParts| > 1 then (BranchTitlePartHasNoSeparators(branchParts[1]); BranchTitlePart(branchParts[1]))
      else if commits != [] then CommitTitlePart(commits[0])
      else "Changes";
    var title := jiraTicket + " [Merkle] " + part;
    assert title[..|jiraTicket| + 10] == jiraTicket + " [Merkle] ";
    assert title[|jiraTicket| + 10..] == part;
    title
  }

  /** A word of a branch name: non-empty, with no dash, underscore or whitespace. */
  predicate BranchWord(w: string)
  {
    w != [] && NoSpace(w) && '-' !in w && '_' !in w
  }

  /** Words joined by dashes become the capitalised words joined by spaces. */
  lemma {:induction false} BranchTitlePartOfWords(ws: seq<string>)
    requires ws != [] && forall k :: 0 <= k < |ws| ==> BranchWord(ws[k])
    ensures BranchTitlePart("-" + Join(ws, "-")) == Join(CapitalizeAll(ws), " ")
  {
    var j := Join(ws, "-");
    JoinFirst(ws, "-");
    JoinLast(ws, "-");
    var last := ws[|ws| - 1];
    assert ws[0][0] in ws[0] && last[|last| - 1] in last;
    StripSeparatorsKeeps(j);
    SpacedJoin(ws);
    WordsOfJoin(ws);
  }

  /** Stripping a leading dash, then dashes, underscores and whitespace at the ends, leaves `j`. */
  lemma StripSeparatorsKeeps(j: string)
    requires j != [] && !IsDash(j[0]) && !IsUnderscore(j[0]) && !IsSpace(j[0])
    requires !IsDash(j[|j| - 1]) && !IsUnderscore(j[|j| - 1]) && !IsSpace(j[|j| - 1])
    ensures Strip(StripBy(StripBy("-" + j, IsDash), IsUnderscore)) == j
  {
    assert ("-" + j)[1..] == j;
    assert LStrip("-" + j, IsDash) == j;
    assert StripBy("-" + j, IsDash) == j;
    assert StripBy(j, IsUnderscore) == j;
    StripEdges(j);
  }

  /** Dashed words, spaced, are the words joined by spaces. */
  lemma {:induction false} SpacedJoin(ws: seq<string>)
    requires ws != [] && forall k :: 0 <= k < |ws| ==> BranchWord(ws[k])
    ensures Spaced(Join(ws, "-")) == Join(ws, " ")
  {
    ReplaceJoinSeparator(ws, '-', " ");
    var spaced := Join(ws, " ");
    JoinKeepsAbsent(ws, " ", '_');
    LacksChar(spaced, '_');
    ReplaceAbsent(spaced, "_", " ");
  }

  /** The text after the first key in a branch name, when the key is followed by dashed words. */
  lemma {:induction false} BranchAfterKey(pre: string, jiraTicket: string, rest: string)
    requires jiraTicket != [] && IndexOf(pre + jiraTicket + rest, jiraTicket) == Some(|pre|)
    ensures SplitOnce(pre + jiraTicket + rest, jiraTicket) == [pre, rest]
  {
    var b := pre + jiraTicket + rest;
    assert b[..|pre|] == pre;
    assert b[|pre| + |jiraTicket|..] == rest;
  }

  /**
   * A branch named `<pre><key>-<w1>-...-<wn>`, with the key first occurring after `pre`, gives
   * the title `<key> [Merkle] <W1> ... <Wn>` with each word capitalised.
   */
  lemma {:induction false} TitleFromBranchWords(pre: string, jiraTicket: string, ws: seq<string>, commits: seq<string>)
    requires jiraTicket != [] && IndexOf(pre + jiraTicket + ("-" + Join(ws, "-")), jiraTicket) == Some(|pre|)
    requires ws != [] && forall k :: 0 <= k < |ws| ==> BranchWord(ws[k])
    ensures GeneratePrTitle(pre + jiraTicket + ("-" + Join(ws, "-")), jiraTicket, commits) ==
      jiraTicket + " [Merkle] " + Join(CapitalizeAll(ws), " ")
  {
    var rest := "-" + Join(ws, "-");
    BranchAfterKey(pre, jiraTicket, rest);
    TitleOfBranchPart(pre + jiraTicket + rest, jiraTicket, commits, rest);
    BranchTitlePartOfWords(ws);
  }

  /** A branch name that holds the key is titled by the text after the key's first occurrence. */
  lemma {:induction false} TitleOfBranchPart(branchName: string, jiraTicket: string, commits: seq<string>, rest: string)
    requires jiraTicket != [] && |SplitOnce(branchName, jiraTicket)| == 2 && SplitOnce(branchName, jiraTicket)[1] == rest
    ensures GeneratePrTitle(branchName, jiraTicket, commits) == jiraTicket + " [Merkle] " + BranchTitlePart(rest)
  {
  }

  /** Text in which the key pattern matches nowhere. */
  ghost predicate KeyFree(m: string)
  {
    forall i: nat :: !TicketAt(m, i)
  }

  /** The text after the first space of a commit line. */
  lemma {:induction false} AfterFirstSpace(h: string, m: string)
    requires ' ' !in h
    ensures |Split(h + " " + m, " ")| > 1 && SplitOnce(h + " " + m, " ")[1] == m
  {
    SplitCons(h, ' ', m);
    IndexAfterPrefix(h, " ", m);
    var c := h + " " + m;
    assert c[|h| + 1..] == m;
  }

  /** A stripped text does not start with whitespace. */
  lemma {:induction false} StrippedStart(m: string)
    requires Strip(m) == m && m != []
    ensures !IsSpace(m[0])
  {
  }

  /** A commit line `<word> <m>`, with `m` free of keys, stripped and short, gives the title part `m`. */
  lemma {:induction false} CommitTitlePartOfMessage(h: string, m: string)
    requires ' ' !in h && KeyFree(m) && Strip(m) == m && |m| <= 50
    ensures CommitTitlePart(h + " " + m) == m
  {
    AfterFirstSpace(h, m);
    RemoveTicketsAbsent(m);
  }

  /** A commit line `<word> ADW-<digits> <m>` gives the title part `m`: the key is removed. */
  lemma {:induction false} CommitTitlePartOfKeyedMessage(h: string, d: string, m: string)
    requires ' ' !in h && IsDigits(d) && KeyFree(m) && Strip(m) == m && |m| <= 50
    ensures CommitTitlePart(h + " " + ("ADW-" + d + " " + m)) == m
  {
    AfterFirstSpace(h, "ADW-" + d + " " + m);
    if m != [] {
      StrippedStart(m);
    }
    RemoveLeadingTicket(d, m);
    RemoveTicketsAbsent(m);
  }

  /** Without the key in the branch name, the first commit's message becomes the title. */
  lemma {:induction false} TitleFromCommitMessage(branchName: string, jiraTicket: string, h: string, m: string, more: seq<string>)
    requires jiraTicket != [] && !Contains(branchName, jiraTicket)
    requires ' ' !in h && KeyFree(m) && Strip(m) == m && |m| <= 50
    ensures GeneratePrTitle(branchName, jiraTicket, [h + " " + m] + more) == jiraTicket + " [Merkle] " + m
  {
    CommitTitlePartOfMessage(h, m);
  }

  /** Without the key in the branch name, the first commit's message without its key becomes the title. */
  lemma {:induction false} TitleFromKeyedCommitMessage(branchName: string, jiraTicket: string, h: string, d: string, m: string,
                                    more: seq<string>)
    requires jiraTicket != [] && !Contains(branchName, jiraTicket)
    requires ' ' !in h && IsDigits(d) && KeyFree(m) && Strip(m) == m && |m| <= 50
    ensures GeneratePrTitle(branchName, jiraTicket, [h + " " + ("ADW-" + d + " " + m)] + more) ==
      jiraTicket + " [Merkle] " + m
  {
    CommitTitlePartOfKeyedMessage(h, d, m);
  }

  // ---------------------------------------------------------------- generate_pr_summary

  predicate IsLowerHex(c: char)
  {
    IsDigit(c) || 'a' <= c <= 'f'
  }

  /** The line without a leading abbreviated hash: a lower-case hex word and the whitespace after it. */
  function DropHashPrefix(line: string): (r: string)
    ensures r == line || (|r| < |line| && r == line[|line| - |r|..])
  {
    var hash := TakeWhile(line, IsLowerHex);
    var rest := line[|hash|..];
    if hash != [] && rest != [] && IsSpace(rest[0]) then LStrip(rest, IsSpace) else line
  }

  /**
   * `^[a-f0-9]+\s+` matches `line[..j]`: a non-empty lower-case hex run `line[..i]`, then the
   * whitespace run `line[i..j]`, which the greedy `\s+` takes in full.
   */
  predicate HashPrefix(line: string, i: nat, j: nat)
  {
    && 0 < i < j <= |line|
    && (forall k :: 0 <= k < i ==> IsLowerHex(line[k]))
    && (forall k :: i <= k < j ==> IsSpace(line[k]))
    && (j == |line| || !IsSpace(line[j]))
  }

  /** Where the pattern matches, exactly the matched hash and whitespace are removed. */
  lemma {:induction false} DropHashPrefixRemovesHash(line: string, i: nat, j: nat)
    requires HashPrefix(line, i, j)
    ensures DropHashPrefix(line) == line[j..]
  {
    HashRunEnds(line, i);
    DropHashPrefixAt(line, i);
    SpaceRunEnds(line, i, j);
  }

  /** The hex run of a matched line ends where its whitespace starts. */
  lemma {:induction false} HashRunEnds(line: string, i: nat)
    requires 0 < i < |line| && (forall k :: 0 <= k < i ==> IsLowerHex(line[k])) && IsSpace(line[i])
    ensures TakeWhile(line, IsLowerHex) == line[..i]
  {
    var a, b := line[..i], line[i..];
    assert b[0] == line[i];
    TakeWhileUpTo(a, b, IsLowerHex);
    assert a + b == line;
  }

  /** The whitespace run of a matched line is stripped in full. */
  lemma {:induction false} SpaceRunEnds(line: string, i: nat, j: nat)
    requires i < j <= |line| && (forall k :: i <= k < j ==> IsSpace(line[k])) && (j == |line| || !IsSpace(line[j]))
    ensures LStrip(line[i..], IsSpace) == line[j..]
  {
    var b := line[i..];
    assert forall k :: 0 <= k < j - i ==> b[k] == line[i + k];
    assert j < |line| ==> b[j - i] == line[j];
    LStripExact(b, j - i, IsSpace);
    assert b[j - i..] == line[j..];
  }

  /** With the hash run ending at `i` before a whitespace character, what follows is stripped. */
  lemma {:induction false} DropHashPrefixAt(line: string, i: nat)
    requires 0 < i < |line| && TakeWhile(line, IsLowerHex) == line[..i] && IsSpace(line[i])
    ensures DropHashPrefix(line) == LStrip(line[i..], IsSpace)
  {
    assert line[i..][0] == line[i];
  }

  /** Otherwise the line is kept: whatever changes, a matched prefix was removed. */
  lemma {:induction false} DropHashPrefixKeeps(line: string)
    ensures DropHashPrefix(line) == line || HashPrefix(line, |TakeWhile(line, IsLowerHex)|, |line| - |DropHashPrefix(line)|)
  {
    var i := |TakeWhile(line, IsLowerHex)|;
    if 0 < i < |line| && IsSpace(line[i]) {
      DropHashPrefixAt(line, i);
      StrippedRunMatches(line, i);
    } else {
      assert i < |line| ==> line[i..][0] == line[i];
    }
  }

  /** A hex run ending at `i` before whitespace, and the whole whitespace run after it, match. */
  lemma {:induction false} StrippedRunMatches(line: string, i: nat)
    requires 0 < i < |line| && (forall k :: 0 <= k < i ==> IsLowerHex(line[k])) && IsSpace(line[i])
    ensures HashPrefix(line, i, |line| - |LStrip(line[i..], IsSpace)|)
  {
    var rest := line[i..];
    var r := LStrip(rest, IsSpace);
    var j := |line| - |r|;
    assert rest[0] == line[i];
    assert |r| < |rest|;
    assert forall k :: i <= k < j ==> line[k] == rest[k - i];
    assert j < |line| ==> line[j] == r[0];
  }

  /** A commit line with its hash and keys removed and whitespace trimmed. */
  function CleanCommit(line: string): string
  {
    Strip(RemoveTickets(DropHashPrefix(line)))
  }

  /** The non-empty cleaned lines, in order. */
  function CleanedCommits(lines: seq<string>): (r: seq<string>)
    ensures |r| <= |lines|
    ensures forall k :: 0 <= k < |r| ==> r[k] != []
    decreases |lines|
  {
    if lines == [] then []
    else
      var c := CleanCommit(lines[|lines| - 1]);
      CleanedCommits(lines[..|lines| - 1]) + (if c != [] then [c] else [])
  }

  lemma CleanedCommitsSnoc(lines: seq<string>, i: nat)
    requires i < |lines|
    ensures CleanedCommits(lines[..i + 1]) ==
      CleanedCommits(lines[..i]) + (if CleanCommit(lines[i]) != [] then [CleanCommit(lines[i])] else [])
  {
    assert lines[..i + 1][..i] == lines[..i];
  }

  lemma CleanedCommitsStep(lines: seq<string>, i: nat, cleaned: seq<string>, c: string)
    requires i < |lines| && cleaned == CleanedCommits(lines[..i]) && c == CleanCommit(lines[i])
    ensures c != [] ==> CleanedCommits(lines[..i + 1]) == cleaned + [c]
    ensures c == [] ==> CleanedCommits(lines[..i + 1]) == cleaned
  {
    CleanedCommitsSnoc(lines, i);
  }

  /** The head of the cleaned list is the cleaned form of the first line that does not clean to nothing. */
  lemma {:induction false} CleanedCommitsHead(lines: seq<string>, i: nat)
    requires i < |lines| && CleanCommit(lines[i]) != []
    requires forall j :: 0 <= j < i ==> CleanCommit(lines[j]) == []
    ensures CleanedCommits(lines) != [] && CleanedCommits(lines)[0] == CleanCommit(lines[i])
    decreases |lines|
  {
    if i < |lines| - 1 {
      CleanedCommitsHead(lines[..|lines| - 1], i);
    } else {
      CleanedCommitsEmpty(lines[..|lines| - 1]);
    }
  }

  lemma {:induction false} CleanedCommitsEmpty(lines: seq<string>)
    requires forall j :: 0 <= j < |lines| ==> CleanCommit(lines[j]) == []
    ensures CleanedCommits(lines) == []
    decreases |lines|
  {
    if lines != [] {
      CleanedCommitsEmpty(lines[..|lines| - 1]);
    }
  }

  predicate EndsWithSentenceMark(s: string)
  {
    s != [] && (s[|s| - 1] == '.' || s[|s| - 1] == '!' || s[|s| - 1] == '?')
  }

  /** The first cleaned line with its first letter upper-cased and a full stop added if it has no end mark. */
  function Sentence(line: string): (r: string)
    requires line != []
    ensures EndsWithSentenceMark(r)
    ensures |r| == |line| || |r| == |line| + 1
    ensures r[0] == UpperChar(line[0]) && r[1..|line|] == line[1..]
    ensures EndsWithSentenceMark([UpperChar(line[0])] + line[1..]) <==> |r| == |line|
  {
    var capitalized := if |line| > 1 then [UpperChar(line[0])] + line[1..] else Upper(line);
    assert capitalized == [UpperChar(line[0])] + line[1..];
    if EndsWithSentenceMark(capitalized) then capitalized else capitalized + "."
  }

  /** `pattern` occurs followed by a whitespace character. */
  predicate BeforeSpace(s: string, pattern: string)
  {
    exists i :: 0 <= i < |s| && At(s, i, pattern) && i + |pattern| < |s| && IsSpace(s[i + |pattern|])
  }

  predicate HasJava(fileChanges: string) { BeforeSpace(fileChanges, ".java") }
  predicate HasXml(fileChanges: string) { BeforeSpace(fileChanges, ".xml") }
  predicate HasScript(fileChanges: string)
  {
    BeforeSpace(fileChanges, ".js") || BeforeSpace(fileChanges, ".jsx")
    || BeforeSpace(fileChanges, ".ts") || BeforeSpace(fileChanges, ".tsx")
  }

  const JavaSummary := "Updates Java components and configurations."
  const XmlSummary := "Updates XML configurations."
  const ScriptSummary := "Updates JavaScript/TypeScript components."
  const DefaultSummary := "Implements changes as described in the ticket."

  /** The summary from the kinds of files changed: Java before XML before scripts before the default. */
  function FileTypeSummary(fileChanges: string): (r: string)
    ensures r == JavaSummary <==> HasJava(fileChanges)
    ensures r == XmlSummary <==> !HasJava(fileChanges) && HasXml(fileChanges)
    ensures r == ScriptSummary <==> !HasJava(fileChanges) && !HasXml(fileChanges) && HasScript(fileChanges)
    ensures r == DefaultSummary <==> !HasJava(fileChanges) && !HasXml(fileChanges) && !HasScript(fileChanges)
  {
    if fileChanges == [] then DefaultSummary
    else if HasJava(fileChanges) then JavaSummary
    else if HasXml(fileChanges) then XmlSummary
    else if HasScript(fileChanges) then ScriptSummary
    else DefaultSummary
  }

  /** The first five lines, `commits[:5]`. */
  function FirstFive(commits: seq<string>): seq<string>
  {
    if |commits| <= 5 then commits else commits[..5]
  }

  /** What `generate_pr_summary` returns. */
  function PrSummary(commits: seq<string>, fileChanges: string): string
  {
    if commits == [] then "Updates from current branch"
    else
      var cleaned := CleanedCommits(FirstFive(commits));
      if cleaned != [] then Sentence(cleaned[0]) else FileTypeSummary(fileChanges)
  }

  /** `generate_pr_summary`, with its loop over the first five commit lines. */
  method GeneratePrSummary(commits: seq<string>, fileChanges: string) returns (summary: string)
    ensures summary == PrSummary(commits, fileChanges)
  {
    if commits == [] {
      return "Updates from current branch";
    }
    var firstFive := FirstFive(commits);
    var cleanedCommits: seq<string> := [];
    var i := 0;
    while i < |firstFive|
      invariant 0 <= i <= |firstFive|
      invariant cleanedCommits == CleanedCommits(firstFive[..i])
    {
      var commitMsg := CleanCommit(firstFive[i]);
      CleanedCommitsStep(firstFive, i, cleanedCommits, commitMsg);
      if commitMsg != [] {
        cleanedCommits := cleanedCommits + [commitMsg];
      }
      i := i + 1;
    }
    assert firstFive[..i] == firstFive;
    if cleanedCommits != [] {
      return Sentence(cleanedCommits[0]);
    }
    return FileTypeSummary(fileChanges);
  }

  /**
   * When one of the first five lines cleans to something, the summary is the first such line as a
   * sentence; it always ends in `.`, `!` or `?`.
   */
  lemma SummaryFromFirstCleanCommit(commits: seq<string>, fileChanges: string, i: nat)
    requires i < |commits| && i < 5 && CleanCommit(commits[i]) != []
    requires forall j :: 0 <= j < i ==> CleanCommit(commits[j]) == []
    ensures PrSummary(commits, fileChanges) == Sentence(CleanCommit(commits[i]))
    ensures EndsWithSentenceMark(PrSummary(commits, fileChanges))
  {
    var firstFive := FirstFive(commits);
    assert forall j :: 0 <= j <= i ==> firstFive[j] == commits[j];
    CleanedCommitsHead(firstFive, i);
  }

  /** When none of the first five lines cleans to anything, the summary comes from the file changes. */
  lemma SummaryFromFileTypes(commits: seq<string>, fileChanges: string)
    requires commits != [] && forall j :: 0 <= j < |commits| && j < 5 ==> CleanCommit(commits[j]) == []
    ensures PrSummary(commits, fileChanges) == FileTypeSummary(fileChanges)
  {
    var firstFive := FirstFive(commits);
    assert forall j :: 0 <= j < |firstFive| ==> firstFive[j] == commits[j];
    CleanedCommitsEmpty(firstFive);
  }

  // ---------------------------------------------------------------- generate_testing_description

  const ManualTesting := "Manual testing performed " + "in AEM author environment."
  const UnitTesting := "Unit tests added/updated."

  /** `p` occurs at `i` ignoring case. */
  predicate AtIgnoreCase(s: string, i: nat, p: string)
  {
    i + |p| <= |s| && forall k :: 0 <= k < |p| ==> CharEqIgnoreCase(s[i + k], p[k])
  }

  /** `(test|spec)\.(java|js|ts)`, ignoring case, matches at `i`. */
  predicate TestFileAt(s: string, i: nat)
  {
    && (AtIgnoreCase(s, i, "test") || AtIgnoreCase(s, i, "spec"))
    && i + 4 < |s| && s[i + 4] == '.'
    && (AtIgnoreCase(s, i + 5, "java") || AtIgnoreCase(s, i + 5, "js") || AtIgnoreCase(s, i + 5, "ts"))
  }

  predicate HasTestFile(fileChanges: string)
  {
    exists i: nat :: i < |fileChanges| && TestFileAt(fileChanges, i)
  }

  /** `\.(java|js|jsx|ts|tsx)`, which decides nothing: both of its branches add the same sentence. */
  predicate HasComponentFile(fileChanges: string)
  {
    exists i :: 0 <= i < |fileChanges| && (At(fileChanges, i, ".java") || At(fileChanges, i, ".js") || At(fileChanges, i, ".ts"))
  }

  /**
   * `generate_testing_description`: the manual-testing sentence, preceded by the unit-test
   * sentence exactly when the file changes name a test or spec file.
   */
  method GenerateTestingDescription(commits: seq<string>, fileChanges: string) returns (description: string)
    ensures EndsWith(description, ManualTesting)
    ensures StartsWith(description, UnitTesting) <==> fileChanges != [] && HasTestFile(fileChanges)
    ensures fileChanges == [] || !HasTestFile(fileChanges) ==> description == ManualTesting
    ensures fileChanges != [] && HasTestFile(fileChanges) ==> description == UnitTesting + " " + ManualTesting
  {
    if fileChanges == [] {
      NotUnitTesting();
      return ManualTesting;
    }
    var hasTests := HasTestFile(fileChanges);
    var hasComponents := HasComponentFile(fileChanges);
    var testingParts: seq<string> := [];
    if hasTests {
      testingParts := testingParts + [UnitTesting];
    }
    if hasComponents {
      testingParts := testingParts + [ManualTesting];
    } else {
      testingParts := testingParts + [ManualTesting];
    }
    description := if testingParts != [] then Join(testingParts, " ") else ManualTesting;
    NotUnitTesting();
    if hasTests {
      assert testingParts == [UnitTesting, ManualTesting];
      assert Join(testingParts[1..], " ") == ManualTesting by {
        assert testingParts[1..] == [ManualTesting];
      }
      assert description == UnitTesting + " " + ManualTesting;
      var d := description;
      assert d[..|UnitTesting|] == UnitTesting;
      assert d[|d| - |ManualTesting|..] == ManualTesting;
    } else {
      assert testingParts == [ManualTesting];
    }
  }

  /** The manual-testing sentence does not begin with the unit-test one. */
  lemma NotUnitTesting()
    ensures !StartsWith(ManualTesting, UnitTesting)
  {
    assert ManualTesting[..|UnitTesting|][0] == ManualTesting[0];
  }

  // ---------------------------------------------------------------- convert_api_url_to_web_url

  /** The pull request id: after the first `/pullRequests/` (else `/pullrequests/`), up to `?`. */
  function PullRequestId(apiUrl: string): (r: Option<string>)
    ensures r.None? <==> !Contains(apiUrl, "/pullRequests/") && !Contains(apiUrl, "/pullrequests/")
    ensures r.Some? ==> !Contains(r.value, "?")
    ensures Contains(apiUrl, "/pullRequests/") ==>
      r == Some(TextBefore(TextBefore(TextAfter(apiUrl, "/pullRequests/"), "/pullRequests/"), "?"))
    ensures !Contains(apiUrl, "/pullRequests/") && Contains(apiUrl, "/pullrequests/") ==>
      r == Some(TextBefore(TextBefore(TextAfter(apiUrl, "/pullrequests/"), "/pullrequests/"), "?"))
  {
    if Contains(apiUrl, "/pullRequests/") then
      var parts := Split(apiUrl, "/pullRequests/");
      SplitSecond(apiUrl, "/pullRequests/");
      SplitHead(parts[1], "?");
      SplitPartsLackSep(parts[1], "?");
      Some(Split(parts[1], "?")[0])
    else if Contains(apiUrl, "/pullrequests/") then
      var parts := Split(apiUrl, "/pullrequests/");
      SplitSecond(apiUrl, "/pullrequests/");
      SplitHead(parts[1], "?");
      SplitPartsLackSep(parts[1], "?");
      Some(Split(parts[1], "?")[0])
    else None
  }

  /**
   * The id read after `marker`: for `<pre><marker><id><rest>` with the marker first occurring
   * after `pre`, an id without `?` or the marker, and a rest that is empty or a query, it is `id`.
   */
  lemma {:induction false} IdAfterMarker(pre: string, marker: string, id: string, rest: string)
    requires marker != [] && '?' !in marker && IndexOf(pre + marker + (id + rest), marker) == Some(|pre|)
    requires '?' !in id && !Contains(id, marker) && (rest == [] || rest[0] == '?')
    ensures Contains(pre + marker + (id + rest), marker)
    ensures TextBefore(TextBefore(TextAfter(pre + marker + (id + rest), marker), marker), "?") == id
  {
    var url := pre + marker + (id + rest);
    assert url[|pre| + |marker|..] == id + rest;
    LacksChar(id, '?');
    if rest == [] {
      assert id + rest == id;
      assert TextBefore(id, marker) == id;
      assert TextBefore(id, "?") == id;
    } else {
      var w := TextBefore(id + rest, marker);
      CutAfterStop(id, rest, marker);
      IndexAfterPrefix(id, "?", w[|id| + 1..]);
      assert w == id + "?" + w[|id| + 1..];
    }
  }

  /** Cutting at a pattern without `?` keeps a text up to and including the first `?`. */
  lemma {:induction false} CutAfterStop(id: string, rest: string, marker: string)
    requires marker != [] && '?' !in marker && !Contains(id, marker) && rest != [] && rest[0] == '?'
    ensures var w := TextBefore(id + rest, marker); |w| > |id| && w[..|id| + 1] == id + "?"
  {
    var s := id + rest;
    forall j | 0 <= j <= |id| ensures !At(s, j, marker) {
      if j + |marker| <= |id| {
        assert s[j..j + |marker|] == id[j..j + |marker|];
        assert !At(id, j, marker);
      } else if j + |marker| <= |s| {
        assert s[j..j + |marker|][|id| - j] == s[|id|] == '?';
      }
    }
    assert s[..|id| + 1] == id + "?";
  }

  /** The id of `<pre>/pullRequests/<id><rest>`. */
  lemma {:induction false} PullRequestIdOf(pre: string, id: string, rest: string)
    requires IndexOf(pre + "/pullRequests/" + (id + rest), "/pullRequests/") == Some(|pre|)
    requires '?' !in id && !Contains(id, "/pullRequests/") && (rest == [] || rest[0] == '?')
    ensures PullRequestId(pre + "/pullRequests/" + (id + rest)) == Some(id)
  {
    IdAfterMarker(pre, "/pullRequests/", id, rest);
  }

  /** The id of `<pre>/pullrequests/<id><rest>` when the upper-case marker occurs nowhere. */
  lemma {:induction false} PullRequestIdOfLower(pre: string, id: string, rest: string)
    requires IndexOf(pre + "/pullrequests/" + (id + rest), "/pullrequests/") == Some(|pre|)
    requires !Contains(pre + "/pullrequests/" + (id + rest), "/pullRequests/")
    requires '?' !in id && !Contains(id, "/pullrequests/") && (rest == [] || rest[0] == '?')
    ensures PullRequestId(pre + "/pullrequests/" + (id + rest)) == Some(id)
  {
    IdAfterMarker(pre, "/pullrequests/", id, rest);
  }

  /** The path every converted address ends with. */
  function WebPath(prId: string): string
  {
    "/" + Project + "/_git/" + RepositoryName + "/pullrequest/" + prId
  }

  /** The web address for an id, or `Err` where indexing a `split` result raises IndexError. */
  function WebUrl(apiUrl: string, prId: string): (r: Result<string>)
    ensures r.Ok? ==> EndsWith(r.value, WebPath(prId))
    ensures r.Ok? && (Contains(apiUrl, "visualstudio.com") || Contains(apiUrl, "dev.azure.com")) ==>
      StartsWith(r.value, "https://dev.azure.com/")
    ensures r.Err? <==>
      || (Contains(apiUrl, "visualstudio.com") && !Contains(apiUrl, "://"))
      || (!Contains(apiUrl, "visualstudio.com") && Contains(apiUrl, "dev.azure.com") && !Contains(apiUrl, "dev.azure.com/"))
  {
    var tail := WebPath(prId);
    if Contains(apiUrl, "visualstudio.com") then
      match SplitPart(apiUrl, "://", 1)
      case None => Err("IndexError")
      case Some(host) =>
        var org := Split(host, ".visualstudio.com")[0];
        var url := "https://dev.azure.com/" + org + tail;
        assert url[..22] == "https://dev.azure.com/";
        assert url[|url| - |tail|..] == tail;
        Ok(url)
    else if Contains(apiUrl, "dev.azure.com") then
      match SplitPart(apiUrl, "dev.azure.com/", 1)
      case None => Err("IndexError")
      case Some(path) =>
        var org := Split(path, "/")[0];
        var url := "https://dev.azure.com/" + org + tail;
        assert url[..22] == "https://dev.azure.com/";
        assert url[|url| - |tail|..] == tail;
        Ok(url)
    else
      var base := Split(apiUrl, "/_apis")[0];
      var url := base + tail;
      assert url[|url| - |tail|..] == tail;
      Ok(url)
  }

  /**
   * `convert_api_url_to_web_url`: `Ok(None)` for no address, the address itself when it is not a
   * pull request API address, else the web address built from it.
   */
  function ConvertApiUrlToWebUrl(apiUrl: Option<string>): (r: Result<Option<string>>)
    ensures apiUrl.None? || apiUrl.value == [] ==> r == Ok(None)
    ensures (apiUrl.Some? && apiUrl.value != [] &&
             (!Contains(apiUrl.value, "_apis/git/repositories") || PullRequestId(apiUrl.value).GetOr("") == "")) ==>
      r == Ok(apiUrl)
    ensures apiUrl.Some? && Contains(apiUrl.value, "_apis/git/repositories") && PullRequestId(apiUrl.value).GetOr("") != "" ==>
      match r
      case Ok(w) => w.Some? && EndsWith(w.value, WebPath(PullRequestId(apiUrl.value).value))
      case Err(_) => WebUrl(apiUrl.value, PullRequestId(apiUrl.value).value).Err?
    ensures r.Err? ==> apiUrl.Some? && Contains(apiUrl.value, "_apis/git/repositories")
  {
    if apiUrl.None? || apiUrl.value == [] then Ok(None)
    else
      var url := apiUrl.value;
      if Contains(url, "_apis/git/repositories") then
        var prId := PullRequestId(url);
        if prId.Some? && prId.value != [] then
          match WebUrl(url, prId.value)
          case Err(e) => Err(e)
          case Ok(w) => Ok(Some(w))
        else Ok(apiUrl)
      else Ok(apiUrl)
  }
}
