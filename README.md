# Deployment monitor and pull-request helpers

This project is a Dafny model of the decision logic in an Azure DevOps deployment tool for an
AEM as a Cloud Service site. The tool has two scripts.

- `deployment_utils.py` picks the baseline build and the release tag. It bumps the tag,
  triggers a pipeline build on a tag or branch, and lists the pull requests merged since the
  baseline. It then watches the build until it is approved, rejected or times out, posting
  Teams / Power Automate notifications along the way.
- `create_pr.py` derives a pull request's Jira key, title, summary and testing note from the
  branch, `git log` output and `git diff --stat` output. It folds the results of alternative
  git commands, drives an arrow-key menu, builds the creation payload and turns an API URL into
  a web URL.

Every HTTP response, git result, clock reading and key press becomes an input value of the
model. The modules are:

| module | file | what it holds |
|---|---|---|
| `Wrappers` | wrappers.dfy | `Option` and `Result` |
| `PyStr` | pystr.dfy | the Python `str` operations the scripts use (`strip`, `split`, `replace`, `capitalize`, `int()`, `str()`) |
| `Seqs` | seqs.dfy | filtering and first-match search over sequences |
| `Teams` | teams.dfy | webhook routing and the posted JSON payload |
| `DeploymentMonitor` | monitor.dfy | the approval classifier, the monitor's step function, whole sessions, and the monitor as a class with a `Step` method and the polling loop |
| `Builds` | builds.dfy | the last-build selection and the trigger request |
| `Tags` | tags.dfy | the version bump and the latest-tag choice |
| `Commits` | commits.dfy | commits after the baseline, "Merged PR" parsing, and the commit closest to a date |
| `PrText` | prtext.dfy | Jira key, title, summary, testing note, URL conversion |
| `PrGit` | prgit.dfy | git output folds, the selection menu, the pull-request payload |

The monitor's clock is a whole number of seconds since the start. It advances only by the sleep
each iteration chooses: 30 s while the build has not started running, then 600 s for the first 30
minutes after it started, then 120 s. Each poll is `None` when the status fetch failed, or the
build's `status`, `result` and `buildNumber`. A session is the sequence of ticks for a given
sequence of polls. The monitor class records every notification it sends in a ghost sequence. Its
loop is proved to return what the session function returns and to send exactly that session's
notifications.

While it waits, the monitor neither re-queries merged pull requests nor updates the tag.

## Model

| member | source | states |
|---|---|---|
| Teams.RouteFor | deployment_utils.py:1657-1662 | The three final status types ("triggered", "succeeded", "failed") go to the Power Automate flow; every other status type goes to the Teams channel. |
| Teams.RouteOfStatusType | deployment_utils.py:1657-1662 | Of the four update kinds the monitor sends, only the in-progress update reaches the Teams channel. |
| Teams.MessagePayload | deployment_utils.py:1151-1188 | The Power Automate flow receives a single Adaptive Card attachment holding one wrapped text block; any other webhook receives a plain `text` payload. |
| Teams.MessagePayloadCarriesMessage | deployment_utils.py:1157-1188 | For either destination, the message can be read back unchanged from the payload. |
| Teams.Delivered | deployment_utils.py:1190-1213 | Sending counts as successful exactly for HTTP 200 and 202. |
| DeploymentMonitor.CheckBuildApprovalStatus | deployment_utils.py:1476-1498 | The result is approved iff the build is completed with succeeded/partiallySucceeded. It is rejected iff the fetch failed or the build is completed with failed/canceled. Otherwise the result is undecided. The poll is returned unchanged. |
| DeploymentMonitor.RunningInterval | deployment_utils.py:1770-1786 | Once running, the monitor sleeps 600 s for less than 30 minutes after the running phase began and 120 s from then on. |
| DeploymentMonitor.Tick | deployment_utils.py:1699-1830 | The monitor times out exactly when elapsed > max wait, with no notice. It approves or rejects exactly on a succeeded or failed build, and then sends the matching final notice. Otherwise it continues: the clock advances by the chosen sleep (30, 600 or 120 s), and any notice is a triggered or in-progress one about the polled build. |
| DeploymentMonitor.TickKeepsInv | deployment_utils.py:1693-1830 | Each step keeps the state invariant: the clock is non-negative; `triggered_sent` equals `build_is_running`; a phase start time is recorded iff the build is running, and it lies between zero and now; and a running build has a last status. |
| DeploymentMonitor.FailedFetchRetries | deployment_utils.py:1709-1714 | A failed status fetch sleeps 30 s and changes nothing else. |
| DeploymentMonitor.WaitingSleepsFast | deployment_utils.py:1742-1767 | While the build is not yet running, every continuing step sleeps 30 s. |
| DeploymentMonitor.RunningSleeps | deployment_utils.py:1769-1786 | While the build is running and undecided, the step sleeps 600 s before the 30-minute mark and 120 s after it. |
| DeploymentMonitor.TriggerRule | deployment_utils.py:1742-1757 | The triggered notice is sent iff the build is not yet running and the status is "inProgress". That step sets `triggered_sent`, `build_is_running`, `last_status = "inProgress"` and the phase start to now. |
| DeploymentMonitor.RunningIsSticky | deployment_utils.py:1753-1756 | Once running, `triggered_sent`, `build_is_running` and the phase start never change again. |
| DeploymentMonitor.InProgressRule | deployment_utils.py:1788-1799 | While running, an in-progress notice is sent iff the status differs from `last_status` and is not "inProgress"; `last_status` then becomes that status. |
| DeploymentMonitor.SteadyStatusIsQuiet | deployment_utils.py:1800-1807 | While running, a poll repeating the last status sends nothing and changes only the clock. |
| DeploymentMonitor.SessionEndsOnce | deployment_utils.py:1699-1736 | Every session has one outcome. An approved or rejected session ends with exactly one final (succeeded/failed) notice, about the deciding build, with no final notice before it. A timed-out session sends no final notice at all. |
| DeploymentMonitor.RunningSessionNoTrigger | deployment_utils.py:1742-1757 | A session that starts from a running build sends no triggered notice. |
| DeploymentMonitor.TriggeredAtMostOnce | deployment_utils.py:1742-1757 | A session sends the triggered notice at most once, and never when it was already sent. |
| DeploymentMonitor.SessionPollBound | deployment_utils.py:1701-1714 | A session makes at most (max wait − elapsed) / 30 + 1 status polls. |
| DeploymentMonitor.Returned | deployment_utils.py:1716-1736 | The value returned is (True, build) for an approval, (False, build) for a rejection, and (None, None) for a timeout. |
| DeploymentMonitor.Monitor.constructor | deployment_utils.py:1688-1697 | The monitor starts with no last status, nothing sent, not running, no phase start, and the clock at zero; the max wait is minutes × 60. |
| DeploymentMonitor.Monitor.Send | deployment_utils.py:1724-1798 | Sending appends exactly one notice to the record and leaves the monitor state unchanged. |
| DeploymentMonitor.Monitor.Step | deployment_utils.py:1699-1830 | One loop iteration updates the fields to the tick's next state, records the tick's notice and sleep, or stores the outcome on a stop. |
| DeploymentMonitor.Monitor.Advance | deployment_utils.py:1742-1821 | The part of an iteration after the approval check moves the fields to the waiting or running tick's next state, and records that tick's notice and sleep. |
| DeploymentMonitor.MonitorDeploymentProgress | deployment_utils.py:1666-1833 | The loop returns the outcome of the session for these polls, and the notices it sends are exactly that session's notices. |
| DeploymentMonitor.QueuedOneMinute | deployment_utils.py:1699-1714 | A build that stays queued under a one-minute limit is polled three times and times out with no notice. |
| DeploymentMonitor.QueuedRunningSucceeded | deployment_utils.py:1699-1757 | For queued, then running, then succeeded, the session sends triggered then succeeded, and is approved after three polls. |
| DeploymentMonitor.FetchFailuresThenFailed | deployment_utils.py:1709-1736 | For two failed fetches and then a failed build, the session sends one failed notice and is rejected. |
| Builds.InfoOf | deployment_utils.py:132-153 | The reported record copies the build's number, id, source version, start time, result and status. |
| Builds.SelectBuildIsFirstMatch | deployment_utils.py:104-153 | The build reported is the first active build when in-progress builds are wanted and one exists. Otherwise it is the first valid (succeeded, Full Stack when required) build. Otherwise nothing is reported. |
| Builds.GetLastBuildInfo | deployment_utils.py:100-159 | With no response or a non-positive count, nothing is reported. Otherwise the loop's lists give exactly the selection above. |
| Builds.BuildSourceRef | deployment_utils.py:229-247 | A non-empty tag wins and gets `refs/tags/` exactly once. Otherwise the branch gets `refs/heads/` exactly once. With neither, the result is None. |
| Builds.BuildSourceRefIdempotent | deployment_utils.py:229-247 | Normalising an already normalised ref gives the same ref. |
| Builds.TriggerRequest | deployment_utils.py:229-254 | The posted body names the normalised ref and `int(definition_id)`. There is no request when there is no ref, and an error when `int()` rejects the id. |
| Builds.TriggerResult | deployment_utils.py:263-278 | A trigger is reported iff the POST answered 200 or 201, with the new build's id and number and status "triggered". |
| Tags.DefaultTagText | deployment_utils.py:418-419 | The fallback tag is "v1.0.0". |
| Tags.ParseAll | deployment_utils.py:430-440 | When the conversion succeeds, every part converted with `int()`, in order, to the number at its position. |
| Tags.ParseAllFails | deployment_utils.py:430-440 | The conversion fails iff some part is rejected by `int()`, which is when the `try` block raises. |
| Tags.IncrementTagVersion | deployment_utils.py:416-419 | A missing or empty tag gives "v1.0.0". |
| Tags.UsedParts | deployment_utils.py:425-441 | The bump reads the first three dot-separated parts after the stripped 'v'/'V' prefix, or all of them when there are fewer. |
| Tags.IncrementThreeOrMore | deployment_utils.py:425-432 | For any tag "v" + a + "." + b + "." + c followed by nothing or by '.' and more parts, where `int()` reads a, b and c as x, y and z, the result is vx.y.(z+1): extra parts are dropped. |
| Tags.IncrementRejectedPart | deployment_utils.py:428-463 | When `int()` rejects any of the first three parts, the `try` fails and the result is "v1.0.0". |
| Tags.IncrementTagVersionIsVersionTag | deployment_utils.py:416-463 | Every result has the promised form: "v" followed by exactly three dot-separated parts that `int()` accepts. |
| Tags.IncrementPatch | deployment_utils.py:428-432 | vX.Y.Z becomes vX.Y.(Z+1). |
| Tags.IncrementMinor | deployment_utils.py:433-437 | vX.Y becomes vX.(Y+1).0. |
| Tags.IncrementMajorOnly | deployment_utils.py:438-441 | vX becomes vX.0.1. |
| Tags.IncrementNonNumeric | deployment_utils.py:424-463 | A tag whose first part is not an integer falls back to "v1.0.0". |
| Tags.FormatIsVersionTag | deployment_utils.py:446-457 | A formatted version has the vX.Y.Z form and reads back as its three numbers. |
| Tags.VersionKey | deployment_utils.py:325-333 | The sort key is the parts as integers, or (0, 0, 0) when a part is not an integer; it is never empty. |
| Tags.VersionKeyOfFormat | deployment_utils.py:325-333 | The key of vX.Y.Z is (X, Y, Z). |
| Tags.IncrementSortsLater | deployment_utils.py:325-336 | A bumped three-part tag sorts after the tag it came from. |
| Tags.FirstGreatest | deployment_utils.py:335-336 | The head of the stable descending sort has no key exceeding it, and is preceded only by strictly smaller keys. |
| Tags.LatestIndex | deployment_utils.py:335-336 | The latest tag has the greatest version key, and is the first tag listed with that key. |
| Tags.TagNamesEmpty | deployment_utils.py:313-322 | There are no tag names iff no ref starts with `refs/tags/`. |
| Tags.GetLatestTag | deployment_utils.py:290-340 | With no refs, or no tag refs, the latest tag is None. Otherwise it is one of the tag names, and no tag name has a greater version key. |
| Tags.LatestIsFirstOfEquals | deployment_utils.py:335-336 | Of tags with equal greatest keys, the first listed is chosen. |
| Commits.JiraOfMessage | deployment_utils.py:1112-1114 | There is no key iff the message lacks "ADW-". Otherwise the key is "ADW-" plus the first whitespace-delimited word of the text between the first and second "ADW-". When that text holds no word, `split()[0]` raises and the result is an error. |
| Commits.ParseMergedPr | deployment_utils.py:1098-1133 | A record exists iff three things hold: the message holds "Merged PR ", the stripped text between the first "Merged PR " and the next ':' is all digits, and the Jira lookup does not raise. The PR number is that text and the Jira key is the lookup's. The description follows the description rules. The author is the name (or "Unknown") with every 'X' removed, stripped. The hash is the first eight characters of the id. There is a key iff the message holds "ADW-". A message without "Merged PR" gives no record. |
| Commits.PrRecordsFromCommits | deployment_utils.py:1098-1139 | Every record was parsed from one of the listed commits. |
| Commits.GetPrMergesAfterCommit | deployment_utils.py:1036-1139 | The result is None iff the baseline date or the commit list is missing. Otherwise it is the records parsed, in order, from the commits strictly after the baseline (an empty list when there are none). |
| Commits.MergesFollowBaseline | deployment_utils.py:1066-1139 | Every reported PR comes from a commit that is not the baseline and is dated strictly after it. |
| Commits.ParseMergeMessage | deployment_utils.py:1106-1133 | Parsing "Merged PR n: title" with a plain title gives back PR number n, no Jira key, the stripped title as the description, the cleaned author and the short hash. |
| Commits.JiraAfterPrefix | deployment_utils.py:1112-1114 | Take a message pre + "ADW-" + k + rest, where pre has no 'A', k is all digits, and rest starts with whitespace and holds no "ADW-". Its key is "ADW-k". |
| Commits.KeyedMessageJira | deployment_utils.py:1112-1114 | The merge message "Merged PR n: ADW-k [Merkle] t" has the key "ADW-k". |
| Commits.KeyedMessageDescription | deployment_utils.py:1116-1120 | The description of "Merged PR n: ADW-k [Merkle] t" is the stripped title t: the key and "[Merkle]" are removed. |
| Commits.ParseKeyedMergeMessage | deployment_utils.py:1098-1133 | Parsing "Merged PR n: ADW-k [Merkle] t", with digit strings n and k and a plain t, gives back PR number n, key "ADW-k", description strip(t), the cleaned author and the short hash. |
| Commits.ClosestBefore | deployment_utils.py:914-938 | The chosen commit is dated at or before the target and is nearest to it. It is the first of equally near commits. Nothing is chosen iff no commit is at or before the target. |
| Commits.ClosestCommit | deployment_utils.py:936-948 | The result is the id kept by the scan, that of the nearest commit at or before the target. When none was kept, because no commit qualifies or the nearest has no id, it is the last listed commit's id. A missing or empty id gives None, and a returned id is never empty. |
| Commits.FindCommitOnBranchByDate | deployment_utils.py:914-951 | With no commits the result is None. Otherwise the loop's result is the id the scan keeps, with the last-commit fallback above. |
| Commits.NearestWithoutIdFallsBack | deployment_utils.py:936-942 | When the nearest commit at or before the target has no id, the last listed commit's id is returned, even if an earlier qualifying commit has one. |
| Commits.FallbackExample | deployment_utils.py:914-951 | For commits dated 97 (no id), 95 ("b") and 110 ("z") and target 100, the result is "z". |
| Commits.ClosestCommitIsLatestBefore | deployment_utils.py:914-938 | When some commit is at or before the target, one is chosen, and it is at least as late as every such commit. |
| PrText.TicketMatch | create_pr.py:464-465 | A match is "ADW-" (any case) with the longest run of digits after it. |
| PrText.FirstTicketFrom | create_pr.py:465 | The search finds the first index where the pattern matches, or reports that it matches nowhere. |
| PrText.ExtractJiraTicket | create_pr.py:461-468 | The result is None iff the pattern matches nowhere. A key found starts with "ADW-" followed only by digits. |
| PrText.ExtractJiraTicketIsFirstMatch | create_pr.py:461-468 | The key is the first match, upper-cased. |
| PrText.ExtractJiraTicketIdempotent | create_pr.py:461-468 | Extracting from an extracted key gives the key again. |
| PrText.RemoveTickets | create_pr.py:620 | Removing keys never lengthens the text. |
| PrText.RemoveTicketsAbsent | create_pr.py:620 | Text without a key is left unchanged. |
| PrText.RemoveLeadingTicket | create_pr.py:620 | A leading "ADW-digits " is removed together with the spaces after it. |
| PrText.CapitalizeAll | create_pr.py:614 | Each word is capitalised, and no word is added or dropped. |
| PrText.BranchTitlePartHasNoSeparators | create_pr.py:608-614 | The part taken from the branch name contains no '-' and no '_'. |
| PrText.CommitTitlePart | create_pr.py:619-621 | The part taken from a commit is at most 50 characters long. |
| PrText.GeneratePrTitle | create_pr.py:605-625 | The title starts with "{ticket} [Merkle] ". After that comes the branch part (with no dashes or underscores) when the branch holds the ticket, "Changes" when there are no commits, and otherwise at most 50 characters from the first commit. |
| PrText.BranchTitlePartOfWords | create_pr.py:610-614 | For branch text "-" + w1 + "-" + … + "-" + wn, with words free of '-', '_' and whitespace, the part is the capitalised words joined by spaces. |
| PrText.TitleFromBranchWords | create_pr.py:605-614 | For a branch pre + ticket + "-" + w1 + … + "-" + wn, where the ticket first occurs after pre, the title is "{ticket} [Merkle] " plus the capitalised words joined by spaces. |
| PrText.CommitTitlePartOfMessage | create_pr.py:617-621 | For a commit h + " " + m, with h free of spaces and m key-free, stripped and at most 50 characters, the part is m. |
| PrText.CommitTitlePartOfKeyedMessage | create_pr.py:617-621 | For a commit h + " " + "ADW-" + d + " " + m, with h free of spaces, d all digits and m as above, the key is removed and the part is m. |
| PrText.TitleFromCommitMessage | create_pr.py:605-625 | When the branch lacks the ticket and the first commit is h + " " + m as above, the title is "{ticket} [Merkle] " + m. |
| PrText.TitleFromKeyedCommitMessage | create_pr.py:605-625 | The same holds when the first commit is h + " " + "ADW-" + d + " " + m. |
| PrText.DropHashPrefix | create_pr.py:771 | Dropping the hash prefix leaves the line or a proper suffix of it. |
| PrText.DropHashPrefixRemovesHash | create_pr.py:771 | When the line starts with a non-empty lower-case hex run and then a non-empty whitespace run, exactly those two runs are removed. |
| PrText.DropHashPrefixKeeps | create_pr.py:771 | In every other case the line is returned unchanged. Any change removes such a hex run and the whole whitespace run after it. |
| PrText.CleanedCommits | create_pr.py:768-775 | The cleaned messages are non-empty, and there are no more of them than the lines. |
| PrText.CleanedCommitsHead | create_pr.py:768-779 | The first cleaned message is that of the first line which cleans to something. |
| PrText.Sentence | create_pr.py:780-785 | The summary upper-cases the first character, keeps the rest, and ends in '.', '!' or '?'. A '.' is added only when the capitalised line lacks such an ending. |
| PrText.FileTypeSummary | create_pr.py:787-801 | The summary names Java iff a `.java` entry is listed. Otherwise it names XML iff a `.xml` entry is listed, otherwise scripts iff a `.js`/`.jsx`/`.ts`/`.tsx` entry is listed; otherwise it is the default sentence. |
| PrText.GeneratePrSummary | create_pr.py:761-801 | The loop over the first five lines returns the summary the specification function defines. |
| PrText.SummaryFromFirstCleanCommit | create_pr.py:768-785 | When one of the first five lines cleans to something, the summary is the first such line as a sentence. |
| PrText.SummaryFromFileTypes | create_pr.py:777-801 | When none of the first five lines cleans to anything, the summary comes from the file types. |
| PrText.GenerateTestingDescription | create_pr.py:803-825 | The note ends with the manual-testing sentence, and starts with "Unit tests added/updated." iff the file changes list a test/spec file. Empty file changes give only the manual-testing sentence. |
| PrText.NotUnitTesting | create_pr.py:807-823 | The manual-testing sentence alone never reads as a unit-test note. |
| PrText.PullRequestId | create_pr.py:1131-1139 | An id is found iff the URL contains "/pullRequests/" or "/pullrequests/", the upper-case marker being tried first. The id is the text after the first marker, up to its next occurrence, up to the first '?'. It never contains '?'. |
| PrText.PullRequestIdOf | create_pr.py:1132-1135 | Take pre + "/pullRequests/" + id + rest, where the marker first occurs after pre. If id holds neither '?' nor the marker, and rest is empty or starts with '?', the id is found. |
| PrText.PullRequestIdOfLower | create_pr.py:1136-1139 | The same holds for "/pullrequests/" when "/pullRequests/" occurs nowhere in the URL. |
| PrText.WebUrl | create_pr.py:1141-1152 | The web URL ends in "/DigitalExperience/_git/aemaacs-life/pullrequest/{id}" and is on dev.azure.com for visualstudio.com or dev.azure.com addresses. It fails exactly where the source's `split(...)[1]` raises `IndexError`. |
| PrText.ConvertApiUrlToWebUrl | create_pr.py:1125-1153 | No URL, or an empty one, gives None. A URL that is not a repository API URL, or has no PR id, comes back unchanged. Otherwise the result ends in the web path for the id, or fails where the conversion raises. |
| PrGit.StrippedLines | create_pr.py:484 | Every kept line is non-empty, and there are no more kept lines than input lines. |
| PrGit.StrippedLinesKeepsLine | create_pr.py:484 | A line that is not blank makes the result non-empty. |
| PrGit.IsBranchUpToDate | create_pr.py:470-489 | The first successful command decides, giving (no lines, its non-empty stripped lines). When every command fails, the branch counts as up to date with no commits. |
| PrGit.GetCommits | create_pr.py:571-586 | The first command that succeeds with non-empty output gives its lines; otherwise the result is []. |
| PrGit.StrippedOutputHasLines | create_pr.py:583-584 | Stripped, non-empty command output always yields at least one line. |
| PrGit.InitialIndex | create_pr.py:1000 | The cursor starts at the default index when it is in range, else at 0. |
| PrGit.Menu.constructor | create_pr.py:997-1000 | The menu starts with its options and the initial index. |
| PrGit.Menu.MoveUp | create_pr.py:1024-1028 | Up moves to max(0, i − 1). |
| PrGit.Menu.MoveDown | create_pr.py:1030-1034 | Down moves to min(len − 1, i + 1). |
| PrGit.Menu.Selected | create_pr.py:1036-1038 | The selected text is one of the options. |
| PrGit.Cursor | create_pr.py:1024-1034 | Any key sequence keeps the cursor within the options. |
| PrGit.SelectFromMenu | create_pr.py:995-1094 | Empty options give None. Otherwise the first Enter returns the option under the cursor those keys reach, and a Ctrl-C first gives None. |
| PrGit.MenuReturnsAnOption | create_pr.py:1036-1042 | The menu returns an option from the list iff it ends on Enter. |
| PrGit.UpReachesTop | create_pr.py:1024-1028 | Enough Up presses reach the first option and stay there. |
| PrGit.DownReachesBottom | create_pr.py:1030-1034 | Enough Down presses reach the last option and stay there. |
| PrGit.HeadsRef | create_pr.py:1186-1187 | The ref gets `refs/heads/` only when that prefix is missing. |
| PrGit.HeadsRefIdempotent | create_pr.py:1162-1163 | Normalising a normalised ref changes nothing. |
| PrGit.PullRequestPayload | create_pr.py:1231-1244 | Both refs carry `refs/heads/`, and the title and description are passed through. Auto-complete options are added iff the lower-cased target branch is "dev". |
| PrGit.AutoCompleteForDev | create_pr.py:1239-1243 | "DEV" and "Dev" enable auto-complete; "master" and "refs/heads/dev" do not. |

## Left out

- HTTP I/O: every `requests` call (builds, refs, commits, repository id, PR lookup and creation, webhook posts) is left out. The decoded responses and status codes are inputs.
- Secrets: the webhook URLs and tokens are not copied. The two webhooks are named destinations.
- Time: `time.time`, `time.sleep` and `datetime.fromisoformat` are replaced by an integer clock and integer timestamps. The minute-based log figures are floating-point formatting and are not modelled.
- Concurrency: the background thread that runs the monitor during the automated workflow is not modelled.
- Message bodies: the text of every notification, print and log line is not modelled. Only the notification kind, the build it is about and its destination are.
- Unused monitor inputs: `pr_merges`, `build_info`, `branch`, `tag_info` and `baseline_commit` are accepted or computed by the monitor but never decide anything in its loop.
- Monitor exceptions: an exception inside an iteration (for example a missing `status`) is modelled as the source's recovery — sleep 30 s and change nothing. Other exceptions are not modelled.
- Git and the filesystem: `run_git_command`, `find_git_root` and the merge helpers are not modelled. Each git command's result is an input pair of success and stripped output.
- `get_file_changes_summary`: its `git diff --stat` text is an input.
- The terminal UI: `prompt_toolkit` rendering, styles, themes and the ticket completer are not modelled. Key presses are an input sequence.
- PrGit.SelectFromMenu: it requires the key sequence to hold an Enter or a Ctrl-C, because without one the source's menu never returns.
- Scripts: `deployment_dev.py`, `deployment_stage.py`, `pt_theme.py`, `test_build_fetch.py` and the web application are not part of this model.
- Character classes: digits and case mapping are ASCII only. Python's `isdigit`, `\d`, `upper` and `capitalize` also accept or map non-ASCII characters. Whitespace is Python's full `str.isspace` set. The one non-ASCII `re.IGNORECASE` rule, that 's' matches U+017F, is modelled.
- Commits.ParseMergedPr: a field that is JSON `null` is treated like a missing field. In the source, a null `author`, `commitId` or `comment` raises outside the per-commit `try` (deployment_utils.py:1071, 1101-1105). The outer handler then returns None for the whole lookup. Only a null `author.name`, which raises at 1122 inside the `try`, skips just that commit. The constant `note` field of each record is not modelled.
- Commits.GetPrMergesAfterCommit: the fallback branch for a missing baseline date is not modelled, because the function returns before reaching it.
- Tags.IncrementTagVersion: the final three-part re-check is not modelled, because every version built before it already has three parts.
- PrText.GenerateTestingDescription: the component-file check is modelled but decides nothing, because both of its branches append the same sentence.
