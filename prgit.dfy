/**
 * The parts of `create_pr.py` that fold over git results, the arrow-key menu, and the body of
 * the pull request it posts. A git result is what `run_git_command` returns: whether the
 * command exited with 0, and its stripped output.
 */
module PrGit {
  import opened Wrappers
  import opened PyStr
  import opened Seqs

  datatype GitResult = GitResult(success: bool, output: string)

  // ---------------------------------------------------------------- output folds

  /** Each line stripped, with the lines that are blank once stripped left out. */
  function StrippedLines(lines: seq<string>): (r: seq<string>)
    ensures |r| <= |lines|
    ensures forall k :: 0 <= k < |r| ==> r[k] != []
    decreases |lines|
  {
    if lines == [] then []
    else
      var line := Strip(lines[|lines| - 1]);
      StrippedLines(lines[..|lines| - 1]) + (if line != [] then [line] else [])
  }

  /** The non-blank lines of a command's output, stripped. */
  function OutputLines(output: string): (r: seq<string>)
    ensures forall k :: 0 <= k < |r| ==> r[k] != []
  {
    StrippedLines(Split(output, "\n"))
  }

  /** A line that is not blank survives into the list. */
  lemma {:induction false} StrippedLinesKeepsLine(lines: seq<string>, k: nat)
    requires k < |lines| && Strip(lines[k]) != []
    ensures StrippedLines(lines) != []
    decreases |lines|
  {
    if k < |lines| - 1 {
      assert lines[..|lines| - 1][k] == lines[k];
      StrippedLinesKeepsLine(lines[..|lines| - 1], k);
    }
  }

  predicate Succeeded(r: GitResult)
  {
    r.success
  }

  predicate SucceededWithOutput(r: GitResult)
  {
    r.success && r.output != []
  }

  /**
   * `is_branch_up_to_date` with `results[i]` the result of its `i`-th `git log` command: the
   * first command that succeeds decides, and when none does the branch counts as up to date.
   */
  method IsBranchUpToDate(results: seq<GitResult>) returns (upToDate: bool, commits: seq<string>)
    ensures FirstIndex(results, Succeeded).None? ==> upToDate && commits == []
    ensures FirstIndex(results, Succeeded).Some? ==>
      commits == OutputLines(results[FirstIndex(results, Succeeded).value].output)
    ensures upToDate <==> commits == []
    ensures forall k :: 0 <= k < |commits| ==> commits[k] != []
  {
    var i := 0;
    while i < |results|
      invariant 0 <= i <= |results|
      invariant forall j :: 0 <= j < i ==> !Succeeded(results[j])
    {
      if results[i].success {
        assert FirstIndex(results, Succeeded) == Some(i) by {
          FirstIndexIs(results, Succeeded, i);
        }
        commits := OutputLines(results[i].output);
        return commits == [], commits;
      }
      i := i + 1;
    }
    FirstIndexNone(results, Succeeded);
    return true, [];
  }

  /**
   * `get_commits` with `results[i]` the result of its `i`-th `git log` command: the lines of the
   * first command that succeeds with some output, else no commits.
   */
  method GetCommits(results: seq<GitResult>) returns (commits: seq<string>)
    ensures FirstIndex(results, SucceededWithOutput).None? ==> commits == []
    ensures FirstIndex(results, SucceededWithOutput).Some? ==>
      commits == OutputLines(results[FirstIndex(results, SucceededWithOutput).value].output)
  {
    var i := 0;
    while i < |results|
      invariant 0 <= i <= |results|
      invariant forall j :: 0 <= j < i ==> !SucceededWithOutput(results[j])
    {
      if results[i].success && results[i].output != [] {
        FirstIndexIs(results, SucceededWithOutput, i);
        return OutputLines(results[i].output);
      }
      i := i + 1;
    }
    FirstIndexNone(results, SucceededWithOutput);
    return [];
  }

  lemma FirstIndexIs<T>(s: seq<T>, p: T -> bool, i: nat)
    requires i < |s| && p(s[i]) && forall j :: 0 <= j < i ==> !p(s[j])
    ensures FirstIndex(s, p) == Some(i)
  {
    var r := FirstIndex(s, p);
    assert r.Some?;
  }

  lemma FirstIndexNone<T>(s: seq<T>, p: T -> bool)
    requires forall j :: 0 <= j < |s| ==> !p(s[j])
    ensures FirstIndex(s, p).None?
  {
  }

  /**
   * `run_git_command` strips its output, so output that is not empty has a line that is not
   * blank: `get_commits` returns no commits only when no command succeeded with output.
   */
  lemma StrippedOutputHasLines(output: string)
    requires output != [] && Strip(output) == output
    ensures OutputLines(output) != []
  {
    StripIsStripBy(output);
    assert !IsSpace(output[0]);
    var lines := Split(output, "\n");
    assert lines[0] != [] && lines[0][0] == output[0];
    StripOfNonSpaceStart(lines[0]);
    StrippedLinesKeepsLine(lines, 0);
  }

  // ---------------------------------------------------------------- select_from_menu

  datatype Key = Up | Down | Enter | CtrlC | Other

  /** The index shown first: `default_index` when it is in range, else 0. */
  function InitialIndex(count: nat, defaultIndex: int): (i: nat)
    requires count > 0
    ensures i < count
    ensures 0 <= defaultIndex < count ==> i == defaultIndex
    ensures !(0 <= defaultIndex < count) ==> i == 0
  {
    if 0 <= defaultIndex < count then defaultIndex else 0
  }

  /** The highlighted option and the bindings that move it: the `selected_index` cell. */
  class Menu {
    const options: seq<string>
    var selectedIndex: nat

    predicate Valid()
      reads this
    {
      selectedIndex < |options|
    }

    constructor(options: seq<string>, defaultIndex: int)
      requires options != []
      ensures this.options == options && Valid()
      ensures selectedIndex == InitialIndex(|options|, defaultIndex)
    {
      this.options := options;
      selectedIndex := InitialIndex(|options|, defaultIndex);
    }

    /** The `up` binding: one line higher, stopping at the first option. */
    method MoveUp()
      requires Valid()
      modifies this
      ensures Valid()
      ensures selectedIndex == if old(selectedIndex) == 0 then 0 else old(selectedIndex) - 1
    {
      selectedIndex := if selectedIndex == 0 then 0 else selectedIndex - 1;
    }

    /** The `down` binding: one line lower, stopping at the last option. */
    method MoveDown()
      requires Valid()
      modifies this
      ensures Valid()
      ensures selectedIndex == if old(selectedIndex) + 1 <= |options| - 1 then old(selectedIndex) + 1 else |options| - 1
    {
      selectedIndex := if selectedIndex + 1 <= |options| - 1 then selectedIndex + 1 else |options| - 1;
    }

    /** The `enter` binding's result. */
    function Selected(): (r: string)
      requires Valid()
      reads this
      ensures r in options
    {
      options[selectedIndex]
    }
  }

  /** Where the cursor ends after `keys`, from `i`, among `count` options. */
  function Cursor(count: nat, i: nat, keys: seq<Key>): (r: nat)
    requires i < count
    ensures r < count
    decreases |keys|
  {
    if keys == [] then i
    else match keys[0]
      case Up => Cursor(count, if i == 0 then 0 else i - 1, keys[1..])
      case Down => Cursor(count, if i + 1 <= count - 1 then i + 1 else count - 1, keys[1..])
      case _ => Cursor(count, i, keys[1..])
  }

  predicate EndsMenu(k: Key)
  {
    k == Enter || k == CtrlC
  }

  /**
   * `select_from_menu` with `keys` the keys typed; the call returns at the first Enter
   * (the highlighted option) or Ctrl-C (`None`), so `keys` holds one of them.
   */
  method SelectFromMenu(options: seq<string>, defaultIndex: int, keys: seq<Key>) returns (r: Option<string>)
    requires Enter in keys || CtrlC in keys
    ensures FirstIndex(keys, EndsMenu).Some?
    ensures options == [] ==> r.None?
    ensures options != [] ==>
      var stop := FirstIndex(keys, EndsMenu).value;
      r == if keys[stop] == CtrlC then None
           else Some(options[Cursor(|options|, InitialIndex(|options|, defaultIndex), keys[..stop])])
  {
    assert exists k :: 0 <= k < |keys| && EndsMenu(keys[k]);
    FirstIndexFound(keys, EndsMenu);
    if options == [] {
      return None;
    }
    var menu := new Menu(options, defaultIndex);
    var i := 0;
    while i < |keys| && !EndsMenu(keys[i])
      invariant 0 <= i <= |keys| && menu.Valid() && menu.options == options
      invariant forall j :: 0 <= j < i ==> !EndsMenu(keys[j])
      invariant Cursor(|options|, InitialIndex(|options|, defaultIndex), keys[..FirstIndex(keys, EndsMenu).value])
             == Cursor(|options|, menu.selectedIndex, keys[i..FirstIndex(keys, EndsMenu).value])
      decreases |keys| - i
    {
      var stop := FirstIndex(keys, EndsMenu).value;
      assert i < stop;
      assert keys[i..stop][1..] == keys[i + 1..stop];
      match keys[i] {
        case Up => menu.MoveUp();
        case Down => menu.MoveDown();
        case _ =>
      }
      i := i + 1;
    }
    var stop := FirstIndex(keys, EndsMenu).value;
    assert i == stop;
    if keys[i] == CtrlC {
      return None;
    }
    return Some(menu.Selected());
  }

  lemma FirstIndexFound<T>(s: seq<T>, p: T -> bool)
    requires exists k :: 0 <= k < |s| && p(s[k])
    ensures FirstIndex(s, p).Some?
  {
  }

  /** The cursor stays on an option, so Enter always returns one of them. */
  lemma MenuReturnsAnOption(options: seq<string>, defaultIndex: int, keys: seq<Key>, r: Option<string>)
    requires FirstIndex(keys, EndsMenu).Some? && options != []
    requires var stop := FirstIndex(keys, EndsMenu).value;
      r == if keys[stop] == CtrlC then None
           else Some(options[Cursor(|options|, InitialIndex(|options|, defaultIndex), keys[..stop])])
    ensures r.Some? ==> r.value in options
    ensures r.Some? <==> keys[FirstIndex(keys, EndsMenu).value] == Enter
  {
  }

  /** Pressing Up at least as often as there are options reaches the first option. */
  lemma {:induction false} UpReachesTop(count: nat, i: nat, n: nat)
    requires i < count && n >= i
    ensures Cursor(count, i, seq(n, _ => Up)) == 0
    decreases n
  {
    if n > 0 {
      var keys := seq(n, _ => Up);
      assert keys[0] == Up;
      assert keys[1..] == seq(n - 1, _ => Up);
      UpReachesTop(count, if i == 0 then 0 else i - 1, n - 1);
    }
  }

  /** Pressing Down at least as often as there are options reaches the last option. */
  lemma {:induction false} DownReachesBottom(count: nat, i: nat, n: nat)
    requires i < count && i + n >= count - 1
    ensures Cursor(count, i, seq(n, _ => Down)) == count - 1
    decreases n
  {
    if n > 0 {
      var keys := seq(n, _ => Down);
      assert keys[0] == Down;
      assert keys[1..] == seq(n - 1, _ => Down);
      DownReachesBottom(count, if i + 1 <= count - 1 then i + 1 else count - 1, n - 1);
    }
  }

  // ---------------------------------------------------------------- the pull request body

  /** A branch name in `refs/heads/` form: prefixed only when the prefix is missing. */
  function HeadsRef(branch: string): (r: string)
    ensures StartsWith(r, "refs/heads/")
    ensures StartsWith(branch, "refs/heads/") ==> r == branch
    ensures !StartsWith(branch, "refs/heads/") ==> r == "refs/heads/" + branch && r[11..] == branch
  {
    if StartsWith(branch, "refs/heads/") then branch
    else
      var r := "refs/heads/" + branch;
      assert r[..11] == "refs/heads/";
      r
  }

  /** Normalising twice is normalising once. */
  lemma HeadsRefIdempotent(branch: string)
    ensures HeadsRef(HeadsRef(branch)) == HeadsRef(branch)
  {
  }

  /** The JSON body `create_pull_request` posts; `autoComplete` stands for `completionOptions`. */
  datatype PrPayload = PrPayload(
    sourceRefName: string,
    targetRefName: string,
    title: string,
    description: string,
    autoComplete: bool)

  /** The body for a new pull request from `source` into `target`. */
  function PullRequestPayload(source: string, target: string, title: string, description: string): (p: PrPayload)
    ensures StartsWith(p.sourceRefName, "refs/heads/") && StartsWith(p.targetRefName, "refs/heads/")
    ensures p.sourceRefName == HeadsRef(source) && p.targetRefName == HeadsRef(target)
    ensures p.title == title && p.description == description
    ensures p.autoComplete <==> Lower(target) == "dev"
  {
    PrPayload(HeadsRef(source), HeadsRef(target), title, description, Lower(target) == "dev")
  }

  /** Auto-complete is requested for a `dev` target whatever its letter case, and for no other. */
  lemma AutoCompleteForDev()
    ensures PullRequestPayload("feature/x", "DEV", "t", "d").autoComplete
    ensures PullRequestPayload("feature/x", "Dev", "t", "d").autoComplete
    ensures !PullRequestPayload("feature/x", "master", "t", "d").autoComplete
    ensures !PullRequestPayload("feature/x", "refs/heads/dev", "t", "d").autoComplete
  {
    assert Lower("DEV") == "dev";
    assert Lower("Dev") == "dev";
    assert |Lower("master")| != |"dev"|;
    assert |Lower("refs/heads/dev")| != |"dev"|;
  }
}
