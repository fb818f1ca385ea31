/**
 * `monitor_deployment_progress` and `check_build_approval_status`: the polling loop that
 * watches one pipeline build, sends the Teams notifications for it and ends in one outcome.
 *
 * Time is a whole number of seconds since monitoring started; it advances only by the sleeps
 * the loop chooses. A poll is the result of one `get_build_status` call: `None` when the
 * fetch failed.
 */
module DeploymentMonitor {
  import opened Wrappers
  import Teams

  /** The fields of `get_build_status`'s record that the monitor reads. */
  datatype BuildStatus = BuildStatus(status: Option<string>, result: Option<string>, buildNumber: Option<string>)

  type Poll = Option<BuildStatus>

  predicate IsCompleted(b: BuildStatus)
  {
    b.status == Some("completed")
  }

  predicate SucceededBuild(b: BuildStatus)
  {
    IsCompleted(b) && (b.result == Some("succeeded") || b.result == Some("partiallySucceeded"))
  }

  predicate FailedBuild(b: BuildStatus)
  {
    IsCompleted(b) && (b.result == Some("failed") || b.result == Some("canceled"))
  }

  /** The pair `check_build_approval_status` returns: approval `True`/`False`/`None` and the record. */
  datatype ApprovalCheck = ApprovalCheck(approved: Option<bool>, build: Poll)

  function CheckBuildApprovalStatus(poll: Poll): (r: ApprovalCheck)
    ensures r.build == poll
    ensures r.approved == Some(true) <==> poll.Some? && SucceededBuild(poll.value)
    ensures r.approved == Some(false) <==> poll.None? || FailedBuild(poll.value)
    ensures r.approved.None? <==> poll.Some? && !SucceededBuild(poll.value) && !FailedBuild(poll.value)
  {
    match poll
    case None => ApprovalCheck(Some(false), None)
    case Some(b) =>
      if b.status == Some("completed") && b.result in [Some("succeeded"), Some("partiallySucceeded")] then
        ApprovalCheck(Some(true), poll)
      else if b.status == Some("completed") && b.result in [Some("failed"), Some("canceled")] then
        ApprovalCheck(Some(false), poll)
      else
        ApprovalCheck(None, poll)
  }

  // ---------------------------------------------------------------- the loop as a state machine

  /** One notification `send_pipeline_status_update` delivers, with the poll it reports. */
  datatype Notice = Notice(kind: Teams.StatusType, build: BuildStatus)

  /** How a session ends. */
  datatype Outcome = Approved(build: BuildStatus) | Rejected(build: BuildStatus) | TimedOut

  /** The loop's variables that outlive one iteration, and the clock. */
  datatype MonitorState = MonitorState(
    lastStatus: Option<string>,
    triggeredSent: bool,
    buildIsRunning: bool,
    phase2StartTime: Option<int>,
    clock: int)

  /** The state before the first iteration. */
  function Init(): MonitorState
  {
    MonitorState(None, false, false, None, 0)
  }

  /** What the loop keeps true of its variables. */
  predicate Inv(s: MonitorState)
  {
    && s.clock >= 0
    && s.triggeredSent == s.buildIsRunning
    && (s.buildIsRunning <==> s.phase2StartTime.Some?)
    && (s.phase2StartTime.Some? ==> 0 <= s.phase2StartTime.value <= s.clock)
    && (s.buildIsRunning ==> s.lastStatus.Some?)
  }

  /** The sleeps the loop uses. */
  const FastInterval: nat := 30
  const SlowInterval: nat := 600
  const SlowIntervalAfter30Min: nat := 120

  /** One iteration: sleep and go round again, or return. */
  datatype Step =
    | Continue(next: MonitorState, notice: Option<Notice>, sleep: nat)
    | Stop(outcome: Outcome, notice: Option<Notice>)

  /** The sleep while the build is running: 10 minutes for the first 30 minutes, then 2. */
  function RunningInterval(s: MonitorState): (sleep: nat)
    ensures s.phase2StartTime.Some? && s.clock - s.phase2StartTime.value < 1800 ==> sleep == SlowInterval
    ensures s.phase2StartTime.Some? && s.clock - s.phase2StartTime.value >= 1800 ==> sleep == SlowIntervalAfter30Min
  {
    match s.phase2StartTime
    case Some(start) => if s.clock - start >= 30 * 60 then SlowIntervalAfter30Min else SlowInterval
    case None => SlowInterval
  }

  /** An iteration before the build runs: wait for `inProgress`, then announce it once. */
  function WaitingTick(s: MonitorState, b: BuildStatus): Step
  {
    if !s.triggeredSent && b.status == Some("inProgress") then
      Continue(MonitorState(b.status, true, true, Some(s.clock), s.clock + FastInterval),
               Some(Notice(Teams.Triggered, b)), FastInterval)
    else
      Continue(s.(lastStatus := b.status, clock := s.clock + FastInterval), None, FastInterval)
  }

  /**
   * An iteration while the build runs. A status other than `inProgress` that differs from the
   * last one is announced; when the status is missing, formatting the message raises, and
   * the loop's handler sleeps 30 seconds with nothing changed.
   */
  function RunningTick(s: MonitorState, b: BuildStatus): Step
  {
    var interval := RunningInterval(s);
    if s.lastStatus != b.status && b.status != Some("inProgress") then
      if b.status.None? then
        Continue(s.(clock := s.clock + FastInterval), None, FastInterval)
      else
        Continue(s.(lastStatus := b.status, clock := s.clock + interval), Some(Notice(Teams.InProgress, b)), interval)
    else
      Continue(s.(lastStatus := b.status, clock := s.clock + interval), None, interval)
  }

  /** One iteration of the `while True` loop, given the poll it would make. */
  function Tick(s: MonitorState, poll: Poll, maxWaitSeconds: int): (st: Step)
    ensures st.Stop? && st.outcome.TimedOut? <==> s.clock > maxWaitSeconds
    ensures st.Stop? && st.outcome.TimedOut? ==> st.notice.None?
    ensures st.Stop? && st.outcome.Approved? <==>
      s.clock <= maxWaitSeconds && poll.Some? && SucceededBuild(poll.value)
    ensures st.Stop? && st.outcome.Rejected? <==>
      s.clock <= maxWaitSeconds && poll.Some? && FailedBuild(poll.value)
    ensures st.Stop? && !st.outcome.TimedOut? ==>
      && poll == Some(st.outcome.build)
      && st.notice == Some(Notice(if st.outcome.Approved? then Teams.Succeeded else Teams.Failed, poll.value))
    ensures st.Continue? ==>
      && s.clock <= maxWaitSeconds
      && st.next.clock == s.clock + st.sleep
      && st.sleep in {FastInterval, SlowInterval, SlowIntervalAfter30Min}
    ensures st.Continue? && st.notice.Some? ==>
      poll.Some? && st.notice.value.build == poll.value
      && (st.notice.value.kind == Teams.Triggered || st.notice.value.kind == Teams.InProgress)
  {
    if s.clock > maxWaitSeconds then Stop(TimedOut, None)
    else match poll
      case None => Continue(s.(clock := s.clock + FastInterval), None, FastInterval)
      case Some(b) =>
        var check := CheckBuildApprovalStatus(poll);
        if check.approved == Some(true) then Stop(Approved(b), Some(Notice(Teams.Succeeded, b)))
        else if check.approved == Some(false) then Stop(Rejected(b), Some(Notice(Teams.Failed, b)))
        else if !s.buildIsRunning then WaitingTick(s, b)
        else RunningTick(s, b)
  }

  /** The loop keeps its invariant. */
  lemma TickKeepsInv(s: MonitorState, poll: Poll, maxWaitSeconds: int)
    requires Inv(s)
    ensures Tick(s, poll, maxWaitSeconds).Continue? ==> Inv(Tick(s, poll, maxWaitSeconds).next)
  {
  }

  /** A failed fetch changes nothing but the clock, which moves 30 seconds. */
  lemma FailedFetchRetries(s: MonitorState, maxWaitSeconds: int)
    requires s.clock <= maxWaitSeconds
    ensures Tick(s, None, maxWaitSeconds) == Continue(s.(clock := s.clock + 30), None, 30)
  {
  }

  /** Waiting for the build to start, the loop polls every 30 seconds. */
  lemma WaitingSleepsFast(s: MonitorState, poll: Poll, maxWaitSeconds: int)
    requires !s.buildIsRunning && Tick(s, poll, maxWaitSeconds).Continue?
    ensures Tick(s, poll, maxWaitSeconds).sleep == 30
  {
  }

  /**
   * While the build runs and the iteration completes, the sleep is 600 seconds for the first
   * 30 minutes after the build was seen running and 120 seconds afterwards.
   */
  lemma RunningSleeps(s: MonitorState, b: BuildStatus, maxWaitSeconds: int)
    requires Inv(s) && s.buildIsRunning && s.clock <= maxWaitSeconds
    requires !SucceededBuild(b) && !FailedBuild(b) && b.status.Some?
    ensures var st := Tick(s, Some(b), maxWaitSeconds);
      && st.Continue?
      && (s.clock - s.phase2StartTime.value < 1800 ==> st.sleep == 600)
      && (s.clock - s.phase2StartTime.value >= 1800 ==> st.sleep == 120)
  {
  }

  /**
   * The triggered notice is sent exactly when the build has not been seen running and the
   * status is `inProgress`; the state then records it and the sleep is 30 seconds.
   */
  lemma TriggerRule(s: MonitorState, b: BuildStatus, maxWaitSeconds: int)
    requires Inv(s) && s.clock <= maxWaitSeconds && !SucceededBuild(b) && !FailedBuild(b)
    ensures var st := Tick(s, Some(b), maxWaitSeconds);
      && st.Continue?
      && (st.notice.Some? && st.notice.value.kind == Teams.Triggered <==>
            !s.buildIsRunning && b.status == Some("inProgress"))
      && (!s.buildIsRunning && b.status == Some("inProgress") ==>
            st.next == MonitorState(Some("inProgress"), true, true, Some(s.clock), s.clock + 30))
  {
  }

  /** Once the build is seen running it stays so, and the phase start does not move. */
  lemma RunningIsSticky(s: MonitorState, poll: Poll, maxWaitSeconds: int)
    requires Inv(s) && s.buildIsRunning && Tick(s, poll, maxWaitSeconds).Continue?
    ensures var next := Tick(s, poll, maxWaitSeconds).next;
      next.triggeredSent && next.buildIsRunning && next.phase2StartTime == s.phase2StartTime
  {
  }

  /**
   * While running, an in-progress notice goes out exactly when the status differs from the
   * last one, is not `inProgress`, and is present; the last status then becomes it.
   */
  lemma InProgressRule(s: MonitorState, b: BuildStatus, maxWaitSeconds: int)
    requires Inv(s) && s.buildIsRunning && s.clock <= maxWaitSeconds && !SucceededBuild(b) && !FailedBuild(b)
    ensures var st := Tick(s, Some(b), maxWaitSeconds);
      && st.Continue?
      && (st.notice.Some? <==> s.lastStatus != b.status && b.status != Some("inProgress") && b.status.Some?)
      && (st.notice.Some? ==> st.notice.value.kind == Teams.InProgress && st.next.lastStatus == b.status)
  {
  }

  /** Polling the same status again while running sends nothing and changes only the clock. */
  lemma SteadyStatusIsQuiet(s: MonitorState, b: BuildStatus, maxWaitSeconds: int)
    requires Inv(s) && s.buildIsRunning && s.clock <= maxWaitSeconds && !SucceededBuild(b) && !FailedBuild(b)
    requires b.status == s.lastStatus
    ensures var st := Tick(s, Some(b), maxWaitSeconds);
      st.Continue? && st.notice.None? && st.next == s.(clock := st.next.clock)
  {
  }

  // ---------------------------------------------------------------- whole sessions

  /** The notices, the outcome, and the number of polls of a session. */
  datatype Trace = Trace(outcome: Outcome, notices: seq<Notice>, polls: nat)

  function NoticeSeq(n: Option<Notice>): seq<Notice>
  {
    if n.Some? then [n.value] else []
  }

  /** The time the loop has left before the timeout check ends it. */
  function Remaining(s: MonitorState, maxWaitSeconds: int): nat
  {
    if s.clock <= maxWaitSeconds then maxWaitSeconds + 1 - s.clock else 0
  }

  /** The session from state `s` when poll number `k` onwards return `pollAt(k)`, `pollAt(k + 1)`, .... */
  function Session(s: MonitorState, pollAt: nat -> Poll, k: nat, maxWaitSeconds: int): Trace
    decreases Remaining(s, maxWaitSeconds)
  {
    match Tick(s, pollAt(k), maxWaitSeconds)
    case Stop(o, n) => Trace(o, NoticeSeq(n), if o.TimedOut? then 0 else 1)
    case Continue(next, n, _) =>
      var rest := Session(next, pollAt, k + 1, maxWaitSeconds);
      Trace(rest.outcome, NoticeSeq(n) + rest.notices, rest.polls + 1)
  }

  predicate IsFinalNotice(n: Notice)
  {
    n.kind == Teams.Succeeded || n.kind == Teams.Failed
  }

  /**
   * Every session ends in one outcome. A timeout sends no final notice; an approval or a
   * rejection sends exactly one, last, of the matching kind and for the build it returns.
   */
  lemma {:induction false} SessionEndsOnce(s: MonitorState, pollAt: nat -> Poll, k: nat, maxWaitSeconds: int)
    ensures var t := Session(s, pollAt, k, maxWaitSeconds);
      && (t.outcome.TimedOut? ==> forall i :: 0 <= i < |t.notices| ==> !IsFinalNotice(t.notices[i]))
      && (!t.outcome.TimedOut? ==>
            && |t.notices| > 0
            && t.notices[|t.notices| - 1] ==
                 Notice(if t.outcome.Approved? then Teams.Succeeded else Teams.Failed, t.outcome.build)
            && forall i :: 0 <= i < |t.notices| - 1 ==> !IsFinalNotice(t.notices[i]))
    decreases Remaining(s, maxWaitSeconds)
  {
    match Tick(s, pollAt(k), maxWaitSeconds)
    case Stop(o, n) =>
    case Continue(next, n, _) =>
      SessionEndsOnce(next, pollAt, k + 1, maxWaitSeconds);
      var rest := Session(next, pollAt, k + 1, maxWaitSeconds);
      var ns := NoticeSeq(n) + rest.notices;
      assert forall i :: 0 <= i < |NoticeSeq(n)| ==> !IsFinalNotice(ns[i]);
      assert forall i :: |NoticeSeq(n)| <= i < |ns| ==> ns[i] == rest.notices[i - |NoticeSeq(n)|];
  }

  function CountKind(ns: seq<Notice>, kind: Teams.StatusType): nat
  {
    if ns == [] then 0 else (if ns[0].kind == kind then 1 else 0) + CountKind(ns[1..], kind)
  }

  lemma {:induction false} CountKindAppend(a: seq<Notice>, b: seq<Notice>, kind: Teams.StatusType)
    ensures CountKind(a + b, kind) == CountKind(a, kind) + CountKind(b, kind)
  {
    if a == [] {
      assert a + b == b;
    } else {
      assert (a + b)[0] == a[0];
      assert (a + b)[1..] == a[1..] + b;
      CountKindAppend(a[1..], b, kind);
    }
  }

  /** Sessions that start running send no triggered notice. */
  lemma {:induction false} RunningSessionNoTrigger(s: MonitorState, pollAt: nat -> Poll, k: nat, maxWaitSeconds: int)
    requires Inv(s) && s.buildIsRunning
    ensures CountKind(Session(s, pollAt, k, maxWaitSeconds).notices, Teams.Triggered) == 0
    decreases Remaining(s, maxWaitSeconds)
  {
    match Tick(s, pollAt(k), maxWaitSeconds)
    case Stop(o, n) =>
    case Continue(next, n, _) =>
      TickKeepsInv(s, pollAt(k), maxWaitSeconds);
      RunningIsSticky(s, pollAt(k), maxWaitSeconds);
      RunningSessionNoTrigger(next, pollAt, k + 1, maxWaitSeconds);
      CountKindAppend(NoticeSeq(n), Session(next, pollAt, k + 1, maxWaitSeconds).notices, Teams.Triggered);
  }

  /** The triggered notice goes out at most once per session, and not at all once it has been sent. */
  lemma {:induction false} TriggeredAtMostOnce(s: MonitorState, pollAt: nat -> Poll, k: nat, maxWaitSeconds: int)
    requires Inv(s)
    ensures CountKind(Session(s, pollAt, k, maxWaitSeconds).notices, Teams.Triggered) <= (if s.triggeredSent then 0 else 1)
    decreases Remaining(s, maxWaitSeconds)
  {
    if s.buildIsRunning {
      RunningSessionNoTrigger(s, pollAt, k, maxWaitSeconds);
    } else {
      match Tick(s, pollAt(k), maxWaitSeconds)
      case Stop(o, n) =>
      case Continue(next, n, _) =>
        TickKeepsInv(s, pollAt(k), maxWaitSeconds);
        var rest := Session(next, pollAt, k + 1, maxWaitSeconds);
        CountKindAppend(NoticeSeq(n), rest.notices, Teams.Triggered);
        if next.buildIsRunning {
          RunningSessionNoTrigger(next, pollAt, k + 1, maxWaitSeconds);
        } else {
          TriggeredAtMostOnce(next, pollAt, k + 1, maxWaitSeconds);
        }
  }
  }

  /** A session polls at most once per 30 seconds of the time it has left, plus one. */
  lemma {:induction false} SessionPollBound(s: MonitorState, pollAt: nat -> Poll, k: nat, maxWaitSeconds: int)
    ensures var t := Session(s, pollAt, k, maxWaitSeconds);
      t.polls <= if s.clock > maxWaitSeconds then 0 else (maxWaitSeconds - s.clock) / 30 + 1
    decreases Remaining(s, maxWaitSeconds)
  {
    match Tick(s, pollAt(k), maxWaitSeconds)
    case Stop(o, n) =>
    case Continue(next, n, _) =>
      SessionPollBound(next, pollAt, k + 1, maxWaitSeconds);
  }

  /** The `(approved, build_status)` pair the function returns for an outcome. */
  function Returned(o: Outcome): (r: (Option<bool>, Option<BuildStatus>))
    ensures r.0 == Some(true) <==> o.Approved?
    ensures r.0 == Some(false) <==> o.Rejected?
    ensures r.0.None? <==> r.1.None?
    ensures r.1.Some? ==> !o.TimedOut? && r.1.value == o.build
  {
    match o
    case Approved(b) => (Some(true), Some(b))
    case Rejected(b) => (Some(false), Some(b))
    case TimedOut => (None, None)
  }

  // ---------------------------------------------------------------- the loop with its variables

  /** The monitor's variables, updated as the Python loop updates its locals. */
  class Monitor {
    const maxWaitSeconds: int
    var lastStatus: Option<string>
    var triggeredSent: bool
    var buildIsRunning: bool
    var phase2StartTime: Option<int>
    /** The sleep that ended the last iteration. */
    var checkInterval: nat
    var elapsed: int
    /** How many polls have been made, which picks the next poll result. */
    var polls: nat
    /** Set when the loop returns. */
    var outcome: Option<Outcome>
    /** Every notification sent so far. */
    ghost var notices: seq<Notice>

    function State(): MonitorState
      reads this
    {
      MonitorState(lastStatus, triggeredSent, buildIsRunning, phase2StartTime, elapsed)
    }

    predicate Valid()
      reads this
    {
      Inv(State())
    }

    constructor(maxWaitMinutes: int)
      ensures Valid() && State() == Init()
      ensures maxWaitSeconds == maxWaitMinutes * 60
      ensures polls == 0 && outcome.None? && notices == []
    {
      maxWaitSeconds := maxWaitMinutes * 60;
      lastStatus := None;
      triggeredSent := false;
      buildIsRunning := false;
      phase2StartTime := None;
      checkInterval := 30;
      elapsed := 0;
      polls := 0;
      outcome := None;
      notices := [];
    }

    /** Sends a notification (its delivery result is only logged). */
    method Send(kind: Teams.StatusType, b: BuildStatus)
      modifies this
      ensures notices == old(notices) + [Notice(kind, b)]
      ensures State() == old(State()) && polls == old(polls) && outcome == old(outcome)
      ensures checkInterval == old(checkInterval)
    {
      notices := notices + [Notice(kind, b)];
    }

    /**
     * One iteration of the loop with `poll` as the poll result it would fetch: the timeout
     * check, the classification, at most one notification, and the sleep.
     */
    method Step(poll: Poll)
      requires Valid() && outcome.None?
      modifies this
      ensures Valid()
      ensures match Tick(old(State()), poll, maxWaitSeconds)
        case Continue(next, n, sleep) =>
          && State() == next && notices == old(notices) + NoticeSeq(n) && outcome.None?
          && checkInterval == sleep && polls == old(polls) + 1
        case Stop(o, n) =>
          && State() == old(State()) && notices == old(notices) + NoticeSeq(n) && outcome == Some(o)
          && polls == old(polls) + (if o.TimedOut? then 0 else 1)
    {
      ghost var st := Tick(State(), poll, maxWaitSeconds);
      if elapsed > maxWaitSeconds {
        assert st == Stop(TimedOut, None);
        outcome := Some(TimedOut);
        return;
      }
      polls := polls + 1;
      var check := CheckBuildApprovalStatus(poll);
      if check.build.None? {
        assert st == Continue(State().(clock := elapsed + FastInterval), None, FastInterval);
        checkInterval := FastInterval;
        elapsed := elapsed + checkInterval;
        return;
      }
      var buildStatus := check.build.value;
      if check.approved == Some(true) {
        assert st == Stop(Approved(buildStatus), Some(Notice(Teams.Succeeded, buildStatus)));
        Send(Teams.Succeeded, buildStatus);
        outcome := Some(Approved(buildStatus));
        return;
      } else if check.approved == Some(false) {
        assert st == Stop(Rejected(buildStatus), Some(Notice(Teams.Failed, buildStatus)));
        Send(Teams.Failed, buildStatus);
        outcome := Some(Rejected(buildStatus));
        return;
      }
      assert st == if buildIsRunning then RunningTick(State(), buildStatus) else WaitingTick(State(), buildStatus);
      Advance(buildStatus);
    }

    /**
     * The rest of an iteration that neither timed out nor ended the session: the build is
     * waited for while it has not been seen running, and watched once it has.
     */
    method Advance(buildStatus: BuildStatus)
      requires Valid()
      modifies this
      ensures var t := if old(buildIsRunning) then RunningTick(old(State()), buildStatus)
                       else WaitingTick(old(State()), buildStatus);
        && State() == t.next && notices == old(notices) + NoticeSeq(t.notice)
        && checkInterval == t.sleep && polls == old(polls) && outcome == old(outcome)
    {
      var currentStatus := buildStatus.status;
      if !buildIsRunning {
        if !triggeredSent && currentStatus == Some("inProgress") {
          Send(Teams.Triggered, buildStatus);
          triggeredSent := true;
          buildIsRunning := true;
          phase2StartTime := Some(elapsed);
          lastStatus := currentStatus;
        } else {
          lastStatus := currentStatus;
        }
        checkInterval := FastInterval;
      } else {
        if elapsed - phase2StartTime.value >= 30 * 60 {
          checkInterval := SlowIntervalAfter30Min;
        } else {
          checkInterval := SlowInterval;
        }
        if lastStatus != currentStatus && currentStatus != Some("inProgress") {
          if currentStatus.None? {
            // formatting the message raises; the loop's handler sleeps 30 seconds
            checkInterval := FastInterval;
            elapsed := elapsed + checkInterval;
            return;
          }
          Send(Teams.InProgress, buildStatus);
          lastStatus := currentStatus;
        } else {
          lastStatus := currentStatus;
        }
      }
      elapsed := elapsed + checkInterval;
    }
  }

  /**
   * `monitor_deployment_progress` with `pollAt(i)` as the result of the `i`-th status fetch:
   * it returns what the session from the initial state returns and sends that session's notices.
   */
  method MonitorDeploymentProgress(pollAt: nat -> Poll, maxWaitMinutes: int)
    returns (approved: Option<bool>, finalStatus: Option<BuildStatus>, ghost sent: seq<Notice>)
    ensures (approved, finalStatus) == Returned(Session(Init(), pollAt, 0, maxWaitMinutes * 60).outcome)
    ensures sent == Session(Init(), pollAt, 0, maxWaitMinutes * 60).notices
  {
    var m := new Monitor(maxWaitMinutes);
    ghost var whole := Session(Init(), pollAt, 0, m.maxWaitSeconds);
    while m.outcome.None?
      invariant m.Valid()
      invariant m.outcome.None? ==> whole == Then(m.notices, m.polls, Session(m.State(), pollAt, m.polls, m.maxWaitSeconds))
      invariant m.outcome.Some? ==> whole == Trace(m.outcome.value, m.notices, m.polls)
      decreases Remaining(m.State(), m.maxWaitSeconds), m.outcome.None?
    {
      ghost var before := m.State();
      ghost var k := m.polls;
      ghost var ns := m.notices;
      m.Step(pollAt(m.polls));
      StepFollowsSession(whole, ns, k, before, pollAt, m.maxWaitSeconds, m.notices, m.polls, m.State(), m.outcome);
    }
    approved, finalStatus := Returned(m.outcome.value).0, Returned(m.outcome.value).1;
    sent := m.notices;
  }

  /**
   * After one `Step` from a state on the way through `whole`, the rest of `whole` is the session
   * from the new state, or `whole` is complete when the step stopped; either way the clock has
   * left less time, or the loop has stopped.
   */
  lemma StepFollowsSession(whole: Trace, ns: seq<Notice>, k: nat, s: MonitorState, pollAt: nat -> Poll, maxWaitSeconds: int,
                           ns': seq<Notice>, k': nat, s': MonitorState, outcome: Option<Outcome>)
    requires whole == Then(ns, k, Session(s, pollAt, k, maxWaitSeconds))
    requires match Tick(s, pollAt(k), maxWaitSeconds)
      case Continue(next, n, _) => s' == next && ns' == ns + NoticeSeq(n) && outcome.None? && k' == k + 1
      case Stop(o, n) => ns' == ns + NoticeSeq(n) && outcome == Some(o) && k' == k + (if o.TimedOut? then 0 else 1)
    ensures outcome.None? ==> whole == Then(ns', k', Session(s', pollAt, k', maxWaitSeconds))
    ensures outcome.None? ==> Remaining(s', maxWaitSeconds) < Remaining(s, maxWaitSeconds)
    ensures outcome.Some? ==> whole == Trace(outcome.value, ns', k')
  {
    var st := Tick(s, pollAt(k), maxWaitSeconds);
    SessionUnfold(s, pollAt, k, maxWaitSeconds);
    if st.Continue? {
      ThenThen(ns, k, st.notice, Session(st.next, pollAt, k + 1, maxWaitSeconds));
    }
  }

  /** A trace preceded by notices already sent and polls already made. */
  function Then(ns: seq<Notice>, polls: nat, t: Trace): Trace
  {
    Trace(t.outcome, ns + t.notices, polls + t.polls)
  }

  lemma ThenThen(ns: seq<Notice>, polls: nat, n: Option<Notice>, t: Trace)
    ensures Then(ns, polls, Then(NoticeSeq(n), 1, t)) == Then(ns + NoticeSeq(n), polls + 1, t)
  {
    assert ns + (NoticeSeq(n) + t.notices) == (ns + NoticeSeq(n)) + t.notices;
  }

  /** A session is its first iteration followed by the session from the state it leaves. */
  lemma SessionUnfold(s: MonitorState, pollAt: nat -> Poll, k: nat, maxWaitSeconds: int)
    ensures var st := Tick(s, pollAt(k), maxWaitSeconds);
      && (st.Stop? ==>
            Session(s, pollAt, k, maxWaitSeconds) == Trace(st.outcome, NoticeSeq(st.notice), if st.outcome.TimedOut? then 0 else 1))
      && (st.Continue? ==>
            Session(s, pollAt, k, maxWaitSeconds) == Then(NoticeSeq(st.notice), 1, Session(st.next, pollAt, k + 1, maxWaitSeconds)))
  {
  }

  // ---------------------------------------------------------------- sample sessions

  function BuildIn(status: string, result: Option<string>): Poll
  {
    Some(BuildStatus(Some(status), result, Some("20250101.1")))
  }

  /** A build that never leaves the queue within one minute: three polls, no notice, then the timeout. */
  lemma QueuedOneMinute()
    ensures Session(Init(), _ => BuildIn("notStarted", None), 0, 60) == Trace(TimedOut, [], 3)
  {
    var pollAt: nat -> Poll := _ => BuildIn("notStarted", None);
    var s1 := Init().(lastStatus := Some("notStarted"), clock := 30);
    var s2 := s1.(clock := 60);
    var s3 := s1.(clock := 90);
    assert Tick(Init(), pollAt(0), 60) == Continue(s1, None, 30);
    assert Tick(s1, pollAt(1), 60) == Continue(s2, None, 30);
    assert Tick(s2, pollAt(2), 60) == Continue(s3, None, 30);
    assert Session(s3, pollAt, 3, 60) == Trace(TimedOut, [], 0);
  }

  /** Poll results of a build that is queued, then running, then succeeded. */
  function QueuedRunningSucceededPolls(i: nat): Poll
  {
    if i == 0 then BuildIn("notStarted", None)
    else if i == 1 then BuildIn("inProgress", None)
    else BuildIn("completed", Some("succeeded"))
  }

  /** Queued, then running, then succeeded: one triggered and one succeeded notice. */
  lemma QueuedRunningSucceeded()
    ensures var t := Session(Init(), QueuedRunningSucceededPolls, 0, 7200);
      && t.outcome == Approved(BuildIn("completed", Some("succeeded")).value)
      && t.notices == [Notice(Teams.Triggered, BuildIn("inProgress", None).value),
                       Notice(Teams.Succeeded, BuildIn("completed", Some("succeeded")).value)]
      && t.polls == 3
  {
    var pollAt := QueuedRunningSucceededPolls;
    var s1 := Init().(lastStatus := Some("notStarted"), clock := 30);
    var s2 := MonitorState(Some("inProgress"), true, true, Some(30), 60);
    assert pollAt(0) == BuildIn("notStarted", None);
    assert pollAt(1) == BuildIn("inProgress", None);
    assert pollAt(2) == BuildIn("completed", Some("succeeded"));
    assert Tick(Init(), pollAt(0), 7200) == Continue(s1, None, 30);
    assert Tick(s1, pollAt(1), 7200) == Continue(s2, Some(Notice(Teams.Triggered, BuildIn("inProgress", None).value)), 30);
    assert Session(s2, pollAt, 2, 7200) ==
      Trace(Approved(BuildIn("completed", Some("succeeded")).value),
            [Notice(Teams.Succeeded, BuildIn("completed", Some("succeeded")).value)], 1);
  }

  /** Two failed fetches and then a failed build: the session is rejected after one failed notice. */
  lemma FetchFailuresThenFailed()
    ensures var pollAt: nat -> Poll := i => if i < 2 then None else BuildIn("completed", Some("failed"));
      var t := Session(Init(), pollAt, 0, 7200);
      && t.outcome == Rejected(BuildIn("completed", Some("failed")).value)
      && t.notices == [Notice(Teams.Failed, BuildIn("completed", Some("failed")).value)]
      && t.polls == 3
  {
    var pollAt: nat -> Poll := i => if i < 2 then None else BuildIn("completed", Some("failed"));
    var s1 := Init().(clock := 30);
    var s2 := Init().(clock := 60);
    assert Tick(Init(), pollAt(0), 7200) == Continue(s1, None, 30);
    assert Tick(s1, pollAt(1), 7200) == Continue(s2, None, 30);
    assert Session(s2, pollAt, 2, 7200) ==
      Trace(Rejected(BuildIn("completed", Some("failed")).value),
            [Notice(Teams.Failed, BuildIn("completed", Some("failed")).value)], 1);
  }
}
