/** What a whole run of the spending gate says about time, settings and approved requests. */
module SpendHistory {
  import opened Wrappers
  import opened SpendGate

  // ---------------------------------------------------------------- the settings in force

  /** The limit per transaction that was set last. */
  function LastPerTx(es: seq<Event>, first: Limit): Limit {
    if |es| == 0 then first
    else match es[|es| - 1]
      case DoConfigure(PerTx(x)) => x
      case _ => LastPerTx(es[..|es| - 1], first)
  }

  /** The limit per period that was set last. */
  function LastPerPeriod(es: seq<Event>, first: Limit): Limit {
    if |es| == 0 then first
    else match es[|es| - 1]
      case DoConfigure(PerPeriod(x)) => x
      case _ => LastPerPeriod(es[..|es| - 1], first)
  }

  /** The length of a period that was set last. */
  function LastSeconds(es: seq<Event>, first: int): int {
    if |es| == 0 then first
    else match es[|es| - 1]
      case DoConfigure(PeriodSeconds(n)) => n
      case _ => LastSeconds(es[..|es| - 1], first)
  }

  lemma StepSettings(s: Agent, e: Event)
    requires Safe(s) && Synced(s) && Fresh(s, e)
    ensures Step(s, e).limits == Limits(LastPerTx([e], s.limits.perTx), LastPerPeriod([e], s.limits.perPeriod))
    ensures Step(s, e).periodSeconds == LastSeconds([e], s.periodSeconds)
  {
    assert [e][..0] == [];
    match e
    case DoAsk(rq, w) => AskFrame(s, rq, None, w);
    case CrashAsk(rq, w) => AskFrame(s, rq, None, w);
    case DoApprove(id, w) => ApproveSettings(s, id, w, STAGES);
    case CrashApprove(id, w, k) => ApproveSettings(s, id, w, k);
    case _ =>
  }

  lemma ApproveSettings(s: Agent, id: Id, w: World, k: nat)
    requires Safe(s) && Synced(s) && w.id !in s.book.ids
    ensures Approvable(s, id) ==> ApproveTo(s, id, w, k).disk.config == s.config
    ensures Approve(s, id, w).limits == s.limits && Approve(s, id, w).periodSeconds == s.periodSeconds
  {
    if Approvable(s, id) {
      ApproveKeeps(s, id, w, k);
      ApproveKeeps(s, id, w, STAGES);
      ApproveSynced(s, id, w);
    }
  }

  /** Whatever happens, crashes in the middle of an approval included: the limits and the period in force are the ones
      that were set last. */
  lemma {:induction false} SettingsAreLast(s: Agent, es: seq<Event>)
    requires Safe(s) && Synced(s) && FreshRun(s, es)
    ensures Run(s, es).limits == Limits(LastPerTx(es, s.limits.perTx), LastPerPeriod(es, s.limits.perPeriod))
    ensures Run(s, es).periodSeconds == LastSeconds(es, s.periodSeconds)
  {
    if |es| > 0 {
      var n := |es| - 1;
      FreshPrefix(s, es, n);
      SettingsAreLast(s, es[..n]);
      RunKeeps(s, es[..n]);
      StepSettings(Run(s, es[..n]), es[n]);
      assert [es[n]][..0] == [];
    }
  }

  // ---------------------------------------------------------------- when the counter is reset

  /** What a request adds to the amounts recorded without approval. */
  function Added(s: Agent, rq: Request, w: World): seq<real> {
    if !Held(Gate(s, rq, w.now), rq) && w.reply.Accepted? && Spends(rq) then [rq.amount] else []
  }

  /** A request starts a new window exactly when it is well-formed and gated, periods are on, and the counter was never
      started or is at least a period past. */
  lemma ResetExactly(s: Agent, rq: Request, w: World)
    ensures var t := Ask(s, rq, None, w);
      if rq.action != ProgramDeploy && rq.amount >= 0.0 && (s.limits.perTx.Text? || s.limits.perPeriod.Text?)
        && s.periodSeconds > 0 && (s.start == 0 || w.now - s.start >= s.periodSeconds)
      then t.start == w.now && t.book.window == Added(s, rq, w)
      else t.start == s.start && t.book.window == s.book.window + Added(s, rq, w)
  {
  }

  /** The same when the request ends in a crash; then nothing is added. */
  lemma CrashResetExactly(s: Agent, rq: Request, w: World)
    requires Safe(s)
    ensures var t := Restart(Asked(s, rq, None, w));
      if rq.action != ProgramDeploy && rq.amount >= 0.0 && (s.limits.perTx.Text? || s.limits.perPeriod.Text?)
        && s.periodSeconds > 0 && (s.start == 0 || w.now - s.start >= s.periodSeconds)
      then t.start == w.now && t.book.window == []
      else t.start == s.start && t.book.window == s.book.window
  {
  }

  lemma ExecuteStart(s: Agent, id: Id, p: Proposal, w: World, k: nat)
    requires id in s.proposals
    ensures Execute(s, id, p, w, k).start == s.start
  {
  }

  /** An approval starts no window. */
  lemma ApproveStart(s: Agent, id: Id, w: World, k: nat)
    requires Safe(s) && Approvable(s, id) && w.id !in s.book.ids
    ensures var t := ApproveTo(s, id, w, k); t.start == t.disk.start == s.start && t.book.window == s.book.window
  {
    ExecuteStart(PendingSaved(Mark(s, id, Approved)), id, s.proposals[id], w, if k <= 6 then k else 6);
    ApproveWindow(s, id, w, k);
    ApproveKeeps(s, id, w, k);
  }

  /** An event that leaves the limits and the length of the period alone. */
  predicate SameSettings(e: Event, s: Agent) {
    e.DoConfigure? ==> Updated(s.limits, e.setting) == s.limits && (e.setting.PeriodSeconds? ==> e.setting.seconds == s.periodSeconds)
  }

  /** Requests less than `seconds` after `start`. */
  predicate Within(e: Event, start: int, seconds: int) {
    e.DoAsk? || e.CrashAsk? ==> e.w.now - start < seconds
  }

  lemma StepInPeriod(s: Agent, e: Event)
    requires Safe(s) && Synced(s) && Fresh(s, e) && s.start != 0 && SameSettings(e, s) && Within(e, s.start, s.periodSeconds)
    ensures var t := Step(s, e);
      t.start == s.start && t.limits == s.limits && t.periodSeconds == s.periodSeconds && s.book.window <= t.book.window
  {
    StepSettings(s, e);
    match e
    case DoAsk(rq, w) => ResetExactly(s, rq, w);
    case CrashAsk(rq, w) => CrashResetExactly(s, rq, w);
    case DoApprove(id, w) =>
      if Approvable(s, id) {
        ApproveStart(s, id, w, STAGES);
      }
    case CrashApprove(id, w, k) =>
      if Approvable(s, id) {
        ApproveStart(s, id, w, k);
      }
    case _ =>
  }

  /** During one period the counter is not reset: what was recorded in it stays counted. */
  lemma {:induction false} PeriodKept(s: Agent, es: seq<Event>)
    requires Safe(s) && Synced(s) && FreshRun(s, es) && s.start != 0
    requires forall i :: 0 <= i < |es| ==> SameSettings(es[i], s) && Within(es[i], s.start, s.periodSeconds)
    ensures var t := Run(s, es);
      t.start == s.start && t.limits == s.limits && t.periodSeconds == s.periodSeconds && s.book.window <= t.book.window
  {
    if |es| > 0 {
      var n := |es| - 1;
      FreshPrefix(s, es, n);
      PeriodKept(s, es[..n]);
      RunKeeps(s, es[..n]);
      StepInPeriod(Run(s, es[..n]), es[n]);
    }
  }

  /** So all that is recorded without approval in one period is within the limit for a period. */
  lemma OnePeriodBounded(s: Agent, es: seq<Event>)
    requires Safe(s) && Synced(s) && Bounded(s.limits, s.book.window) && FreshRun(s, es) && s.start != 0
    requires forall i :: 0 <= i < |es| ==> SameSettings(es[i], s) && Within(es[i], s.start, s.periodSeconds)
    ensures s.book.window <= Run(s, es).book.window && Bounded(s.limits, Run(s, es).book.window)
  {
    PeriodKept(s, es);
    RunBounded(s, es);
  }

  /** The counter a request is compared with: zero in a new period. */
  function SpentThen(s: Agent, now: int): real {
    if (s.limits.perTx.Text? || s.limits.perPeriod.Text?) && s.periodSeconds > 0 && (s.start == 0 || now - s.start >= s.periodSeconds)
    then 0.0 else s.spent
  }

  /** Whether a request may be made without approval. */
  predicate Allowed(s: Agent, rq: Request, now: int) {
    if rq.action == ProgramDeploy then !s.limits.perTx.Text?
    else
      && rq.amount >= 0.0
      && (s.limits.perTx.Text? ==> rq.amount <= s.limits.perTx.bound)
      && (s.limits.perPeriod.Text? ==> SpentThen(s, now) + rq.amount <= s.limits.perPeriod.bound)
  }

  /** A request reaches the wallet if and only if it is allowed; otherwise a proposal waits and no call is made. */
  lemma RequestExactly(s: Agent, rq: Request, w: World)
    ensures var t := Ask(s, rq, None, w);
      if Allowed(s, rq, w.now) then t.log == s.log + [Call(rq, None)] && t.proposals == s.proposals
      else t.log == s.log && Approvable(t, w.id) && t.proposals[w.id].action == rq.action && t.proposals[w.id].recipient == rq.recipient
  {
  }

  /** An allowed transfer that succeeds is added to the counter, a program call when it has an amount; nothing else is. */
  lemma CountedExactly(s: Agent, rq: Request, w: World)
    requires rq.action != ProgramDeploy && rq.action != OtherAction && rq.amount >= 0.0
    ensures Ask(s, rq, None, w).spent
      == SpentThen(s, w.now) + if Allowed(s, rq, w.now) && w.reply.Accepted? then rq.amount else 0.0
  {
  }

  // ---------------------------------------------------------------- any stretch of time

  /** What an event adds to the amounts recorded without approval. */
  function AddedBy(s: Agent, e: Event): seq<real> {
    if e.DoAsk? then Added(s, e.rq, e.w) else []
  }

  /** All amounts recorded without approval in a run, resets or not. */
  function Recorded(s: Agent, es: seq<Event>): seq<real> {
    if |es| == 0 then [] else Recorded(s, es[..|es| - 1]) + AddedBy(Run(s, es[..|es| - 1]), es[|es| - 1])
  }

  lemma {:induction false} SumAppend(v: seq<real>, w: seq<real>)
    ensures Sum(v + w) == Sum(v) + Sum(w)
  {
    if |w| == 0 {
      assert v + w == v;
    } else {
      var u := w[..|w| - 1];
      assert (v + w)[..|v + w| - 1] == v + u;
      SumAppend(v, u);
    }
  }

  /** Requests made from time `from` on, for less than a period. */
  predicate During(e: Event, from: int, seconds: int) {
    e.DoAsk? || e.CrashAsk? ==> from <= e.w.now < from + seconds
  }

  /** An event either keeps the window and extends it, or starts a new one at its own time. */
  lemma StepWindow(s: Agent, e: Event)
    requires Safe(s) && Synced(s) && Fresh(s, e) && SameSettings(e, s)
    ensures var t := Step(s, e);
      || (t.start == s.start && t.book.window == s.book.window + AddedBy(s, e))
      || ((e.DoAsk? || e.CrashAsk?) && s.periodSeconds > 0 && (s.start == 0 || e.w.now - s.start >= s.periodSeconds)
        && t.start == e.w.now && t.book.window == AddedBy(s, e))
  {
    match e
    case DoAsk(rq, w) => ResetExactly(s, rq, w);
    case CrashAsk(rq, w) => CrashResetExactly(s, rq, w);
    case DoApprove(id, w) =>
      if Approvable(s, id) {
        ApproveStart(s, id, w, STAGES);
      }
    case CrashApprove(id, w, k) =>
      if Approvable(s, id) {
        ApproveStart(s, id, w, k);
      }
    case _ =>
  }

  /** From s to t, with the records rec, at most one window was started; the records before it belong to the first window,
      which is within the limit. */
  ghost predicate TwoWindows(s: Agent, t: Agent, rec: seq<real>, from: int, past: seq<real>) {
    || (t.start == s.start && t.book.window == s.book.window + rec)
    || (from <= t.start && rec == past + t.book.window && Bounded(s.limits, s.book.window + past))
  }

  /** Between s and t the settings stay, and what is recorded in the window is within the limits. */
  ghost predicate Steady(s: Agent, t: Agent) {
    Safe(t) && Synced(t) && t.limits == s.limits && t.periodSeconds == s.periodSeconds && Bounded(s.limits, t.book.window)
  }

  lemma WindowExtended(s: Agent, t: Agent, u: Agent, rec: seq<real>, added: seq<real>, from: int, past: seq<real>)
    requires TwoWindows(s, t, rec, from, past) && u.start == t.start && u.book.window == t.book.window + added
    ensures TwoWindows(s, u, rec + added, from, past)
  {
    assert s.book.window + (rec + added) == s.book.window + rec + added;
    assert past + (t.book.window + added) == past + t.book.window + added;
  }

  lemma NextWindow(s: Agent, t: Agent, e: Event, rec: seq<real>, from: int, past: seq<real>) returns (next: seq<real>)
    requires Steady(s, t) && Fresh(t, e) && SameSettings(e, t) && During(e, from, s.periodSeconds) && from > 0
    requires TwoWindows(s, t, rec, from, past)
    ensures TwoWindows(s, Step(t, e), rec + AddedBy(t, e), from, next)
  {
    var u, added := Step(t, e), AddedBy(t, e);
    StepWindow(t, e);
    if u.start == t.start && u.book.window == t.book.window + added {
      WindowExtended(s, t, u, rec, added, from, past);
      next := past;
    } else {
      assert from <= u.start && u.book.window == added;
      next := rec;
    }
  }

  lemma StaysSteady(s: Agent, t: Agent, e: Event)
    requires Steady(s, t) && Fresh(t, e) && SameSettings(e, t)
    ensures Steady(s, Step(t, e))
  {
    StepBounded(t, e);
    StepSettings(t, e);
    StepKeeps(t, e);
  }

  lemma {:induction false} AtMostTwoWindows(s: Agent, es: seq<Event>, from: int) returns (past: seq<real>)
    requires Steady(s, s) && FreshRun(s, es) && from > 0
    requires forall i :: 0 <= i < |es| ==> SameSettings(es[i], s) && During(es[i], from, s.periodSeconds)
    ensures Steady(s, Run(s, es)) && TwoWindows(s, Run(s, es), Recorded(s, es), from, past)
  {
    past := [];
    if |es| == 0 {
      assert s.book.window + [] == s.book.window;
    } else {
      var n := |es| - 1;
      FreshPrefix(s, es, n);
      past := AtMostTwoWindows(s, es[..n], from);
      past := NextWindow(s, Run(s, es[..n]), es[n], Recorded(s, es[..n]), from, past);
      StaysSteady(s, Run(s, es[..n]), es[n]);
    }
  }

  /** In any stretch of time that is not longer than a period, whenever it begins, at most twice the limit is recorded
      without approval. */
  lemma AnyPeriodBounded(s: Agent, es: seq<Event>, from: int)
    requires Safe(s) && Synced(s) && Bounded(s.limits, s.book.window) && FreshRun(s, es) && from > 0
    requires s.limits.perPeriod.Text? && s.limits.perPeriod.bound >= 0.0
    requires forall i :: 0 <= i < |es| ==> SameSettings(es[i], s) && During(es[i], from, s.periodSeconds)
    ensures Sum(Recorded(s, es)) <= 2.0 * s.limits.perPeriod.bound
  {
    var past := AtMostTwoWindows(s, es, from);
    var t := Run(s, es);
    SumAppend(s.book.window, Recorded(s, es));
    SumAppend(s.book.window, past);
    SumAppend(past, t.book.window);
    RunKeeps(s, es);
  }

  lemma TwoEvents(s: Agent, e: Event, f: Event)
    requires Fresh(s, e) && Fresh(Step(s, e), f)
    ensures FreshRun(s, [e, f]) && Recorded(s, [e, f]) == AddedBy(s, e) + AddedBy(Step(s, e), f)
  {
    var es := [e, f];
    assert es[..0] == [] && es[..1] == [e] && [e][..0] == [];
    assert Run(s, []) == s && Run(s, [e]) == Step(s, e);
    assert Recorded(s, []) == [] && Recorded(s, [e]) == [] + AddedBy(s, e);
    assert [] + AddedBy(s, e) == AddedBy(s, e);
  }

  /** Sending exactly what is left of the limit. */
  lemma FullSend(s: Agent, b: real, w: World)
    requires s.limits == Limits(ZeroText, Text(b)) && b > 0.0 && w.reply == Accepted && s.periodSeconds > 0
    requires s.spent == 0.0 || (s.start != 0 && w.now - s.start >= s.periodSeconds)
    ensures var t := Step(s, DoAsk(Request(WalletSend, "", "", "", b), w));
      && AddedBy(s, DoAsk(Request(WalletSend, "", "", "", b), w)) == [b]
      && t.limits == s.limits && t.periodSeconds == s.periodSeconds && t.book.ids == s.book.ids
      && (w.now - s.start < s.periodSeconds && s.start != 0 ==> t.start == s.start)
  {
  }

  lemma TwiceSum(b: real)
    ensures Sum([b] + [b]) == 2.0 * b
  {
    SumSnoc([], b);
    assert [] + [b] == [b];
    SumSnoc([b], b);
  }

  /** Twice the limit is reached: a full limit in the last second of a period and one in the first second of the next,
      for every limit and every length of a period. */
  lemma TwiceTheLimit(b: real, n: int) returns (s: Agent, es: seq<Event>)
    requires b > 0.0 && n > 1
    ensures Starts(s) && FreshRun(s, es) && s.limits == Limits(ZeroText, Text(b)) && s.periodSeconds == n
    ensures forall i :: 0 <= i < |es| ==> es[i].DoAsk? && During(es[i], n, 2)
    ensures Sum(Recorded(s, es)) == 2.0 * b
  {
    var c := Config(Limits(ZeroText, Text(b)), n, map[]);
    s := Agent(0.0, 1, c.limits, n, c, map[], Disk(0.0, 1, c, map[]), [], Book([], 0.0, 0.0, {}));
    var rq, v, w := Request(WalletSend, "", "", "", b), World(n, 1, 0, Accepted), World(n + 1, 2, 0, Accepted);
    FullSend(s, b, v);
    FullSend(Step(s, DoAsk(rq, v)), b, w);
    es := [DoAsk(rq, v), DoAsk(rq, w)];
    TwoEvents(s, es[0], es[1]);
    assert s.proposals.Keys == {};
    TwiceSum(b);
  }

  // ---------------------------------------------------------------- the request that is approved

  /** The call made for an approved proposal, field by field. */
  lemma ApprovedCall(s: Agent, id: Id, w: World)
    requires Synced(s) && Approvable(s, id) && s.proposals[id].action != OtherAction
    requires var p := s.proposals[id]; p.action == WalletSend || p.action == WalletSendTo ==> p.amount >= 0.0
    ensures var p, log := s.proposals[id], Approve(s, id, w).log;
      && |log| == |s.log| + 1 && log[..|s.log|] == s.log
      && var c := log[|s.log|];
      c.cause == Some(id) && c.request.action == p.action && c.request.recipient == p.recipient
      && match p.action
        case WalletSend => c.request.details == "" && c.request.params == "" && c.request.amount == p.amount
        case WalletSendTo => c.request.details == p.vpk && c.request.params == "" && c.request.amount == p.amount
        case ProgramCall => c.request.details == "" && c.request.params == "{}" && c.request.amount == 0.0
        case _ => c.request.details == "" && c.request.params == "" && c.request.amount == 0.0
  {
    ApprovalCounts(s, id, w);
  }

  /** A held request leaves its data in the proposal. */
  lemma HeldProposal(s: Agent, rq: Request, w: World)
    requires Held(Gate(s, rq, w.now), rq)
    ensures var t := Ask(s, rq, None, w);
      && t.log == s.log && Approvable(t, w.id)
      && var p := t.proposals[w.id];
      p.action == rq.action && p.recipient == rq.recipient
      && (rq.action == WalletSendTo ==> p.vpk == rq.details)
      && (rq.action != ProgramDeploy ==> p.amount == rq.amount)
  {
  }

  /** Proposals with the same data, whatever their status. */
  predicate SameData(p: Proposal, q: Proposal) {
    p.action == q.action && p.recipient == q.recipient && p.vpk == q.vpk && p.amount == q.amount
  }

  predicate KeepsData(s: Agent, t: Agent, id: Id)
    requires id in s.proposals
  {
    id in t.proposals && SameData(t.proposals[id], s.proposals[id])
    && id in t.disk.proposals && SameData(t.disk.proposals[id], s.proposals[id])
  }

  lemma AskKeepsData(s: Agent, rq: Request, cause: Option<Id>, w: World, id: Id)
    requires id in s.proposals && KeepsData(s, s, id) && w.id != id
    ensures KeepsData(s, Asked(s, rq, cause, w), id) && KeepsData(s, Ask(s, rq, cause, w), id)
  {
    var g := Gate(s, rq, w.now);
    assert g.proposals == s.proposals && g.disk.proposals == s.disk.proposals;
  }

  lemma ExecuteKeepsData(s: Agent, pid: Id, p: Proposal, w: World, k: nat, id: Id)
    requires pid in s.proposals && id in s.proposals && KeepsData(s, s, id) && w.id != id
    ensures KeepsData(s, Execute(s, pid, p, w, k), id)
  {
    AskKeepsData(s.(limits := Limits(ZeroText, ZeroText)), Deferred(p), Some(pid), w, id);
  }

  lemma ApproveKeepsData(s: Agent, pid: Id, w: World, k: nat, id: Id)
    requires Approvable(s, pid) && id in s.proposals && KeepsData(s, s, id) && w.id != id
    ensures KeepsData(s, ApproveTo(s, pid, w, k), id)
  {
    var a, j := PendingSaved(Mark(s, pid, Approved)), if k < 6 then k else 6;
    assert KeepsData(s, a, id) && KeepsData(a, a, id);
    ExecuteKeepsData(a, pid, s.proposals[pid], w, j, id);
    var x := Execute(a, pid, s.proposals[pid], w, j);
    if k > 6 {
      assert KeepsData(s, Mark(x, pid, Executed), id);
    }
  }

  lemma StepKeepsData(s: Agent, e: Event, id: Id)
    requires Synced(s) && Fresh(s, e) && id in s.proposals && id in s.book.ids
    ensures KeepsData(s, Step(s, e), id)
  {
    match e
    case DoAsk(rq, w) => AskKeepsData(s, rq, None, w, id);
    case CrashAsk(rq, w) => AskKeepsData(s, rq, None, w, id);
    case DoApprove(pid, w) =>
      if Approvable(s, pid) {
        ApproveKeepsData(s, pid, w, STAGES, id);
      }
    case CrashApprove(pid, w, k) =>
      if Approvable(s, pid) {
        ApproveKeepsData(s, pid, w, k, id);
      }
    case _ =>
  }

  /** No event changes what a proposal is about. */
  lemma {:induction false} DataKept(s: Agent, es: seq<Event>, id: Id)
    requires Safe(s) && Synced(s) && FreshRun(s, es) && id in s.proposals
    ensures KeepsData(s, Run(s, es), id)
  {
    if |es| > 0 {
      var n := |es| - 1;
      FreshPrefix(s, es, n);
      RunKeeps(s, es[..n]);
      DataKept(s, es[..n], id);
      StepKeepsData(Run(s, es[..n]), es[n], id);
    }
  }

  /** From the request to the wallet: a transfer that is held, and approved after any events in which it stays pending, is
      called exactly as it was asked for. */
  lemma HeldThenApproved(s: Agent, rq: Request, w: World, es: seq<Event>, v: World)
    requires Safe(s) && Synced(s) && w.id !in s.book.ids && Held(Gate(s, rq, w.now), rq)
    requires rq.action == WalletSend || rq.action == WalletSendTo
    requires rq.params == "" && (rq.action == WalletSend ==> rq.details == "") && rq.amount >= 0.0
    requires var t := Ask(s, rq, None, w); FreshRun(t, es) && Approvable(Run(t, es), w.id)
    ensures var t := Run(Ask(s, rq, None, w), es); Approve(t, w.id, v).log == t.log + [Call(rq, Some(w.id))]
  {
    var t := Ask(s, rq, None, w);
    HeldProposal(s, rq, w);
    AskKeeps(s, rq, None, w);
    AskSynced(s, rq, w);
    DataKept(t, es, w.id);
    RunKeeps(t, es);
    ApprovedRequest(Run(t, es), w.id, rq, v);
  }

  lemma ApprovedRequest(u: Agent, id: Id, rq: Request, v: World)
    requires Synced(u) && Approvable(u, id) && (rq.action == WalletSend || rq.action == WalletSendTo) && rq.amount >= 0.0
    requires rq.params == "" && rq.details == (if rq.action == WalletSendTo then u.proposals[id].vpk else "")
    requires var p := u.proposals[id]; p.action == rq.action && p.recipient == rq.recipient && p.amount == rq.amount
    ensures Approve(u, id, v).log == u.log + [Call(rq, Some(id))]
  {
    ApprovedCall(u, id, v);
    var log := Approve(u, id, v).log;
    assert log == log[..|u.log|] + [log[|u.log|]];
  }

  /** Of a held program call only the program is left when it is approved; a held deployment is made as it was asked for. */
  lemma HeldProgramApproved(s: Agent, rq: Request, w: World, es: seq<Event>, v: World)
    requires Safe(s) && Synced(s) && w.id !in s.book.ids && Held(Gate(s, rq, w.now), rq)
    requires rq.action == ProgramCall || rq.action == ProgramDeploy
    requires var t := Ask(s, rq, None, w); FreshRun(t, es) && Approvable(Run(t, es), w.id)
    ensures var t := Run(Ask(s, rq, None, w), es);
      var made := if rq.action == ProgramCall then Request(ProgramCall, rq.recipient, "", "{}", 0.0)
        else Request(ProgramDeploy, rq.recipient, "", "", 0.0);
      Approve(t, w.id, v).log == t.log + [Call(made, Some(w.id))]
  {
    var t := Ask(s, rq, None, w);
    HeldProposal(s, rq, w);
    AskKeeps(s, rq, None, w);
    AskSynced(s, rq, w);
    DataKept(t, es, w.id);
    RunKeeps(t, es);
    ApprovedProgram(Run(t, es), w.id, rq, v);
  }

  lemma ApprovedProgram(u: Agent, id: Id, rq: Request, v: World)
    requires Synced(u) && Approvable(u, id) && (rq.action == ProgramCall || rq.action == ProgramDeploy)
    requires u.proposals[id].action == rq.action && u.proposals[id].recipient == rq.recipient
    ensures Approve(u, id, v).log == u.log + [Call(Request(rq.action, rq.recipient, "", if rq.action == ProgramCall then "{}" else "", 0.0), Some(id))]
  {
    ApprovedCall(u, id, v);
    var log := Approve(u, id, v).log;
    assert log == log[..|u.log|] + [log[|u.log|]];
  }
}
