/** The spending gate and the life of a proposal in agent_module_impl.cpp, with what is on disk. */
module SpendGate {
  import opened Wrappers

  // ---------------------------------------------------------------- the state

  type Id = nat

  /** A limit text: "", "0", or any other text with what parse_amount makes of it (-1 when malformed). */
  datatype Limit = Empty | ZeroText | Text(bound: real)

  datatype Limits = Limits(perTx: Limit, perPeriod: Limit)

  /** The keys that the gate reads, with "0" for an absent limit, and all other keys. */
  datatype Config = Config(limits: Limits, periodSeconds: int, rest: map<string, string>)

  /** A key and its new value. */
  datatype Setting = PerTx(limit: Limit) | PerPeriod(limit: Limit) | PeriodSeconds(seconds: int) | Other(key: string, value: string)

  datatype Action = WalletSend | WalletSendTo | ProgramCall | ProgramDeploy | OtherAction

  datatype Status = PendingApproval | Approved | Executed | Rejected | OtherStatus

  /** amount is what parse_amount makes of the proposal's text. */
  datatype Proposal = Proposal(action: Action, recipient: string, vpk: string, amount: real, status: Status, notified: bool, attempts: nat)

  datatype Disk = Disk(spent: real, start: int, config: Config, proposals: map<Id, Proposal>)

  /** What is asked of the wallet: details is a vpk or an instruction. */
  datatype Request = Request(action: Action, recipient: string, details: string, params: string, amount: real)

  /** A call that reached the wallet, and the proposal it was made for. */
  datatype Call = Call(request: Request, cause: Option<Id>)

  /** History: amounts recorded without approval since the counter was last reset, amounts sent without approval
      since then but lost in a crash before they were recorded, and the proposal ids handed out. */
  datatype Book = Book(window: seq<real>, sent: real, lost: real, ids: set<Id>)

  datatype Agent = Agent(
    spent: real, start: int, limits: Limits, periodSeconds: int,
    config: Config, proposals: map<Id, Proposal>, disk: Disk, log: seq<Call>, book: Book)

  datatype Reply = Accepted | Failed

  const MAX_ATTEMPTS := 3

  function Sum(s: seq<real>): real {
    if |s| == 0 then 0.0 else Sum(s[..|s| - 1]) + s[|s| - 1]
  }

  /** How many wallet calls were made for proposal id. */
  function Calls(log: seq<Call>, id: Id): nat {
    if |log| == 0 then 0 else Calls(log[..|log| - 1], id) + (if log[|log| - 1].cause == Some(id) then 1 else 0)
  }

  // ---------------------------------------------------------------- steps

  function SpendSaved(s: Agent): Agent {
    s.(disk := s.disk.(spent := s.spent, start := s.start))
  }

  function PendingSaved(s: Agent): Agent {
    s.(disk := s.disk.(proposals := s.proposals))
  }

  predicate Gated(s: Agent) {
    s.limits.perTx.Text? || s.limits.perPeriod.Text?
  }

  predicate Expired(s: Agent, now: int) {
    s.periodSeconds > 0 && (s.start == 0 || now - s.start >= s.periodSeconds)
  }

  function Reset(s: Agent, now: int): Agent {
    SpendSaved(s.(spent := 0.0, start := now, book := s.book.(window := [], sent := 0.0, lost := 0.0)))
  }

  /** The state in which within_threshold compares. */
  function Rolled(s: Agent, amount: real, now: int): Agent {
    if amount >= 0.0 && Gated(s) && Expired(s, now) then Reset(s, now) else s
  }

  predicate Fits(s: Agent, amount: real) {
    && amount >= 0.0
    && (s.limits.perTx.Text? ==> amount <= s.limits.perTx.bound)
    && (s.limits.perPeriod.Text? ==> s.spent + amount <= s.limits.perPeriod.bound)
  }

  function Record(s: Agent, amount: real): Agent {
    SpendSaved(s.(spent := s.spent + amount))
  }

  /** A held request: the proposal is stored and saved whether or not the owner was reached in three attempts. */
  function Hold(s: Agent, id: Id, rq: Request, reachedAt: nat): Agent {
    var vpk := if rq.action == WalletSendTo then rq.details else "";
    var p := Proposal(rq.action, rq.recipient, vpk, rq.amount, PendingApproval,
      reachedAt < MAX_ATTEMPTS, if reachedAt < MAX_ATTEMPTS then reachedAt + 1 else MAX_ATTEMPTS);
    PendingSaved(s.(proposals := s.proposals[id := p], book := s.book.(ids := s.book.ids + {id})))
  }

  /** The wallet is called. A call without approval that succeeds counts as sent, and as lost until it is recorded. */
  function Called(s: Agent, rq: Request, cause: Option<Id>, reply: Reply): Agent {
    var t := s.(log := s.log + [Call(rq, cause)]);
    if cause.None? && reply.Accepted? && Spends(rq) then
      t.(book := t.book.(sent := t.book.sent + rq.amount, lost := t.book.lost + rq.amount))
    else t
  }

  /** The requests whose amount is recorded where they are made. */
  predicate Spends(rq: Request) {
    rq.action == WalletSend || rq.action == WalletSendTo || (rq.action == ProgramCall && rq.amount > 0.0)
  }

  function Entered(s: Agent, rq: Request, cause: Option<Id>, reply: Reply): Agent {
    if reply.Failed? || !Spends(rq) then s
    else if cause.Some? then Record(s, rq.amount)
    else
      Record(s.(book := s.book.(window := s.book.window + [rq.amount], lost := s.book.lost - rq.amount)), rq.amount)
  }

  /** Whether a request is held: by the gate, and a deployment whenever there is a limit per transaction. */
  predicate Held(s: Agent, rq: Request) {
    if rq.action == ProgramDeploy then s.limits.perTx.Text? else !Fits(s, rq.amount)
  }

  function Gate(s: Agent, rq: Request, now: int): Agent {
    if rq.action == ProgramDeploy then s else Rolled(s, rq.amount, now)
  }

  /** What a held request leaves as its amount: a deployment has none and takes the limit's. */
  function HeldAs(s: Agent, rq: Request): Request {
    if rq.action == ProgramDeploy && s.limits.perTx.Text? then rq.(amount := s.limits.perTx.bound) else rq
  }

  /** What the world contributes to a request: the clock, a fresh id, the attempt at which the owner is reached,
      the wallet's answer. */
  datatype World = World(now: int, id: Id, reachedAt: nat, reply: Reply)

  /** wallet_send, wallet_send_to, program_call and program_deploy, up to the wallet's answer. */
  function Asked(s: Agent, rq: Request, cause: Option<Id>, w: World): Agent {
    var g := Gate(s, rq, w.now);
    if Held(g, rq) then Hold(g, w.id, HeldAs(g, rq), w.reachedAt) else Called(g, rq, cause, w.reply)
  }

  /** The same, to the end. */
  function Ask(s: Agent, rq: Request, cause: Option<Id>, w: World): Agent {
    var t := Asked(s, rq, cause, w);
    if Held(Gate(s, rq, w.now), rq) then t else Entered(t, rq, cause, w.reply)
  }

  // ---------------------------------------------------------------- approval

  function Mark(s: Agent, id: Id, status: Status): Agent
    requires id in s.proposals
  {
    s.(proposals := s.proposals[id := s.proposals[id].(status := status)])
  }

  /** The request made for an approved proposal: of a program call only the program's name was kept. */
  function Deferred(p: Proposal): Request {
    match p.action
    case ProgramCall => Request(ProgramCall, p.recipient, "", "{}", 0.0)
    case WalletSendTo => Request(WalletSendTo, p.recipient, p.vpk, "", p.amount)
    case WalletSend => Request(WalletSend, p.recipient, "", "", p.amount)
    case _ => Request(ProgramDeploy, p.recipient, "", "", 0.0)
  }

  /** Whether the deferred request's answer has no "error" in it; one that is held again has none. */
  predicate Succeeds(p: Proposal, w: World) {
    p.action != OtherAction && (HeldAgain(p) || w.reply.Accepted?)
  }

  predicate HeldAgain(p: Proposal) {
    (p.action == WalletSend || p.action == WalletSendTo) && p.amount < 0.0
  }

  predicate Approvable(s: Agent, id: Id) {
    id in s.proposals && s.proposals[id].status == PendingApproval
  }

  const STAGES := 9

  /** approve_pending after its first k steps: 1 approved in memory, 2 saved, 3 limits zeroed, 4 wallet called,
      5 spend entered, 6 limits restored, 7 executed in memory, 8 saved, 9 spend recorded. */
  function ApproveTo(s: Agent, id: Id, w: World, k: nat): (t: Agent)
    requires Approvable(s, id)
    ensures id in t.proposals
  {
    var p := s.proposals[id];
    if k == 0 then s
    else if k == 1 then Mark(s, id, Approved)
    else if k <= 6 then Execute(PendingSaved(Mark(s, id, Approved)), id, p, w, k)
    else
      var t := Mark(Execute(PendingSaved(Mark(s, id, Approved)), id, p, w, 6), id, Executed);
      if k == 7 then t
      else if k == 8 || !(Succeeds(p, w) && p.amount > 0.0) then PendingSaved(t)
      else Record(PendingSaved(t), p.amount)
  }

  function Execute(s: Agent, id: Id, p: Proposal, w: World, k: nat): (t: Agent)
    requires id in s.proposals
    ensures id in t.proposals
  {
    var z := s.(limits := Limits(ZeroText, ZeroText));
    if k <= 2 || p.action == OtherAction then s
    else if k == 3 then z
    else if k == 4 then Asked(z, Deferred(p), Some(id), w)
    else if k == 5 then Ask(z, Deferred(p), Some(id), w)
    else Ask(z, Deferred(p), Some(id), w).(limits := s.limits)
  }

  function Approve(s: Agent, id: Id, w: World): Agent {
    if Approvable(s, id) then ApproveTo(s, id, w, STAGES) else s
  }

  predicate Rejectable(s: Agent, id: Id) {
    id in s.proposals && s.proposals[id].status != Executed && s.proposals[id].status != Rejected
  }

  function Reject(s: Agent, id: Id): Agent {
    if Rejectable(s, id) then PendingSaved(Mark(s, id, Rejected)) else s
  }

  function Updated(l: Limits, k: Setting): Limits {
    match k
    case PerTx(x) => l.(perTx := x)
    case PerPeriod(x) => l.(perPeriod := x)
    case _ => l
  }

  function WithSetting(c: Config, k: Setting): Config {
    match k
    case PeriodSeconds(n) => c.(periodSeconds := n)
    case Other(key, value) => c.(rest := c.rest[key := value])
    case _ => c.(limits := Updated(c.limits, k))
  }

  /** meta_configure of one key; the empty key is refused. */
  function Configure(s: Agent, k: Setting): Agent {
    if k.Other? && k.key == "" then s
    else
      var c := WithSetting(s.config, k);
      s.(config := c, limits := c.limits, periodSeconds := c.periodSeconds, disk := s.disk.(config := c))
  }

  /** load_all in a new process: what is not on disk is gone. */
  function Restart(s: Agent): Agent {
    var d := s.disk;
    s.(spent := d.spent, start := d.start, limits := d.config.limits, periodSeconds := d.config.periodSeconds,
      config := d.config, proposals := d.proposals)
  }

  // ---------------------------------------------------------------- runs

  /** What happens to an agent; the events with a crash end in a restart. */
  datatype Event =
    | DoAsk(rq: Request, w: World)
    | CrashAsk(rq: Request, w: World)
    | DoApprove(id: Id, w: World)
    | CrashApprove(id: Id, w: World, stage: nat)
    | DoReject(id: Id)
    | DoConfigure(setting: Setting)
    | DoRestart

  function Step(s: Agent, e: Event): Agent {
    match e
    case DoAsk(rq, w) => Ask(s, rq, None, w)
    case CrashAsk(rq, w) => Restart(Asked(s, rq, None, w))
    case DoApprove(id, w) => Approve(s, id, w)
    case CrashApprove(id, w, k) => Restart(if Approvable(s, id) then ApproveTo(s, id, w, k) else s)
    case DoReject(id) => Reject(s, id)
    case DoConfigure(k) => Configure(s, k)
    case DoRestart => Restart(s)
  }

  function Run(s: Agent, es: seq<Event>): Agent {
    if |es| == 0 then s else Step(Run(s, es[..|es| - 1]), es[|es| - 1])
  }

  /** The ids that the world hands out are new. */
  predicate Fresh(s: Agent, e: Event) {
    e.DoAsk? || e.CrashAsk? || e.DoApprove? || e.CrashApprove? ==> e.w.id !in s.book.ids
  }

  ghost predicate FreshRun(s: Agent, es: seq<Event>) {
    forall i :: 0 <= i < |es| ==> Fresh(Run(s, es[..i]), es[i])
  }

  // ---------------------------------------------------------------- what every run keeps

  /** Between events memory and disk agree, and the limits in force are the configured ones. */
  predicate Synced(s: Agent) {
    && s.disk == Disk(s.spent, s.start, s.config, s.proposals)
    && s.config.limits == s.limits && s.config.periodSeconds == s.periodSeconds
  }

  /** A proposal for which the wallet was called is no longer pending, in memory and on disk, and was called once. */
  ghost predicate OnceEach(s: Agent) {
    && (forall id :: id in s.proposals || id in s.disk.proposals ==> id in s.book.ids)
    && (forall id :: Calls(s.log, id) <= 1)
    && (forall id :: Calls(s.log, id) > 0 ==> Closed(s, id))
  }

  predicate Closed(s: Agent, id: Id) {
    && id in s.proposals && s.proposals[id].status != PendingApproval
    && id in s.disk.proposals && s.disk.proposals[id].status != PendingApproval
  }

  /** The counter is at least what was recorded without approval; what was sent is that and what crashes lost. */
  ghost predicate Counted(s: Agent) {
    && 0.0 <= Sum(s.book.window) <= s.spent
    && s.book.sent == Sum(s.book.window) + s.book.lost
  }

  lemma {:induction false} SumSnoc(w: seq<real>, a: real)
    ensures Sum(w + [a]) == Sum(w) + a
  {
    assert (w + [a])[..|w|] == w;
  }

  lemma {:induction false} CallsSnoc(log: seq<Call>, c: Call, id: Id)
    ensures Calls(log + [c], id) == Calls(log, id) + (if c.cause == Some(id) then 1 else 0)
  {
    assert (log + [c])[..|log|] == log;
  }

  /** What holds also in the middle of an approval, where a crash may come. */
  ghost predicate Safe(s: Agent) {
    && OnceEach(s) && Counted(s)
    && s.disk.spent == s.spent && s.disk.start == s.start && s.disk.config == s.config
  }

  lemma GateKeeps(s: Agent, rq: Request, now: int)
    requires Safe(s)
    ensures var g := Gate(s, rq, now);
      Safe(g) && g.proposals == s.proposals && g.disk.proposals == s.disk.proposals && g.log == s.log && g.book.ids == s.book.ids
  {
  }

  lemma HoldKeeps(s: Agent, id: Id, rq: Request, reachedAt: nat)
    requires Safe(s) && id !in s.book.ids
    ensures Safe(Hold(s, id, rq, reachedAt))
  {
    assert Calls(s.log, id) == 0;
    forall i | Calls(s.log, i) > 0
      ensures Closed(Hold(s, id, rq, reachedAt), i)
    {
      assert Closed(s, i);
    }
  }

  lemma CalledKeeps(s: Agent, rq: Request, cause: Option<Id>, reply: Reply)
    requires Safe(s) && (cause.Some? ==> Closed(s, cause.value) && Calls(s.log, cause.value) == 0)
    ensures Safe(Called(s, rq, cause, reply))
  {
    forall i: Id
      ensures Calls(s.log + [Call(rq, cause)], i) == Calls(s.log, i) + (if cause == Some(i) then 1 else 0)
    {
      CallsSnoc(s.log, Call(rq, cause), i);
    }
    assert forall i :: Calls(s.log, i) > 0 ==> Closed(s, i);
  }

  lemma EnteredKeeps(s: Agent, rq: Request, cause: Option<Id>, reply: Reply)
    requires Safe(s) && (Spends(rq) ==> rq.amount >= 0.0)
    ensures Safe(Entered(s, rq, cause, reply))
  {
    SumSnoc(s.book.window, rq.amount);
  }

  lemma AskKeeps(s: Agent, rq: Request, cause: Option<Id>, w: World)
    requires Safe(s) && w.id !in s.book.ids
    requires cause.Some? ==> Closed(s, cause.value) && Calls(s.log, cause.value) == 0
    ensures Safe(Asked(s, rq, cause, w)) && Safe(Ask(s, rq, cause, w))
  {
    var g := Gate(s, rq, w.now);
    GateKeeps(s, rq, w.now);
    if Held(g, rq) {
      HoldKeeps(g, w.id, HeldAs(g, rq), w.reachedAt);
    } else {
      CalledKeeps(g, rq, cause, w.reply);
      EnteredKeeps(Called(g, rq, cause, w.reply), rq, cause, w.reply);
    }
  }

  lemma MarkKeeps(s: Agent, id: Id, status: Status)
    requires Safe(s) && id in s.proposals && status != PendingApproval
    ensures Safe(Mark(s, id, status)) && Safe(PendingSaved(Mark(s, id, status)))
    ensures Closed(PendingSaved(Mark(s, id, status)), id)
  {
    var t := Mark(s, id, status);
    forall i | Calls(s.log, i) > 0
      ensures Closed(t, i) && Closed(PendingSaved(t), i)
    {
      assert Closed(s, i);
    }
  }

  /** Wherever an approval is interrupted. */
  lemma ApproveKeeps(s: Agent, id: Id, w: World, k: nat)
    requires Safe(s) && Approvable(s, id) && w.id !in s.book.ids
    ensures Safe(ApproveTo(s, id, w, k))
    ensures ApproveTo(s, id, w, k).disk.config == s.disk.config
  {
    var p := s.proposals[id];
    var a := PendingSaved(Mark(s, id, Approved));
    MarkKeeps(s, id, Approved);
    assert Calls(a.log, id) == 0;
    ExecuteKeeps(a, id, p, w, k);
    ExecuteKeeps(a, id, p, w, 6);
    MarkKeeps(Execute(a, id, p, w, 6), id, Executed);
  }

  lemma ExecuteKeeps(s: Agent, id: Id, p: Proposal, w: World, k: nat)
    requires Safe(s) && Closed(s, id) && Calls(s.log, id) == 0 && w.id !in s.book.ids
    ensures Safe(Execute(s, id, p, w, k)) && Execute(s, id, p, w, k).disk.config == s.disk.config
  {
    var z := s.(limits := Limits(ZeroText, ZeroText));
    LimitsApart(s, z.limits);
    AskKeeps(z, Deferred(p), Some(id), w);
    AskFrame(z, Deferred(p), Some(id), w);
    LimitsApart(Ask(z, Deferred(p), Some(id), w), s.limits);
  }

  /** A request changes no configuration; it ends with memory and disk agreeing about proposals if they did. */
  lemma AskFrame(s: Agent, rq: Request, cause: Option<Id>, w: World)
    ensures var t := Ask(s, rq, cause, w);
      && t.limits == s.limits && t.periodSeconds == s.periodSeconds && t.config == s.config && t.disk.config == s.disk.config
      && (s.disk.proposals == s.proposals ==> t.disk.proposals == t.proposals)
    ensures Asked(s, rq, cause, w).disk.config == s.disk.config
  {
    var g := Gate(s, rq, w.now);
    assert g.limits == s.limits && g.periodSeconds == s.periodSeconds && g.config == s.config && g.disk.config == s.disk.config;
    assert g.proposals == s.proposals && g.disk.proposals == s.disk.proposals;
  }

  lemma LimitsApart(s: Agent, l: Limits)
    requires Safe(s)
    ensures Safe(s.(limits := l))
  {
    assert forall i :: Calls(s.log, i) > 0 ==> Closed(s, i);
  }

  lemma RestartKeeps(s: Agent)
    requires Safe(s)
    ensures Safe(Restart(s)) && Synced(Restart(s))
  {
    assert forall i :: Calls(s.log, i) > 0 ==> Closed(s, i);
  }

  /** A request or an approval that runs to its end leaves memory and disk, and limits and configuration, in step. */
  lemma AskSynced(s: Agent, rq: Request, w: World)
    requires Safe(s) && Synced(s) && w.id !in s.book.ids
    ensures Synced(Ask(s, rq, None, w))
  {
    AskKeeps(s, rq, None, w);
    AskFrame(s, rq, None, w);
  }

  lemma ApproveSynced(s: Agent, id: Id, w: World)
    requires Safe(s) && Synced(s) && w.id !in s.book.ids && Approvable(s, id)
    ensures Synced(ApproveTo(s, id, w, STAGES))
  {
    var a := PendingSaved(Mark(s, id, Approved));
    var p := s.proposals[id];
    ApproveKeeps(s, id, w, STAGES);
    AskFrame(a.(limits := Limits(ZeroText, ZeroText)), Deferred(p), Some(id), w);
    assert Execute(a, id, p, w, 6).limits == s.limits;
  }

  /** Every event keeps the invariant. */
  lemma StepKeeps(s: Agent, e: Event)
    requires Safe(s) && Synced(s) && Fresh(s, e)
    ensures Safe(Step(s, e)) && Synced(Step(s, e))
  {
    match e
    case DoAsk(rq, w) =>
      AskKeeps(s, rq, None, w);
      AskSynced(s, rq, w);
    case CrashAsk(rq, w) =>
      AskKeeps(s, rq, None, w);
      RestartKeeps(Asked(s, rq, None, w));
    case DoApprove(id, w) => ApproveEvent(s, id, w);
    case CrashApprove(id, w, k) => CrashEvent(s, id, w, k);
    case DoReject(id) =>
      if Rejectable(s, id) {
        MarkKeeps(s, id, Rejected);
      }
    case DoConfigure(k) => ConfigureKeeps(s, k);
    case DoRestart => RestartKeeps(s);
  }

  lemma ApproveEvent(s: Agent, id: Id, w: World)
    requires Safe(s) && Synced(s) && w.id !in s.book.ids
    ensures Safe(Approve(s, id, w)) && Synced(Approve(s, id, w))
  {
    if Approvable(s, id) {
      ApproveKeeps(s, id, w, STAGES);
      ApproveSynced(s, id, w);
    }
  }

  lemma CrashEvent(s: Agent, id: Id, w: World, k: nat)
    requires Safe(s) && Synced(s) && w.id !in s.book.ids
    ensures var t := Step(s, CrashApprove(id, w, k)); Safe(t) && Synced(t)
  {
    if Approvable(s, id) {
      ApproveKeeps(s, id, w, k);
      RestartKeeps(ApproveTo(s, id, w, k));
    }
  }

  lemma ConfigureKeeps(s: Agent, k: Setting)
    requires Safe(s) && Synced(s)
    ensures Safe(Configure(s, k)) && Synced(Configure(s, k))
  {
    assert forall i :: Calls(s.log, i) > 0 ==> Closed(s, i);
  }

  // ---------------------------------------------------------------- at most one call for a proposal

  lemma {:induction false} RunKeeps(s: Agent, es: seq<Event>)
    requires Safe(s) && Synced(s) && FreshRun(s, es)
    ensures Safe(Run(s, es)) && Synced(Run(s, es))
  {
    if |es| > 0 {
      var n := |es| - 1;
      FreshPrefix(s, es, n);
      RunKeeps(s, es[..n]);
      StepKeeps(Run(s, es[..n]), es[n]);
    }
  }

  lemma FreshPrefix(s: Agent, es: seq<Event>, n: nat)
    requires n < |es| && FreshRun(s, es)
    ensures FreshRun(s, es[..n]) && Fresh(Run(s, es[..n]), es[n])
  {
    forall i | 0 <= i < n
      ensures Fresh(Run(s, es[..n][..i]), es[..n][i])
    {
      assert es[..n][..i] == es[..i];
    }
  }

  /** An agent that starts on any disk whose counter is not negative. */
  ghost predicate Starts(s: Agent) {
    && Synced(s) && s.log == [] && s.book == Book([], 0.0, 0.0, s.proposals.Keys) && s.spent >= 0.0
  }

  /** Over any run, with crashes anywhere, the wallet is called at most once for a proposal, and between events the
      limits in force are those on disk. */
  lemma AtMostOneCall(s: Agent, es: seq<Event>, id: Id)
    requires Starts(s) && FreshRun(s, es)
    ensures Calls(Run(s, es).log, id) <= 1
    ensures Run(s, es).limits == Run(s, es).disk.config.limits
  {
    assert Safe(s);
    RunKeeps(s, es);
  }

  lemma AskKeepsStatus(s: Agent, rq: Request, cause: Option<Id>, w: World, id: Id)
    requires Closed(s, id) && w.id != id
    ensures Closed(Asked(s, rq, cause, w), id) && Closed(Ask(s, rq, cause, w), id)
  {
    var g := Gate(s, rq, w.now);
    assert g.proposals == s.proposals && g.disk.proposals == s.disk.proposals;
  }

  lemma AskCalls(s: Agent, rq: Request, cause: Option<Id>, w: World, id: Id)
    requires cause != Some(id)
    ensures Calls(Asked(s, rq, cause, w).log, id) == Calls(Ask(s, rq, cause, w).log, id) == Calls(s.log, id)
  {
    CallsSnoc(s.log, Call(rq, cause), id);
    assert Gate(s, rq, w.now).log == s.log;
  }

  lemma ExecuteKeepsStatus(s: Agent, pid: Id, p: Proposal, w: World, k: nat, id: Id)
    requires pid in s.proposals && Closed(s, id) && w.id != id
    ensures Closed(Execute(s, pid, p, w, k), id)
  {
    AskKeepsStatus(s.(limits := Limits(ZeroText, ZeroText)), Deferred(p), Some(pid), w, id);
  }

  lemma ExecuteCalls(s: Agent, pid: Id, p: Proposal, w: World, k: nat, id: Id)
    requires pid in s.proposals && pid != id
    ensures Calls(Execute(s, pid, p, w, k).log, id) == Calls(s.log, id)
  {
    var z := s.(limits := Limits(ZeroText, ZeroText));
    AskCalls(z, Deferred(p), Some(pid), w, id);
    ExecuteLog(s, pid, p, w, k);
  }

  /** The calls of an execution are those of its request, once that is made. */
  lemma ExecuteLog(s: Agent, id: Id, p: Proposal, w: World, k: nat)
    requires id in s.proposals
    ensures var z := s.(limits := Limits(ZeroText, ZeroText));
      Execute(s, id, p, w, k).log in {s.log, Asked(z, Deferred(p), Some(id), w).log, Ask(z, Deferred(p), Some(id), w).log}
  {
  }

  lemma ApproveLeavesClosed(s: Agent, pid: Id, w: World, k: nat, id: Id)
    requires Closed(s, id) && w.id != id && Approvable(s, pid)
    ensures Closed(ApproveTo(s, pid, w, k), id) && Calls(ApproveTo(s, pid, w, k).log, id) == Calls(s.log, id)
  {
    var a, j, p := PendingSaved(Mark(s, pid, Approved)), if k < 6 then k else 6, s.proposals[pid];
    assert Closed(a, id);
    ExecuteKeepsStatus(a, pid, p, w, j, id);
    ExecuteCalls(a, pid, p, w, j, id);
    var x := Execute(a, pid, p, w, j);
    if k > 6 {
      assert Closed(PendingSaved(Mark(x, pid, Executed)), id) && Mark(x, pid, Executed).log == x.log;
    }
  }

  lemma StepLeavesClosed(s: Agent, e: Event, id: Id)
    requires Safe(s) && Fresh(s, e) && Closed(s, id)
    ensures Closed(Step(s, e), id) && Calls(Step(s, e).log, id) == Calls(s.log, id)
  {
    match e
    case DoAsk(rq, w) =>
      AskKeepsStatus(s, rq, None, w, id);
      AskCalls(s, rq, None, w, id);
    case CrashAsk(rq, w) =>
      AskKeepsStatus(s, rq, None, w, id);
      AskCalls(s, rq, None, w, id);
    case DoApprove(pid, w) =>
      if Approvable(s, pid) {
        ApproveLeavesClosed(s, pid, w, STAGES, id);
      }
    case CrashApprove(pid, w, k) =>
      if Approvable(s, pid) {
        ApproveLeavesClosed(s, pid, w, k, id);
      }
    case _ =>
  }

  /** A proposal that is approved, executed or rejected never becomes pending again and is never executed from then on. */
  lemma {:induction false} ClosedForever(s: Agent, es: seq<Event>, id: Id)
    requires Safe(s) && Synced(s) && FreshRun(s, es) && Closed(s, id)
    ensures Closed(Run(s, es), id) && Calls(Run(s, es).log, id) == Calls(s.log, id)
  {
    if |es| > 0 {
      var n := |es| - 1;
      FreshPrefix(s, es, n);
      RunKeeps(s, es[..n]);
      ClosedForever(s, es[..n], id);
      StepLeavesClosed(Run(s, es[..n]), es[n], id);
    }
  }

  /** A proposal rejected while it is pending is never executed. */
  lemma RejectedNeverRuns(s: Agent, id: Id, es: seq<Event>)
    requires Safe(s) && Synced(s) && Approvable(s, id) && FreshRun(Reject(s, id), es)
    ensures Calls(Run(Reject(s, id), es).log, id) == 0
  {
    MarkKeeps(s, id, Rejected);
    assert !Closed(s, id);
    ClosedForever(Reject(s, id), es, id);
  }

  /** A crash inside approve_pending: up to the first save the proposal is pending as before and the wallet was not
      called; after it the proposal cannot be approved again. The limits on disk are never the zeroed ones. */
  lemma CrashInApproval(s: Agent, id: Id, w: World, k: nat)
    requires Safe(s) && Synced(s) && Approvable(s, id) && w.id !in s.book.ids
    ensures var t := Restart(ApproveTo(s, id, w, k));
      && t.limits == s.limits
      && (k <= 1 ==> Approvable(t, id) && t.log == s.log)
      && (k > 1 ==> Closed(t, id) && !Approvable(t, id))
  {
    ApproveKeeps(s, id, w, k);
    if k > 1 {
      var a := PendingSaved(Mark(s, id, Approved));
      ExecuteKeepsStatus(a, id, s.proposals[id], w, if k < 6 then k else 6, id);
    }
  }

  // ---------------------------------------------------------------- the bound on autonomous spending

  /** What the limits promise about the amounts recorded without approval since the counter was last reset. */
  ghost predicate Bounded(l: Limits, window: seq<real>) {
    && (l.perPeriod.Text? ==> window == [] || Sum(window) <= l.perPeriod.bound)
    && (l.perTx.Text? ==> forall i :: 0 <= i < |window| ==> window[i] <= l.perTx.bound)
  }

  predicate SameLimits(e: Event, l: Limits) {
    e.DoConfigure? ==> Updated(l, e.setting) == l
  }

  lemma GateBounded(s: Agent, rq: Request, now: int)
    requires Safe(s) && Bounded(s.limits, s.book.window)
    ensures var g := Gate(s, rq, now); Safe(g) && Bounded(s.limits, g.book.window) && g.limits == s.limits
  {
    GateKeeps(s, rq, now);
  }

  lemma FittingBounded(s: Agent, a: real)
    requires Safe(s) && Bounded(s.limits, s.book.window) && Fits(s, a)
    ensures Bounded(s.limits, s.book.window + [a])
  {
    SumSnoc(s.book.window, a);
  }

  lemma AskBounded(s: Agent, rq: Request, w: World)
    requires Safe(s) && Bounded(s.limits, s.book.window)
    ensures Bounded(s.limits, Asked(s, rq, None, w).book.window) && Bounded(s.limits, Ask(s, rq, None, w).book.window)
  {
    var g := Gate(s, rq, w.now);
    GateBounded(s, rq, w.now);
    assert Asked(s, rq, None, w).book.window == g.book.window;
    if !Held(g, rq) && Spends(rq) {
      FittingBounded(g, rq.amount);
    }
  }

  /** An approval adds nothing to the autonomous amounts and does not reset the counter. */
  lemma ApproveWindow(s: Agent, id: Id, w: World, k: nat)
    requires Approvable(s, id)
    ensures ApproveTo(s, id, w, k).book.(ids := {}) == s.book.(ids := {})
  {
    var a := PendingSaved(Mark(s, id, Approved));
    ExecuteWindow(a, id, s.proposals[id], w, if k <= 6 then k else 6);
  }

  lemma ExecuteWindow(s: Agent, id: Id, p: Proposal, w: World, k: nat)
    requires id in s.proposals
    ensures Execute(s, id, p, w, k).book.(ids := {}) == s.book.(ids := {})
  {
  }

  lemma StepBounded(s: Agent, e: Event)
    requires Safe(s) && Synced(s) && Bounded(s.limits, s.book.window) && SameLimits(e, s.limits) && Fresh(s, e)
    ensures Bounded(s.limits, Step(s, e).book.window) && Step(s, e).limits == s.limits
  {
    match e
    case DoAsk(rq, w) =>
      AskBounded(s, rq, w);
      AskFrame(s, rq, None, w);
    case CrashAsk(rq, w) =>
      AskBounded(s, rq, w);
      AskFrame(s, rq, None, w);
    case DoApprove(id, w) =>
      if Approvable(s, id) {
        ApproveWindow(s, id, w, STAGES);
        ApproveKeeps(s, id, w, STAGES);
        ApproveSynced(s, id, w);
      }
    case CrashApprove(id, w, k) =>
      if Approvable(s, id) {
        ApproveWindow(s, id, w, k);
        ApproveKeeps(s, id, w, k);
      }
    case _ =>
  }

  lemma {:induction false} RunBounded(s: Agent, es: seq<Event>)
    requires Safe(s) && Synced(s) && Bounded(s.limits, s.book.window) && FreshRun(s, es)
    requires forall i :: 0 <= i < |es| ==> SameLimits(es[i], s.limits)
    ensures Bounded(s.limits, Run(s, es).book.window) && Run(s, es).limits == s.limits
  {
    if |es| > 0 {
      var n := |es| - 1;
      FreshPrefix(s, es, n);
      RunKeeps(s, es[..n]);
      RunBounded(s, es[..n]);
      StepBounded(Run(s, es[..n]), es[n]);
    }
  }

  /** While the limits stay as they are, whatever approvals, rejections, failures and crashes come between: the amounts
      recorded without approval since the last reset are each within the limit per transaction and together within
      the limit per period; what was sent exceeds them by what crashes lost, and by nothing else. */
  lemma AutonomousSpendBounded(s: Agent, es: seq<Event>)
    requires Starts(s) && FreshRun(s, es) && forall i :: 0 <= i < |es| ==> SameLimits(es[i], s.limits)
    ensures Bounded(s.limits, Run(s, es).book.window)
    ensures Run(s, es).book.sent == Sum(Run(s, es).book.window) + Run(s, es).book.lost
    ensures Sum(Run(s, es).book.window) <= Run(s, es).spent
  {
    assert Safe(s);
    RunKeeps(s, es);
    RunBounded(s, es);
  }

  /** Every call made without approval obeys the limit per transaction, also one that a crash kept from the record. */
  ghost predicate CallsFit(l: Limits, log: seq<Call>) {
    l.perTx.Text? ==> forall i :: 0 <= i < |log| && log[i].cause.None? ==> log[i].request.amount <= l.perTx.bound
  }

  lemma AskCallsFit(s: Agent, rq: Request, cause: Option<Id>, w: World)
    requires CallsFit(s.limits, s.log)
    ensures CallsFit(s.limits, Asked(s, rq, cause, w).log) && CallsFit(s.limits, Ask(s, rq, cause, w).log)
  {
    var g := Gate(s, rq, w.now);
    assert g.log == s.log && g.limits == s.limits;
  }

  /** A call made for a proposal is not one without approval. */
  lemma ExecuteCallsFit(s: Agent, l: Limits, id: Id, p: Proposal, w: World, k: nat)
    requires id in s.proposals && CallsFit(l, s.log)
    ensures CallsFit(l, Execute(s, id, p, w, k).log)
  {
    var z := s.(limits := Limits(ZeroText, ZeroText));
    assert Gate(z, Deferred(p), w.now).log == s.log;
  }

  lemma StepCallsFit(s: Agent, e: Event)
    requires Safe(s) && Synced(s) && CallsFit(s.limits, s.log) && SameLimits(e, s.limits) && Fresh(s, e)
    ensures CallsFit(s.limits, Step(s, e).log)
  {
    match e
    case DoAsk(rq, w) => AskCallsFit(s, rq, None, w);
    case CrashAsk(rq, w) => AskCallsFit(s, rq, None, w);
    case DoApprove(id, w) =>
      if Approvable(s, id) {
        ExecuteCallsFit(PendingSaved(Mark(s, id, Approved)), s.limits, id, s.proposals[id], w, 6);
      }
    case CrashApprove(id, w, k) =>
      if Approvable(s, id) {
        ExecuteCallsFit(PendingSaved(Mark(s, id, Approved)), s.limits, id, s.proposals[id], w, if k < 6 then k else 6);
      }
    case _ =>
  }

  /** Over any run with unchanged limits, crashes included. */
  lemma {:induction false} AutonomousCallsFit(s: Agent, es: seq<Event>)
    requires Starts(s) && FreshRun(s, es) && forall i :: 0 <= i < |es| ==> SameLimits(es[i], s.limits)
    ensures CallsFit(s.limits, Run(s, es).log)
  {
    assert Safe(s);
    if |es| > 0 {
      var n := |es| - 1;
      FreshPrefix(s, es, n);
      AutonomousCallsFit(s, es[..n]);
      RunKeeps(s, es[..n]);
      RunBounded(s, es[..n]);
      StepCallsFit(Run(s, es[..n]), es[n]);
    }
  }

  // ---------------------------------------------------------------- the bound on what was sent

  /** The counter covers what was sent without approval. */
  predicate Covered(s: Agent) {
    s.book.sent <= s.spent
  }

  /** A crash after a successful call whose amount the counter does not cover. */
  predicate Overdraws(s: Agent, e: Event) {
    && e.CrashAsk? && e.w.reply.Accepted? && Spends(e.rq)
    && var g := Gate(s, e.rq, e.w.now); !Held(g, e.rq) && g.book.sent + e.rq.amount > g.spent
  }

  predicate SentWithin(s: Agent) {
    s.limits.perPeriod.Text? ==> s.book.sent == 0.0 || s.book.sent <= s.limits.perPeriod.bound
  }

  /** No positive amount passes until the counter is reset. */
  predicate Stuck(s: Agent) {
    || (s.limits.perTx.Text? && s.limits.perTx.bound <= 0.0)
    || (s.limits.perPeriod.Text? && s.spent >= s.limits.perPeriod.bound)
  }

  lemma GateCovered(s: Agent, rq: Request, now: int)
    ensures var g := Gate(s, rq, now);
      g.limits == s.limits && (Covered(s) ==> Covered(g)) && (SentWithin(s) ==> SentWithin(g)) && (Stuck(s) ==> Stuck(g) || Covered(g))
  {
  }

  /** An approval leaves what was sent and never lowers the counter. */
  lemma ApproveCovered(s: Agent, id: Id, w: World, k: nat)
    requires Approvable(s, id)
    ensures ApproveTo(s, id, w, k).book.sent == s.book.sent && ApproveTo(s, id, w, k).spent >= s.spent
  {
    var p := s.proposals[id];
    ExecuteCovered(PendingSaved(Mark(s, id, Approved)), id, p, w, if k < 6 then k else 6);
  }

  lemma ExecuteCovered(s: Agent, id: Id, p: Proposal, w: World, k: nat)
    requires id in s.proposals
    ensures Execute(s, id, p, w, k).book.sent == s.book.sent && Execute(s, id, p, w, k).spent >= s.spent
  {
  }

  /** After a crashed request the counter is what it was when the gate was passed. */
  lemma CrashAskState(s: Agent, rq: Request, w: World)
    requires Safe(s)
    ensures var g, t := Gate(s, rq, w.now), Restart(Asked(s, rq, None, w));
      && t.spent == g.spent
      && t.book.sent == g.book.sent + (if !Held(g, rq) && w.reply.Accepted? && Spends(rq) then rq.amount else 0.0)
  {
    GateKeeps(s, rq, w.now);
  }

  lemma AskState(s: Agent, rq: Request, w: World)
    ensures var g, t := Gate(s, rq, w.now), Ask(s, rq, None, w);
      var a := if !Held(g, rq) && w.reply.Accepted? && Spends(rq) then rq.amount else 0.0;
      t.spent == g.spent + a && t.book.sent == g.book.sent + a
  {
  }

  /** An event leaves what was sent covered if and only if it is not an overdrawing crash. */
  lemma StepCovered(s: Agent, e: Event)
    requires Safe(s) && Synced(s) && Covered(s) && Fresh(s, e)
    ensures Covered(Step(s, e)) <==> !Overdraws(s, e)
  {
    match e
    case DoAsk(rq, w) =>
      GateCovered(s, rq, w.now);
      AskState(s, rq, w);
    case CrashAsk(rq, w) =>
      GateCovered(s, rq, w.now);
      CrashAskState(s, rq, w);
    case DoApprove(id, w) =>
      if Approvable(s, id) {
        ApproveCovered(s, id, w, STAGES);
      }
    case CrashApprove(id, w, k) =>
      if Approvable(s, id) {
        ApproveCovered(s, id, w, k);
        ApproveKeeps(s, id, w, k);
      }
    case _ =>
  }

  /** What keeps the bound: what was sent is covered, or nothing more can be sent. */
  predicate Stable(s: Agent) {
    SentWithin(s) && (Covered(s) || Stuck(s))
  }

  /** A positive amount that passes leaves the sum within the limit. */
  lemma PassingAmount(g: Agent, a: real)
    requires Fits(g, a) && Stable(g)
    ensures a == 0.0 || (Covered(g) && (g.limits.perPeriod.Text? ==> g.book.sent + a <= g.limits.perPeriod.bound))
  {
  }

  lemma GateStable(s: Agent, rq: Request, now: int)
    requires Stable(s)
    ensures Stable(Gate(s, rq, now))
  {
    GateCovered(s, rq, now);
  }

  lemma AskStable(s: Agent, rq: Request, w: World)
    requires Safe(s) && Stable(s)
    ensures Stable(Ask(s, rq, None, w))
    ensures !Overdraws(s, CrashAsk(rq, w)) && Synced(s) ==> Stable(Restart(Asked(s, rq, None, w)))
  {
    var g := Gate(s, rq, w.now);
    GateStable(s, rq, w.now);
    AskState(s, rq, w);
    CrashAskState(s, rq, w);
    AskFrame(s, rq, None, w);
    if !Held(g, rq) && Spends(rq) {
      PassingAmount(g, rq.amount);
    }
  }

  lemma StepStable(s: Agent, e: Event)
    requires Safe(s) && Synced(s) && Stable(s) && SameLimits(e, s.limits) && Fresh(s, e) && !Overdraws(s, e)
    ensures Stable(Step(s, e))
  {
    match e
    case DoAsk(rq, w) => AskStable(s, rq, w);
    case CrashAsk(rq, w) => AskStable(s, rq, w);
    case DoApprove(id, w) =>
      if Approvable(s, id) {
        ApproveCovered(s, id, w, STAGES);
        ApproveSynced(s, id, w);
        ApproveKeeps(s, id, w, STAGES);
      }
    case CrashApprove(id, w, k) =>
      if Approvable(s, id) {
        ApproveCovered(s, id, w, k);
        ApproveKeeps(s, id, w, k);
      }
    case _ =>
  }

  /** Runs with unchanged limits in which no crash overdraws. */
  ghost predicate Quiet(s: Agent, es: seq<Event>) {
    && FreshRun(s, es)
    && forall i :: 0 <= i < |es| ==> SameLimits(es[i], s.limits) && !Overdraws(Run(s, es[..i]), es[i])
  }

  lemma QuietPrefix(s: Agent, es: seq<Event>, n: nat)
    requires n < |es| && Quiet(s, es)
    ensures Quiet(s, es[..n]) && SameLimits(es[n], s.limits) && !Overdraws(Run(s, es[..n]), es[n])
  {
    FreshPrefix(s, es, n);
    forall i | 0 <= i < n
      ensures !Overdraws(Run(s, es[..n][..i]), es[..n][i])
    {
      assert es[..n][..i] == es[..i];
    }
  }

  lemma {:induction false} RunStable(s: Agent, es: seq<Event>)
    requires Safe(s) && Synced(s) && Stable(s) && Quiet(s, es)
    ensures Stable(Run(s, es)) && Run(s, es).limits == s.limits && Safe(Run(s, es)) && Synced(Run(s, es))
  {
    if |es| > 0 {
      var n := |es| - 1;
      QuietPrefix(s, es, n);
      FreshPrefix(s, es, n);
      RunStable(s, es[..n]);
      StepStable(Run(s, es[..n]), es[n]);
      StepKeeps(Run(s, es[..n]), es[n]);
      StepLimits(Run(s, es[..n]), es[n]);
    }
  }

  lemma StepLimits(s: Agent, e: Event)
    requires Safe(s) && Synced(s) && SameLimits(e, s.limits) && Fresh(s, e)
    ensures Step(s, e).limits == s.limits
  {
    match e
    case DoAsk(rq, w) => AskFrame(s, rq, None, w);
    case CrashAsk(rq, w) => AskFrame(s, rq, None, w);
    case DoApprove(id, w) =>
      if Approvable(s, id) {
        ApproveKeeps(s, id, w, STAGES);
        ApproveSynced(s, id, w);
      }
    case CrashApprove(id, w, k) =>
      if Approvable(s, id) {
        ApproveKeeps(s, id, w, k);
      }
    case _ =>
  }

  /** From the start, what was sent stays within the limit per period in every run in which no crash overdraws. */
  lemma AutonomousSentBounded(s: Agent, es: seq<Event>)
    requires Starts(s) && Quiet(s, es)
    ensures SentWithin(Run(s, es))
  {
    assert Safe(s);
    RunStable(s, es);
  }

  /** One event more at the end of a quiet run. */
  lemma QuietSnoc(s: Agent, es: seq<Event>, e: Event)
    requires Quiet(s, es) && SameLimits(e, s.limits) && Fresh(Run(s, es), e) && !Overdraws(Run(s, es), e)
    ensures Quiet(s, es + [e]) && Run(s, es + [e]) == Step(Run(s, es), e)
  {
    var fs := es + [e];
    assert fs[..|es|] == es;
    forall i | 0 <= i < |fs|
      ensures SameLimits(fs[i], s.limits) && Fresh(Run(s, fs[..i]), fs[i]) && !Overdraws(Run(s, fs[..i]), fs[i])
    {
      assert fs[..i] == if i < |es| then es[..i] else es;
    }
  }

  lemma {:induction false} NewId(ids: set<Id>) returns (id: Id)
    ensures forall i :: i in ids ==> i < id
    decreases ids
  {
    if ids == {} {
      id := 0;
    } else {
      var j :| j in ids;
      var rest := ids - {j};
      id := NewId(rest);
      id := if j < id then id else j + 1;
      assert forall i :: i in ids ==> i == j || i in rest;
    }
  }

  /** A state from which sends without approval fill the period's limit, although the counter lags behind them. */
  predicate Lagging(s: Agent) {
    s.limits.perPeriod.Text? && s.periodSeconds <= 0 && 0.0 <= s.spent && !Covered(s) && !Stuck(s)
  }

  /** The largest amount that passes. */
  function Room(s: Agent): real
    requires s.limits.perPeriod.Text?
  {
    var left := s.limits.perPeriod.bound - s.spent;
    if s.limits.perTx.Text? && s.limits.perTx.bound < left then s.limits.perTx.bound else left
  }

  /** Sending that amount. */
  lemma SendRoom(s: Agent, es: seq<Event>) returns (fs: seq<Event>)
    requires Quiet(s, es) && Run(s, es).limits == s.limits && Lagging(Run(s, es))
    ensures Quiet(s, fs)
    ensures var u, t := Run(s, es), Run(s, fs);
      && t.spent == u.spent + Room(u) && t.book.sent == u.book.sent + Room(u)
      && t.limits == s.limits && t.periodSeconds == u.periodSeconds
  {
    var u := Run(s, es);
    var id := NewId(u.book.ids);
    var rq, w := Request(WalletSend, "", "", "", Room(u)), World(0, id, 0, Accepted);
    assert Gate(u, rq, w.now) == u && !Held(u, rq);
    AskState(u, rq, w);
    AskFrame(u, rq, None, w);
    QuietSnoc(s, es, DoAsk(rq, w));
    fs := es + [DoAsk(rq, w)];
  }

  /** At most n sends are needed to fill the limit; then more than the limit was sent. */
  lemma {:induction false} Overshoot(s: Agent, es: seq<Event>, n: nat) returns (fs: seq<Event>)
    requires Quiet(s, es) && Run(s, es).limits == s.limits && Lagging(Run(s, es))
    requires var u := Run(s, es);
      s.limits.perTx.Text? ==> s.limits.perPeriod.bound - u.spent <= Steps(n, s.limits.perTx.bound)
    ensures Quiet(s, fs) && !SentWithin(Run(s, fs))
    decreases n
  {
    var u := Run(s, es);
    fs := SendRoom(s, es);
    if Room(u) < s.limits.perPeriod.bound - u.spent {
      fs := Overshoot(s, fs, n - 1);
    }
  }

  /** n steps of size a. */
  function Steps(n: nat, a: real): real {
    if n == 0 then 0.0 else Steps(n - 1, a) + a
  }

  lemma {:induction false} StepsAreProduct(n: nat, a: real)
    ensures Steps(n, a) == (n as real) * a
  {
    if n > 0 {
      StepsAreProduct(n - 1, a);
      OneStepMore((n - 1) as real, a);
      assert n as real == (n - 1) as real + 1.0;
    }
  }

  lemma OneStepMore(x: real, a: real)
    ensures x * a + a == (x + 1.0) * a
  {
  }

  /** Enough steps of a positive size reach any distance. */
  lemma EnoughSteps(left: real, a: real) returns (n: nat)
    requires a > 0.0
    ensures left <= Steps(n, a)
  {
    var x := left / a;
    n := if x <= 0.0 then 0 else x.Floor + 1;
    StepsAreProduct(n, a);
    StepsCover(x, n as real, a, left);
  }

  lemma StepsCover(x: real, y: real, a: real, left: real)
    requires x <= y && a > 0.0 && x == left / a
    ensures left <= y * a
  {
    assert left == x * a;
    assert (y - x) * a >= 0.0;
  }

  /** With the period switched off the counter is not reset. */
  lemma NoReset(t: Agent)
    requires Safe(t) && Synced(t) && t.limits.perPeriod.Text? && !Covered(t) && !Stuck(t)
    ensures var u := Step(t, DoConfigure(PeriodSeconds(0))); Lagging(u) && u.limits == t.limits && u.spent == t.spent
  {
  }

  /** The exact condition: what is sent without approval stays within the limit per period in every run to come, in which
      no crash overdraws, if and only if it is within the limit now and either the counter covers it or no positive
      amount passes. */
  lemma SentBoundExactly(t: Agent)
    requires Safe(t) && Synced(t) && t.limits.perPeriod.Text?
    ensures Stable(t) <==> forall es :: Quiet(t, es) ==> SentWithin(Run(t, es))
  {
    if Stable(t) {
      forall es | Quiet(t, es)
        ensures SentWithin(Run(t, es))
      {
        RunStable(t, es);
      }
    } else if SentWithin(t) {
      NoReset(t);
      var es := [] + [DoConfigure(PeriodSeconds(0))];
      QuietSnoc(t, [], DoConfigure(PeriodSeconds(0)));
      var n: nat := 0;
      if t.limits.perTx.Text? {
        n := EnoughSteps(t.limits.perPeriod.bound - t.spent, t.limits.perTx.bound);
      }
      var fs := Overshoot(t, es, n);
      assert Quiet(t, fs) && !SentWithin(Run(t, fs));
    } else {
      assert Quiet(t, []) && Run(t, []) == t;
    }
  }

  /** The family of runs that pass the limit: a is sent and lost in a crash, then the whole limit b is sent, for all
      0 < a <= b. */
  lemma SentBeyondLimit(a: real, b: real) returns (s: Agent, es: seq<Event>)
    requires 0.0 < a <= b
    ensures Starts(s) && FreshRun(s, es) && s.limits == Limits(ZeroText, Text(b))
    ensures |es| == 2 && es[0].CrashAsk? && es[0].rq.amount == a && es[1].DoAsk? && es[1].rq.amount == b
    ensures Overdraws(s, es[0]) && Run(s, es).book.sent == a + b
  {
    var c := Config(Limits(ZeroText, Text(b)), 86400, map[]);
    s := Agent(0.0, 1, c.limits, 86400, c, map[], Disk(0.0, 1, c, map[]), [], Book([], 0.0, 0.0, {}));
    var rq, w := Request(WalletSend, "r", "", "", a), World(2, 1, 0, Accepted);
    var e, f := CrashAsk(rq, w), DoAsk(rq.(amount := b), w);
    es := [e, f];
    assert s.proposals.Keys == {};
    assert es[..0] == [] && es[..1] == [e] && [e][..0] == [];
    assert Run(s, []) == s && Run(s, [e]) == Step(s, e) && Run(s, es) == Step(Run(s, [e]), f);
    assert Gate(s, rq, 2) == s && !Held(s, rq);
    var t := Step(s, e);
    assert t.spent == 0.0 && t.book.sent == a && t.limits == c.limits && t.start == 1 && t.periodSeconds == 86400;
    assert Gate(t, f.rq, 2) == t && !Held(t, f.rq);
  }

  // ---------------------------------------------------------------- limit texts

  /** Every amount that is not malformed passes, if and only if both limit texts are "" or "0". */
  lemma EverythingPasses(s: Agent)
    ensures (forall a :: a >= 0.0 ==> Fits(s, a))
      <==> s.limits.perTx in {Empty, ZeroText} && s.limits.perPeriod in {Empty, ZeroText}
  {
    if Gated(s) {
      var x := if s.limits.perTx.Text? then s.limits.perTx.bound else s.limits.perPeriod.bound - s.spent;
      assert !Fits(s, if x >= 0.0 then x + 1.0 else 1.0);
    }
  }

  /** No positive amount passes, if and only if a text other than "" and "0" parses to nothing above zero, or the counter
      has reached the limit. So "0.0" does what a configured zero is said to do, and "0" does not. */
  lemma NothingPasses(s: Agent)
    ensures (forall a :: a > 0.0 ==> !Fits(s, a)) <==> Stuck(s)
  {
    if !Stuck(s) {
      var x := if s.limits.perPeriod.Text? then s.limits.perPeriod.bound - s.spent else 1.0;
      var y := if s.limits.perTx.Text? && s.limits.perTx.bound < x then s.limits.perTx.bound else x;
      assert Fits(s, y);
    }
  }

  // ---------------------------------------------------------------- what an approval does

  /** An approved proposal that is not held again reaches the wallet once, with its own recipient and amount (a program
      call with neither instruction nor parameters); its amount is added to the counter where it is sent and once more
      at the end. */
  lemma ApprovalCounts(s: Agent, id: Id, w: World)
    requires Synced(s) && Approvable(s, id) && s.proposals[id].action != OtherAction && !HeldAgain(s.proposals[id])
    ensures var p, t := s.proposals[id], Approve(s, id, w);
      && t.log == s.log + [Call(Deferred(p), Some(id))]
      && t.proposals == s.proposals[id := p.(status := Executed)] && t.limits == s.limits
      && t.spent == s.spent + (if w.reply.Failed? || p.amount <= 0.0 then 0.0
        else if p.action == WalletSend || p.action == WalletSendTo then 2.0 * p.amount else p.amount)
  {
    var a := PendingSaved(Mark(s, id, Approved));
    var z := a.(limits := Limits(ZeroText, ZeroText));
    var rq := Deferred(s.proposals[id]);
    assert Gate(z, rq, w.now) == z && !Held(z, rq);
    var t := Execute(a, id, s.proposals[id], w, 6);
    assert t.log == s.log + [Call(rq, Some(id))] && t.proposals == a.proposals && t.limits == s.limits;
  }

  /** A malformed or negative amount is held again under approval: the wallet is not called, a new proposal waits. */
  lemma HeldAgainUnderApproval(s: Agent, id: Id, w: World)
    requires Synced(s) && Approvable(s, id) && HeldAgain(s.proposals[id]) && w.id !in s.proposals
    ensures var p, t := s.proposals[id], Approve(s, id, w);
      && t.log == s.log && t.spent == s.spent && t.limits == s.limits
      && t.proposals.Keys == s.proposals.Keys + {w.id} && t.proposals[id] == p.(status := Executed)
      && t.proposals[w.id].status == PendingApproval && t.proposals[w.id].amount == p.amount
  {
    var a := PendingSaved(Mark(s, id, Approved));
    var z := a.(limits := Limits(ZeroText, ZeroText));
    var rq := Deferred(s.proposals[id]);
    assert Gate(z, rq, w.now) == z && Held(z, rq);
  }

  // ---------------------------------------------------------------- the module

  datatype Answer = Pending | Error | Result

  /** The module's fields, the files it keeps, and the history of its wallet calls. */
  class AgentModule {
    var periodSpent: real
    var periodStart: int
    var limits: Limits
    var periodSeconds: int
    var config: Config
    var proposals: map<Id, Proposal>
    var disk: Disk
    ghost var log: seq<Call>
    ghost var book: Book

    ghost function State(): Agent
      reads this
    {
      Agent(periodSpent, periodStart, limits, periodSeconds, config, proposals, disk, log, book)
    }

    /** A process that starts on the given files. */
    constructor (files: Disk)
      requires files.spent >= 0.0
      ensures Starts(State()) && disk == files
    {
      periodSpent, periodStart := files.spent, files.start;
      limits, periodSeconds := files.config.limits, files.config.periodSeconds;
      config, proposals, disk := files.config, files.proposals, files;
      log, book := [], Book([], 0.0, 0.0, files.proposals.Keys);
    }

    method SaveSpend()
      modifies this
      ensures State() == SpendSaved(old(State()))
    {
      disk := disk.(spent := periodSpent, start := periodStart);
    }

    method SavePending()
      modifies this
      ensures State() == PendingSaved(old(State()))
    {
      disk := disk.(proposals := proposals);
    }

    /** within_threshold */
    method WithinThreshold(amount: real, now: int) returns (ok: bool)
      modifies this
      ensures State() == Rolled(old(State()), amount, now) && ok == Fits(State(), amount)
    {
      if amount < 0.0 {
        return false;
      }
      var txLimitSet, periodLimitSet := limits.perTx.Text?, limits.perPeriod.Text?;
      if !txLimitSet && !periodLimitSet {
        return true;
      }
      if periodSeconds > 0 && (periodStart == 0 || now - periodStart >= periodSeconds) {
        periodSpent, periodStart := 0.0, now;
        book := book.(window := [], sent := 0.0, lost := 0.0);
        SaveSpend();
      }
      var txOk := !txLimitSet || amount <= limits.perTx.bound;
      var periodOk := !periodLimitSet || periodSpent + amount <= limits.perPeriod.bound;
      ok := txOk && periodOk;
    }

    /** record_spend */
    method RecordSpend(amount: real)
      modifies this
      ensures State() == Record(old(State()), amount)
    {
      periodSpent := periodSpent + amount;
      SaveSpend();
    }

    /** create_pending_proposal, and the same steps inside wallet_send_to. */
    method CreatePendingProposal(rq: Request, w: World)
      modifies this
      ensures State() == Hold(old(State()), w.id, rq, w.reachedAt)
    {
      var notified, attempts := false, 0;
      while attempts < MAX_ATTEMPTS && !notified
        invariant 0 <= attempts <= MAX_ATTEMPTS
        invariant notified <==> attempts == w.reachedAt + 1
        invariant attempts <= w.reachedAt + 1
      {
        notified := attempts == w.reachedAt;
        attempts := attempts + 1;
      }
      var vpk := if rq.action == WalletSendTo then rq.details else "";
      proposals := proposals[w.id := Proposal(rq.action, rq.recipient, vpk, rq.amount, PendingApproval, notified, attempts)];
      book := book.(ids := book.ids + {w.id});
      SavePending();
    }

    /** The wallet answers; the call is in the history from here on. */
    method CallWallet(rq: Request, ghost cause: Option<Id>, w: World) returns (reply: Reply)
      modifies this
      ensures State() == Called(old(State()), rq, cause, w.reply) && reply == w.reply
    {
      log := log + [Call(rq, cause)];
      if cause.None? && w.reply.Accepted? && Spends(rq) {
        book := book.(sent := book.sent + rq.amount, lost := book.lost + rq.amount);
      }
      reply := w.reply;
    }

    /** record_spend after a call that succeeded. */
    method RecordCall(rq: Request, ghost cause: Option<Id>)
      requires Spends(rq)
      modifies this
      ensures State() == Entered(old(State()), rq, cause, Accepted)
    {
      if cause.None? {
        book := book.(window := book.window + [rq.amount], lost := book.lost - rq.amount);
      }
      RecordSpend(rq.amount);
    }

    /** wallet_send and wallet_send_to */
    method WalletSend(rq: Request, ghost cause: Option<Id>, w: World) returns (answer: Answer)
      requires rq.action == Action.WalletSend || rq.action == WalletSendTo
      modifies this
      ensures State() == Ask(old(State()), rq, cause, w)
      ensures answer == AskAnswer(old(State()), rq, w)
    {
      var ok := WithinThreshold(rq.amount, w.now);
      if !ok {
        CreatePendingProposal(rq, w);
        return Pending;
      }
      var reply := CallWallet(rq, cause, w);
      if reply.Failed? {
        return Error;
      }
      RecordCall(rq, cause);
      answer := Result;
    }

    /** program_call; the amount is that of the parameters, 0 when they have none. */
    method ProgramCall(rq: Request, ghost cause: Option<Id>, w: World) returns (answer: Answer)
      requires rq.action == Action.ProgramCall
      modifies this
      ensures State() == Ask(old(State()), rq, cause, w)
      ensures answer == AskAnswer(old(State()), rq, w)
    {
      var ok := WithinThreshold(rq.amount, w.now);
      if !ok {
        CreatePendingProposal(rq, w);
        return Pending;
      }
      var reply := CallWallet(rq, cause, w);
      if reply.Failed? {
        return Error;
      }
      if rq.amount > 0.0 {
        RecordCall(rq, cause);
      }
      answer := Result;
    }

    /** program_deploy */
    method ProgramDeploy(rq: Request, ghost cause: Option<Id>, w: World) returns (answer: Answer)
      requires rq.action == Action.ProgramDeploy
      modifies this
      ensures State() == Ask(old(State()), rq, cause, w)
      ensures answer == AskAnswer(old(State()), rq, w)
    {
      if limits.perTx.Text? {
        CreatePendingProposal(rq.(amount := limits.perTx.bound), w);
        return Pending;
      }
      var reply := CallWallet(rq, cause, w);
      answer := if reply.Failed? then Error else Result;
    }

    /** The deferred action of a proposal, with the limits zeroed while it runs. */
    method ExecuteDeferred(id: Id, p: Proposal, w: World) returns (answer: Answer)
      requires id in proposals
      modifies this
      ensures id in proposals && State() == Execute(old(State()), id, p, w, 6)
      ensures answer.Error? <==> !Succeeds(p, w)
    {
      if p.action == OtherAction {
        return Error;
      }
      var saved := limits;
      limits := Limits(ZeroText, ZeroText);
      assert State() == Execute(old(State()), id, p, w, 3);
      if p.action == Action.WalletSend || p.action == WalletSendTo {
        answer := WalletSend(Deferred(p), Some(id), w);
      } else if p.action == Action.ProgramCall {
        answer := ProgramCall(Deferred(p), Some(id), w);
      } else {
        answer := ProgramDeploy(Deferred(p), Some(id), w);
      }
      limits := saved;
    }

    /** approve_pending: true when the proposal was pending and has now been executed. */
    method ApprovePending(id: Id, w: World) returns (ok: bool)
      modifies this
      ensures State() == Approve(old(State()), id, w)
      ensures ok <==> Approvable(old(State()), id)
    {
      if id !in proposals || proposals[id].status != PendingApproval {
        return false;
      }
      ghost var s := State();
      var p := proposals[id];
      SetStatus(id, Approved);
      assert State() == ApproveTo(s, id, w, 1);
      SavePending();
      assert State() == ApproveTo(s, id, w, 2);
      var answer := ExecuteDeferred(id, p, w);
      assert State() == ApproveTo(s, id, w, 6);
      SetStatus(id, Executed);
      assert State() == ApproveTo(s, id, w, 7);
      SavePending();
      assert State() == ApproveTo(s, id, w, 8);
      if !answer.Error? && p.amount > 0.0 {
        RecordSpend(p.amount);
      }
      ok := true;
    }

    method SetStatus(id: Id, status: Status)
      requires id in proposals
      modifies this
      ensures State() == Mark(old(State()), id, status)
    {
      proposals := proposals[id := proposals[id].(status := status)];
    }

    /** reject_pending */
    method RejectPending(id: Id) returns (ok: bool)
      modifies this
      ensures State() == Reject(old(State()), id)
      ensures ok <==> Rejectable(old(State()), id)
    {
      if id !in proposals || proposals[id].status == Executed || proposals[id].status == Rejected {
        return false;
      }
      SetStatus(id, Rejected);
      SavePending();
      ok := true;
    }

    /** meta_configure: the key, then sync_config_fields and save_config. */
    method MetaConfigure(k: Setting) returns (answer: Answer)
      modifies this
      ensures State() == Configure(old(State()), k)
      ensures answer == if k.Other? && k.key == "" then Error else Result
    {
      if k.Other? && k.key == "" {
        return Error;
      }
      config := WithSetting(config, k);
      limits, periodSeconds := config.limits, config.periodSeconds;
      disk := disk.(config := config);
      answer := Result;
    }

    /** load_all and sync_config_fields in a new process. */
    method LoadAll()
      modifies this
      ensures State() == Restart(old(State()))
    {
      config := disk.config;
      periodSpent, periodStart := disk.spent, disk.start;
      proposals := disk.proposals;
      limits, periodSeconds := config.limits, config.periodSeconds;
    }
  }

  /** The kind of answer a request gets. */
  function AskAnswer(s: Agent, rq: Request, w: World): Answer {
    if Held(Gate(s, rq, w.now), rq) then Pending else if w.reply.Failed? then Error else Result
  }
}
