/** The protocol that keeps requests and exclusive work on a repository apart in the memory store
    (internal/store/mem.go). Every repository has a channel that holds one token and a wait group. A request
    takes the token, joins the wait group and gives the token back; a collection takes the token, waits for the
    wait group to drain and gives the token back when it is finished, and so does closing the store. */
module RepoTokens {

  type Proc = nat
  type Repo = nat

  datatype Work = Collect | Shutdown

  /** Where a process stands. Each step below is one atomic action of the program. */
  datatype Pc =
    | Idle
    | GetWaiting(repo: Repo)              // RepoGet, waiting for the token
    | GetToken(repo: Repo)                // RepoGet, holding the token
    | GetAdded(repo: Repo)                // RepoGet, joined the wait group, token not yet returned
    | Holding(repo: Repo)                 // between RepoGet and Done
    | WorkWaiting(repo: Repo, work: Work) // gc or Close, waiting for the token
    | WorkToken(repo: Repo, work: Work)   // gc or Close, holding the token, waiting for the wait group
    | Working(repo: Repo, work: Work)     // gc or Close, the wait has returned
    | Forgetting(repo: Repo)              // Close, token returned, about to drop the repository

  datatype State = State(
    repos: map<string, Repo>,
    channel: map<Repo, int>,
    group: map<Repo, int>,
    procs: map<Proc, Pc>,
    stopped: bool)

  predicate HasToken(pc: Pc, r: Repo) {
    (pc.GetToken? || pc.GetAdded? || pc.WorkToken? || pc.Working?) && pc.repo == r
  }

  /** The process is counted in the wait group of `r`. */
  predicate IsCounted(pc: Pc, r: Repo) {
    (pc.GetAdded? || pc.Holding?) && pc.repo == r
  }

  function Move(s: State, p: Proc, pc: Pc): State {
    s.(procs := s.procs[p := pc])
  }

  /** A move that also changes the channel and the wait group of one repository. */
  function Shift(s: State, p: Proc, pc: Pc, r: Repo, tokens: int, callers: int): State
    requires Known(s, r)
  {
    s.(channel := s.channel[r := s.channel[r] + tokens],
       group := s.group[r := s.group[r] + callers],
       procs := s.procs[p := pc])
  }

  predicate At(s: State, p: Proc, pc: Pc) {
    p in s.procs && s.procs[p] == pc
  }

  predicate Known(s: State, r: Repo) {
    r in s.channel && r in s.group
  }

  /* ---------- Actions ---------- */

  predicate FindRepo(s: State, n: State, p: Proc, name: string) {
    && At(s, p, Idle) && !s.stopped && name in s.repos
    && n == Move(s, p, GetWaiting(s.repos[name]))
  }

  /** A new repository is created with its token in the channel and its first caller already counted. */
  predicate CreateRepo(s: State, n: State, p: Proc, name: string, r: Repo) {
    && At(s, p, Idle) && !s.stopped && name !in s.repos && r !in s.channel
    && n == Move(s, p, Holding(r)).(repos := s.repos[name := r], channel := s.channel[r := 1], group := s.group[r := 1])
  }

  predicate GiveUp(s: State, n: State, p: Proc, r: Repo) {
    At(s, p, GetWaiting(r)) && n == Move(s, p, Idle)
  }

  predicate TakeToken(s: State, n: State, p: Proc, r: Repo) {
    && At(s, p, GetWaiting(r)) && Known(s, r) && s.channel[r] > 0
    && n == Shift(s, p, GetToken(r), r, -1, 0)
  }

  predicate JoinGroup(s: State, n: State, p: Proc, r: Repo) {
    && At(s, p, GetToken(r)) && Known(s, r)
    && n == Shift(s, p, GetAdded(r), r, 0, 1)
  }

  /** The channel has room for one token. */
  predicate ReturnToken(s: State, n: State, p: Proc, r: Repo) {
    && At(s, p, GetAdded(r)) && Known(s, r) && s.channel[r] < 1
    && n == Shift(s, p, Holding(r), r, 1, 0)
  }

  predicate Done(s: State, n: State, p: Proc, r: Repo) {
    && At(s, p, Holding(r)) && Known(s, r)
    && n == Shift(s, p, Idle, r, 0, -1)
  }

  predicate StartWork(s: State, n: State, p: Proc, r: Repo, work: Work) {
    && At(s, p, Idle) && Known(s, r) && (work == Shutdown ==> s.stopped)
    && n == Move(s, p, WorkWaiting(r, work))
  }

  predicate TakeWorkToken(s: State, n: State, p: Proc, r: Repo, work: Work) {
    && At(s, p, WorkWaiting(r, work)) && Known(s, r) && s.channel[r] > 0
    && n == Shift(s, p, WorkToken(r, work), r, -1, 0)
  }

  /** The wait on the wait group returns only when its count is zero. */
  predicate WaitReturns(s: State, n: State, p: Proc, r: Repo, work: Work) {
    && At(s, p, WorkToken(r, work)) && Known(s, r) && s.group[r] == 0
    && n == Move(s, p, Working(r, work))
  }

  predicate FinishWork(s: State, n: State, p: Proc, r: Repo, work: Work) {
    && At(s, p, Working(r, work)) && Known(s, r) && s.channel[r] < 1
    && n == Shift(s, p, if work == Shutdown then Forgetting(r) else Idle, r, 1, 0)
  }

  predicate Forget(s: State, n: State, p: Proc, r: Repo, name: string) {
    At(s, p, Forgetting(r)) && n == Move(s, p, Idle).(repos := s.repos - {name})
  }

  predicate Stop(s: State, n: State) {
    n == s.(stopped := true)
  }

  /** A new request, collection or close starts. */
  predicate Spawn(s: State, n: State, p: Proc) {
    p !in s.procs && n == Move(s, p, Idle)
  }

  datatype Action =
    | DoStop
    | DoSpawn(p: Proc)
    | DoFind(p: Proc, name: string)
    | DoCreate(p: Proc, name: string, r: Repo)
    | DoGiveUp(p: Proc, r: Repo)
    | DoTake(p: Proc, r: Repo)
    | DoJoin(p: Proc, r: Repo)
    | DoReturn(p: Proc, r: Repo)
    | DoDone(p: Proc, r: Repo)
    | DoStartWork(p: Proc, r: Repo, work: Work)
    | DoTakeWork(p: Proc, r: Repo, work: Work)
    | DoWaitReturns(p: Proc, r: Repo, work: Work)
    | DoFinishWork(p: Proc, r: Repo, work: Work)
    | DoForget(p: Proc, r: Repo, name: string)

  predicate Step(s: State, n: State, a: Action) {
    match a
    case DoStop => Stop(s, n)
    case DoSpawn(p) => Spawn(s, n, p)
    case DoFind(p, name) => FindRepo(s, n, p, name)
    case DoCreate(p, name, r) => CreateRepo(s, n, p, name, r)
    case DoGiveUp(p, r) => GiveUp(s, n, p, r)
    case DoTake(p, r) => TakeToken(s, n, p, r)
    case DoJoin(p, r) => JoinGroup(s, n, p, r)
    case DoReturn(p, r) => ReturnToken(s, n, p, r)
    case DoDone(p, r) => Done(s, n, p, r)
    case DoStartWork(p, r, work) => StartWork(s, n, p, r, work)
    case DoTakeWork(p, r, work) => TakeWorkToken(s, n, p, r, work)
    case DoWaitReturns(p, r, work) => WaitReturns(s, n, p, r, work)
    case DoFinishWork(p, r, work) => FinishWork(s, n, p, r, work)
    case DoForget(p, r, name) => Forget(s, n, p, r, name)
  }

  ghost predicate Next(s: State, n: State) {
    exists a :: Step(s, n, a)
  }

  const START := State(map[], map[], map[], map[], false)

  ghost predicate IsRun(run: seq<State>) {
    && |run| > 0 && run[0] == START
    && forall i | 0 <= i < |run| - 1 :: Next(run[i], run[i + 1])
  }

  /* ---------- Invariant ---------- */

  function Callers(s: State, r: Repo): set<Proc> {
    set p | p in s.procs && IsCounted(s.procs[p], r)
  }

  /** One token of `r` exists: in the channel, or with exactly one process. */
  ghost predicate OneTokenOf(s: State, r: Repo)
    requires r in s.channel
  {
    && (s.channel[r] == 0 || s.channel[r] == 1)
    && (forall p | p in s.procs && HasToken(s.procs[p], r) :: s.channel[r] == 0)
    && (forall p, q | p in s.procs && q in s.procs && HasToken(s.procs[p], r) && HasToken(s.procs[q], r) :: p == q)
    && (s.channel[r] == 0 ==> exists p :: p in s.procs && HasToken(s.procs[p], r))
  }

  ghost predicate OneToken(s: State) {
    forall r | r in s.channel :: OneTokenOf(s, r)
  }

  ghost predicate GroupExact(s: State) {
    && s.group.Keys == s.channel.Keys
    && (forall r | r in s.group :: s.group[r] == |Callers(s, r)|)
  }

  /** Nobody is counted in the group of a repository that is being worked on. */
  ghost predicate Excluded(s: State) {
    forall p, q | p in s.procs && q in s.procs && s.procs[p].Working? :: !IsCounted(s.procs[q], s.procs[p].repo)
  }

  ghost predicate ReposKnown(s: State) {
    && (forall name | name in s.repos :: s.repos[name] in s.channel)
    && (forall p | p in s.procs && !s.procs[p].Idle? :: s.procs[p].repo in s.channel)
  }

  ghost predicate Inv(s: State) {
    OneToken(s) && GroupExact(s) && Excluded(s) && ReposKnown(s)
  }

  /* ---------- What one action does to the token and the group ---------- */

  function PcOf(s: State, p: Proc): Pc {
    if p in s.procs then s.procs[p] else Idle
  }

  function Weight(b: bool): int {
    if b then 1 else 0
  }

  /** Process `p` moves; the channel and the group of every repository change by what it takes or returns. */
  ghost predicate Effect(s: State, n: State, p: Proc) {
    && p in n.procs && n.procs == s.procs[p := n.procs[p]]
    && n.channel.Keys == s.channel.Keys && n.group.Keys == s.group.Keys
    && (forall r | r in s.channel ::
          n.channel[r] == s.channel[r] + Weight(HasToken(PcOf(s, p), r)) - Weight(HasToken(n.procs[p], r)) >= 0)
    && (forall r | r in s.group ::
          n.group[r] == s.group[r] - Weight(IsCounted(PcOf(s, p), r)) + Weight(IsCounted(n.procs[p], r)))
  }

  predicate NonNegative(s: State) {
    forall r | r in s.channel :: s.channel[r] >= 0
  }

  lemma ShiftEffect(s: State, p: Proc, pc: Pc, r: Repo, tokens: int, callers: int)
    requires NonNegative(s) && Known(s, r) && p in s.procs
    requires (s.procs[p].Idle? || s.procs[p].repo == r) && (pc.Idle? || pc.repo == r)
    requires tokens == Weight(HasToken(s.procs[p], r)) - Weight(HasToken(pc, r)) && s.channel[r] + tokens >= 0
    requires callers == Weight(IsCounted(pc, r)) - Weight(IsCounted(s.procs[p], r))
    ensures Effect(s, Shift(s, p, pc, r, tokens, callers), p)
  {
    var n := Shift(s, p, pc, r, tokens, callers);
    forall t | t in s.channel && t != r ensures !HasToken(s.procs[p], t) && !HasToken(pc, t) {
    }
    forall t | t in s.group && t != r ensures !IsCounted(s.procs[p], t) && !IsCounted(pc, t) {
    }
  }

  /** A move that takes no token and joins or leaves no group. */
  lemma MoveEffect(s: State, n: State, p: Proc, pc: Pc)
    requires NonNegative(s)
    requires n.procs == s.procs[p := pc] && n.channel == s.channel && n.group == s.group
    requires forall r :: !HasToken(PcOf(s, p), r) && !IsCounted(PcOf(s, p), r) && !HasToken(pc, r) && !IsCounted(pc, r)
    ensures Effect(s, n, p)
  {
  }

  /** Waiting for the wait group to drain keeps the token. */
  lemma WaitEffect(s: State, n: State, p: Proc, r: Repo, work: Work)
    requires NonNegative(s) && WaitReturns(s, n, p, r, work)
    ensures Effect(s, n, p)
  {
  }

  /** Actions that neither take nor return a token. */
  predicate IsMove(a: Action) {
    a.DoSpawn? || a.DoFind? || a.DoGiveUp? || a.DoStartWork? || a.DoForget?
  }

  lemma MovesEffect(s: State, n: State, a: Action)
    requires NonNegative(s) && Step(s, n, a) && IsMove(a)
    ensures Effect(s, n, a.p)
  {
    match a
    case DoSpawn(p) => MoveEffect(s, n, p, Idle);
    case DoFind(p, name) => MoveEffect(s, n, p, GetWaiting(s.repos[name]));
    case DoGiveUp(p, r) => MoveEffect(s, n, p, Idle);
    case DoStartWork(p, r, work) => MoveEffect(s, n, p, WorkWaiting(r, work));
    case DoForget(p, r, name) => MoveEffect(s, n, p, Idle);
  }

  lemma StepEffect(s: State, n: State, a: Action)
    requires NonNegative(s) && Step(s, n, a) && !a.DoStop? && !a.DoCreate?
    ensures Effect(s, n, a.p)
  {
    if IsMove(a) {
      MovesEffect(s, n, a);
    } else {
      match a
      case DoTake(p, r) => ShiftEffect(s, p, GetToken(r), r, -1, 0);
      case DoJoin(p, r) => ShiftEffect(s, p, GetAdded(r), r, 0, 1);
      case DoReturn(p, r) => ShiftEffect(s, p, Holding(r), r, 1, 0);
      case DoDone(p, r) => ShiftEffect(s, p, Idle, r, 0, -1);
      case DoTakeWork(p, r, work) => ShiftEffect(s, p, WorkToken(r, work), r, -1, 0);
      case DoWaitReturns(p, r, work) => WaitEffect(s, n, p, r, work);
      case DoFinishWork(p, r, work) => ShiftEffect(s, p, if work == Shutdown then Forgetting(r) else Idle, r, 1, 0);
    }
  }

  lemma CallersMove(s: State, n: State, p: Proc, r: Repo)
    requires p in n.procs && n.procs == s.procs[p := n.procs[p]]
    ensures |Callers(n, r)| == |Callers(s, r)| - Weight(IsCounted(PcOf(s, p), r)) + Weight(IsCounted(n.procs[p], r))
  {
    if IsCounted(n.procs[p], r) {
      assert Callers(n, r) == Callers(s, r) + {p};
    } else {
      assert Callers(n, r) == Callers(s, r) - {p};
    }
    assert IsCounted(PcOf(s, p), r) <==> p in Callers(s, r);
  }

  lemma EffectGroup(s: State, n: State, p: Proc)
    requires GroupExact(s) && Effect(s, n, p)
    requires s.group.Keys == s.channel.Keys
    ensures GroupExact(n)
  {
    forall r | r in n.group ensures n.group[r] == |Callers(n, r)| {
      CallersMove(s, n, p, r);
    }
  }

  lemma EffectTokenOf(s: State, n: State, p: Proc, r: Repo)
    requires r in s.channel && OneTokenOf(s, r)
    requires p in n.procs && n.procs == s.procs[p := n.procs[p]]
    requires r in n.channel &&
             n.channel[r] == s.channel[r] + Weight(HasToken(PcOf(s, p), r)) - Weight(HasToken(n.procs[p], r)) >= 0
    ensures OneTokenOf(n, r)
  {
    forall q | q in n.procs && q != p ensures q in s.procs && n.procs[q] == s.procs[q] {
    }
    if n.channel[r] == 0 && !HasToken(n.procs[p], r) {
      var q :| q in s.procs && HasToken(s.procs[q], r);
      assert q in n.procs && n.procs[q] == s.procs[q];
    }
  }

  lemma EffectToken(s: State, n: State, p: Proc)
    requires OneToken(s) && Effect(s, n, p)
    ensures OneToken(n)
  {
    forall r | r in n.channel ensures OneTokenOf(n, r) {
      EffectTokenOf(s, n, p, r);
    }
  }

  lemma NoCallers(s: State, r: Repo)
    requires GroupExact(s) && r in s.group && s.group[r] == 0
    ensures forall p | p in s.procs :: !IsCounted(s.procs[p], r)
  {
    forall p | p in s.procs ensures !IsCounted(s.procs[p], r) {
      assert p !in Callers(s, r);
    }
  }

  lemma CreateInv(s: State, n: State, p: Proc, name: string, r: Repo)
    requires OneToken(s) && GroupExact(s) && ReposKnown(s) && CreateRepo(s, n, p, name, r)
    ensures OneToken(n) && GroupExact(n)
  {
    forall q | q in s.procs ensures !HasToken(s.procs[q], r) && !IsCounted(s.procs[q], r) {
    }
    forall t | t in n.group ensures n.group[t] == |Callers(n, t)| {
      CallersMove(s, n, p, t);
      if t == r {
        assert Callers(s, r) == {};
      }
    }
    forall t | t in n.channel ensures OneTokenOf(n, t) {
      if t != r {
        EffectTokenOf(s, n, p, t);
      }
    }
  }

  /** Nobody works on repository `r`. */
  predicate NotWorkedOn(s: State, r: Repo) {
    forall q | q in s.procs && s.procs[q].Working? :: s.procs[q].repo != r
  }

  lemma ExcludedMove(s: State, n: State, p: Proc, pc: Pc)
    requires Excluded(s) && n.procs == s.procs[p := pc]
    requires pc.Working? ==> forall q | q in s.procs :: !IsCounted(s.procs[q], pc.repo)
    requires pc.GetAdded? || pc.Holding? ==> NotWorkedOn(s, pc.repo)
    ensures Excluded(n)
  {
  }

  lemma TokenNotWorkedOn(s: State, p: Proc, r: Repo)
    requires OneToken(s) && r in s.channel && At(s, p, GetToken(r))
    ensures NotWorkedOn(s, r)
  {
    assert OneTokenOf(s, r) && HasToken(s.procs[p], r);
  }

  lemma CountedNotWorkedOn(s: State, p: Proc, r: Repo)
    requires Excluded(s) && p in s.procs && IsCounted(s.procs[p], r)
    ensures NotWorkedOn(s, r)
  {
  }

  /** A caller joins the group only with the token in hand, and work starts only when the group is empty. */
  lemma StepExcluded(s: State, n: State, a: Action)
    requires Inv(s) && Step(s, n, a)
    ensures Excluded(n)
  {
    if !a.DoStop? {
      if a.DoWaitReturns? {
        NoCallers(s, a.r);
      } else if a.DoJoin? {
        TokenNotWorkedOn(s, a.p, a.r);
      } else if a.DoReturn? {
        CountedNotWorkedOn(s, a.p, a.r);
      } else if a.DoCreate? {
        assert NotWorkedOn(s, a.r);
      }
      ExcludedMove(s, n, a.p, n.procs[a.p]);
    }
  }

  lemma StepKnown(s: State, n: State, a: Action)
    requires ReposKnown(s) && s.channel.Keys == s.group.Keys && Step(s, n, a)
    ensures ReposKnown(n)
  {
  }

  lemma EffectInv(s: State, n: State, p: Proc)
    requires OneToken(s) && GroupExact(s) && Effect(s, n, p)
    ensures OneToken(n) && GroupExact(n)
  {
    EffectGroup(s, n, p);
    EffectToken(s, n, p);
  }

  lemma StopInv(s: State, n: State)
    requires Inv(s) && Stop(s, n)
    ensures Inv(n)
  {
    assert forall r :: Callers(n, r) == Callers(s, r);
  }

  lemma StepInv(s: State, n: State, a: Action)
    requires Inv(s) && Step(s, n, a)
    ensures Inv(n)
  {
    if a.DoStop? {
      StopInv(s, n);
    } else {
      StepExcluded(s, n, a);
      StepKnown(s, n, a);
      if a.DoCreate? {
        CreateInv(s, n, a.p, a.name, a.r);
      } else {
        assert NonNegative(s);
        StepEffect(s, n, a);
        EffectInv(s, n, a.p);
      }
    }
  }

  lemma {:induction false} RunInv(run: seq<State>, i: nat)
    requires IsRun(run) && i < |run|
    ensures Inv(run[i])
  {
    if i > 0 {
      RunInv(run, i - 1);
      assert Next(run[i - 1], run[i]);
      var a :| Step(run[i - 1], run[i], a);
      StepInv(run[i - 1], run[i], a);
    }
  }

  /* ---------- What the protocol guarantees ---------- */

  /** In every interleaving one token exists per repository, the count of the wait group is the number of
      callers, and from the moment the wait of a collection or close returns until it gives the token back,
      nobody holds the repository, nobody is about to, and nobody else works on it. */
  lemma ExclusiveWork(run: seq<State>, i: nat, p: Proc)
    requires IsRun(run) && i < |run| && p in run[i].procs && run[i].procs[p].Working?
    ensures var s := run[i];
            var r := s.procs[p].repo;
            && Known(s, r) && s.group[r] == 0 && s.channel[r] == 0
            && forall q | q in s.procs && q != p ::
                 !IsCounted(s.procs[q], r) && !HasToken(s.procs[q], r)
  {
    RunInv(run, i);
    var s := run[i];
    var r := s.procs[p].repo;
    assert HasToken(s.procs[p], r) && OneTokenOf(s, r);
    assert Callers(s, r) == {};
  }

  /** While a collection waits for the group to drain no caller can join it, and if it is not drained some
      caller holds the repository and can finish: the wait never depends on anybody who waits for the token. */
  lemma WaitDrains(run: seq<State>, i: nat, p: Proc)
    requires IsRun(run) && i < |run| && p in run[i].procs && run[i].procs[p].WorkToken?
    ensures var s := run[i];
            var r := s.procs[p].repo;
            && r in s.group
            && (forall q | q in s.procs :: s.procs[q] != GetToken(r) && s.procs[q] != GetAdded(r))
            && (s.group[r] != 0 ==> exists q :: At(s, q, Holding(r)) && exists n :: Done(s, n, q, r))
  {
    RunInv(run, i);
    var s := run[i];
    var r := s.procs[p].repo;
    assert HasToken(s.procs[p], r) && OneTokenOf(s, r);
    forall q | q in s.procs ensures s.procs[q] != GetToken(r) && s.procs[q] != GetAdded(r) {
      assert HasToken(GetToken(r), r) && HasToken(GetAdded(r), r);
    }
    if s.group[r] != 0 {
      var q := SomeCaller(s, r);
      DoneEnabled(s, q, r);
    }
  }

  lemma SomeCaller(s: State, r: Repo) returns (q: Proc)
    requires GroupExact(s) && r in s.group && s.group[r] != 0
    ensures q in s.procs && IsCounted(s.procs[q], r)
  {
    q :| q in Callers(s, r);
  }

  lemma DoneEnabled(s: State, q: Proc, r: Repo)
    requires At(s, q, Holding(r)) && Known(s, r)
    ensures exists n :: Done(s, n, q, r)
  {
    assert Done(s, Shift(s, q, Idle, r, 0, -1), q, r);
  }

  /** Giving the token back never blocks, and Done never takes the count below zero. */
  lemma NeverBlocks(run: seq<State>, i: nat, p: Proc)
    requires IsRun(run) && i < |run| && p in run[i].procs
    ensures var s := run[i];
            && (s.procs[p].GetAdded? || s.procs[p].Working? ==>
                  s.procs[p].repo in s.channel && s.channel[s.procs[p].repo] == 0)
            && (s.procs[p].Holding? ==> s.procs[p].repo in s.group && s.group[s.procs[p].repo] >= 1)
  {
    RunInv(run, i);
    var s := run[i];
    var pc := s.procs[p];
    if pc.GetAdded? || pc.Working? {
      assert HasToken(pc, pc.repo) && OneTokenOf(s, pc.repo);
    }
    if pc.Holding? {
      assert p in Callers(s, pc.repo);
    }
  }

  ghost predicate CanStep(s: State, p: Proc) {
    exists a: Action, n :: !a.DoStop? && !a.DoCreate? && a.p == p && Step(s, n, a)
  }

  /** The process at `pc` can finish its work, and this is what it leaves. */
  ghost predicate CanFinish(s: State, p: Proc, r: Repo, work: Work) {
    exists n :: FinishWork(s, n, p, r, work) && Known(n, r) && n.channel[r] == 1 &&
                At(n, p, if work == Collect then Idle else Forgetting(r))
  }

  lemma FinishEnabled(s: State, p: Proc, r: Repo, work: Work)
    requires At(s, p, Working(r, work)) && Known(s, r) && s.channel[r] == 0
    ensures CanFinish(s, p, r, work) && CanStep(s, p)
  {
    var n := Shift(s, p, if work == Shutdown then Forgetting(r) else Idle, r, 1, 0);
    assert FinishWork(s, n, p, r, work) && Step(s, n, DoFinishWork(p, r, work));
  }

  /** Work that is done can be finished at once: the token goes back, a collection ends, and a close goes on to drop
      the repository. */
  lemma WorkFinishes(run: seq<State>, i: nat, p: Proc)
    requires IsRun(run) && i < |run| && p in run[i].procs && run[i].procs[p].Working?
    ensures CanFinish(run[i], p, run[i].procs[p].repo, run[i].procs[p].work) && CanStep(run[i], p)
  {
    ExclusiveWork(run, i, p);
    FinishEnabled(run[i], p, run[i].procs[p].repo, run[i].procs[p].work);
  }

  lemma DoneSteps(s: State, q: Proc, r: Repo)
    requires At(s, q, Holding(r)) && Known(s, r)
    ensures CanStep(s, q)
  {
    assert Step(s, Shift(s, q, Idle, r, 0, -1), DoDone(q, r));
  }

  lemma WaitSteps(run: seq<State>, i: nat, p: Proc)
    requires IsRun(run) && i < |run| && p in run[i].procs && run[i].procs[p].WorkToken?
    ensures var s := run[i];
            CanStep(s, p) || exists q :: At(s, q, Holding(s.procs[p].repo)) && CanStep(s, q)
  {
    var s := run[i];
    var r, work := s.procs[p].repo, s.procs[p].work;
    RunInv(run, i);
    WaitDrains(run, i, p);
    if s.group[r] == 0 {
      assert Step(s, Move(s, p, Working(r, work)), DoWaitReturns(p, r, work));
    } else {
      var q :| At(s, q, Holding(r));
      DoneSteps(s, q, r);
    }
  }

  /** No deadlock: a process that has the token, holds the repository or works on it can go on at once, except for one
      that waits for the group to drain, and then some holder can finish. */
  lemma NoDeadlock(run: seq<State>, i: nat, p: Proc)
    requires IsRun(run) && i < |run| && p in run[i].procs
    requires var pc := run[i].procs[p];
             pc.GetToken? || pc.GetAdded? || pc.Holding? || pc.WorkToken? || pc.Working? || pc.Forgetting?
    ensures var s := run[i];
            CanStep(s, p) ||
            (s.procs[p].WorkToken? && exists q :: At(s, q, Holding(s.procs[p].repo)) && CanStep(s, q))
  {
    var s := run[i];
    RunInv(run, i);
    match s.procs[p]
    case GetToken(r) => assert Step(s, Shift(s, p, GetAdded(r), r, 0, 1), DoJoin(p, r));
    case GetAdded(r) =>
      NeverBlocks(run, i, p);
      assert Step(s, Shift(s, p, Holding(r), r, 1, 0), DoReturn(p, r));
    case Holding(r) => DoneSteps(s, p, r);
    case Working(_, _) => WorkFinishes(run, i, p);
    case Forgetting(r) => assert Step(s, Move(s, p, Idle).(repos := s.repos - {""}), DoForget(p, r, ""));
    case WorkToken(_, _) => WaitSteps(run, i, p);
  }

  /** A token in the channel can be taken by any request or work that waits for it. */
  lemma TokenTaken(run: seq<State>, i: nat, p: Proc)
    requires IsRun(run) && i < |run| && p in run[i].procs
    requires run[i].procs[p].GetWaiting? || run[i].procs[p].WorkWaiting?
    requires run[i].procs[p].repo in run[i].channel && run[i].channel[run[i].procs[p].repo] == 1
    ensures exists a: Action, n :: (a.DoTake? || a.DoTakeWork?) && a.p == p && Step(run[i], n, a) &&
                           n.channel[run[i].procs[p].repo] == 0
  {
    var s := run[i];
    var r := s.procs[p].repo;
    RunInv(run, i);
    match s.procs[p]
    case GetWaiting(_) => assert Step(s, Shift(s, p, GetToken(r), r, -1, 0), DoTake(p, r));
    case WorkWaiting(_, work) => assert Step(s, Shift(s, p, WorkToken(r, work), r, -1, 0), DoTakeWork(p, r, work));
  }

  /** Once the store is stopped it stays stopped, and no new request gets as far as a repository. */
  lemma StoppedRefuses(s: State, n: State, a: Action, p: Proc)
    requires Step(s, n, a) && s.stopped
    requires p !in s.procs || s.procs[p] == Idle
    ensures n.stopped && n.channel.Keys == s.channel.Keys
    ensures p in n.procs ==> n.procs[p].Idle? || n.procs[p].WorkWaiting?
  {
  }

  /** Until then a request for a repository waits for the one that is registered under the name, or creates one, with
      its token in the channel and itself as the only caller. */
  lemma RequestStarts(s: State, p: Proc, name: string, r: Repo)
    requires At(s, p, Idle) && !s.stopped && r !in s.channel
    ensures name in s.repos ==> exists n :: FindRepo(s, n, p, name) && At(n, p, GetWaiting(s.repos[name]))
    ensures name !in s.repos ==>
              exists n :: CreateRepo(s, n, p, name, r) && At(n, p, Holding(r)) && name in n.repos &&
                          n.repos[name] == r && Known(n, r) && n.channel[r] == 1 && n.group[r] == 1
  {
    if name in s.repos {
      assert FindRepo(s, Move(s, p, GetWaiting(s.repos[name])), p, name);
    } else {
      var n := Move(s, p, Holding(r)).(
        repos := s.repos[name := r], channel := s.channel[r := 1], group := s.group[r := 1]);
      assert CreateRepo(s, n, p, name, r);
    }
  }
}
