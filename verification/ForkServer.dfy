/** The fork-server protocol: the fuzzer, its timer, the server in the target, and the children, as a
    transition system whose steps interleave freely. Process numbers start at 1 and are not reused. */
module ForkServer {
  const SIGKILL := 9

  const CYCLES := 0x1_0000_0000

  /** A status as the wait system call reports it. */
  datatype Wait = Exited(code: nat) | Signaled(sig: nat) | Suspended

  datatype Proc = Running | Stopped(reported: bool) | Zombie(wait: Wait) | Gone

  /** Where a child is with respect to its persistent loop. */
  datatype Loop = BeforeLoop | InLoop(left: nat) | AfterLoop

  datatype Child = Child(proc: Proc, traces: bool, doomed: bool, loop: Loop)

  datatype Request = Request(killed: bool, tracing: bool)

  datatype Reply = Pid(pid: nat) | Status(of: nat, wait: Wait)

  datatype FuzzerAt = Ready | Zeroed | AwaitPid | HavePid | AwaitStatus | HaveStatus(wait: Wait) | Cleared | Disarmed

  datatype ServerAt =
    | WaitRequest
    | Decide(req: Request)
    | Reap(tracing: bool)
    | ReapKilled(tracing: bool)
    | Spawn(tracing: bool)
    | SendPid(tracing: bool)
    | WaitChild(tracing: bool)
    | SendStatus(tracing: bool, wait: Wait)
    | GaveUp

  datatype Fuzzer = Fuzzer(at: FuzzerAt, childPid: nat, timedOut: bool, prevTimedOut: bool, tracing: bool, armed: bool)

  datatype Server = Server(at: ServerAt, childPid: nat, childStopped: bool, prevTracing: bool)

  /** Apart from the actors: the two pipes, the processes, the shared map of traced blocks. Kept for the
      statements only: all replies so far, the blocks run for the present request since the slate was last
      wiped, and the map as it was when the request was made. */
  datatype State = State(
    f: Fuzzer, s: Server, ctl: seq<Request>, st: seq<Reply>, procs: seq<Child>, traceBb: set<nat>,
    replies: seq<Reply>, ran: set<nat>, before: set<nat>)

  datatype Config = Config(persistent: bool, maxCnt: nat)

  function Init(): State
  {
    State(Fuzzer(Ready, 0, false, false, false, false), Server(WaitRequest, 0, false, false), [], [], [], {}, [], {},
          {})
  }

  predicate HasPid(x: State, p: nat) { 0 < p <= |x.procs| }

  function Kid(x: State, p: nat): Child
    requires HasPid(x, p)
  {
    x.procs[p - 1]
  }

  function SetKid(x: State, p: nat, c: Child): State
    requires HasPid(x, p)
  {
    x.(procs := x.procs[p - 1 := c])
  }

  /** The effect of sending the kill signal: live processes are doomed, others do not notice. */
  function Kill(x: State, p: nat): State
  {
    if HasPid(x, p) && (Kid(x, p).proc.Running? || Kid(x, p).proc.Stopped?) then
      SetKid(x, p, Kid(x, p).(doomed := true))
    else x
  }

  // ----- steps -----------------------------------------------------------------------------------

  datatype Action =
    | Zero(tracing: bool) | Ask | ReadPid | Arm | ReadStatus | Clear | Disarm | Finish
    | Alarm
    | Serve
    | Run(pid: nat, block: nat) | CallLoop(pid: nat) | Die(pid: nat, wait: Wait) | Perish(pid: nat)

  predicate FuzzerCan(x: State, a: Action)
  {
    match a
    case Zero(_) => x.f.at.Ready?
    case Ask => x.f.at.Zeroed?
    case ReadPid => x.f.at.AwaitPid? && x.st != []
    case Arm => x.f.at.HavePid?
    case ReadStatus => x.f.at.AwaitStatus? && x.st != []
    case Clear => x.f.at.HaveStatus?
    case Disarm => x.f.at.Cleared?
    case Finish => x.f.at.Disarmed?
    case _ => false
  }

  function FuzzerStep(x: State, a: Action): State
    requires FuzzerCan(x, a)
  {
    match a
    case Zero(tracing) =>
      x.(f := x.f.(at := Zeroed, timedOut := false, tracing := tracing), traceBb := if tracing then {} else x.traceBb,
         ran := {}, before := x.traceBb)
    case Ask => x.(f := x.f.(at := AwaitPid), ctl := x.ctl + [Request(x.f.prevTimedOut, x.f.tracing)])
    case ReadPid => x.(f := x.f.(at := HavePid, childPid := if x.st[0].Pid? then x.st[0].pid else 0), st := x.st[1..])
    case Arm => x.(f := x.f.(at := AwaitStatus, armed := true))
    case ReadStatus =>
      x.(f := x.f.(at := HaveStatus(if x.st[0].Status? then x.st[0].wait else Exited(x.st[0].pid))), st := x.st[1..])
    case Clear => x.(f := x.f.(at := Cleared, childPid := if x.f.at.wait.Suspended? then x.f.childPid else 0))
    case Disarm => x.(f := x.f.(at := Disarmed, armed := false))
    case Finish => x.(f := x.f.(at := Ready, prevTimedOut := x.f.timedOut))
  }

  /** The handler of the timer, which fires at most once after it was armed. */
  function AlarmStep(x: State): State
  {
    var y := x.(f := x.f.(armed := false));
    if x.f.childPid > 0 then Kill(y.(f := y.f.(timedOut := true)), x.f.childPid) else y
  }

  predicate ServerCan(c: Config, x: State)
  {
    match x.s.at
    case WaitRequest => x.ctl != []
    case Reap(_) => HasPid(x, x.s.childPid) && Kid(x, x.s.childPid).proc.Zombie?
    case ReapKilled(_) => HasPid(x, x.s.childPid) && Kid(x, x.s.childPid).proc.Zombie?
    case WaitChild(_) =>
      HasPid(x, x.s.childPid) &&
      (Kid(x, x.s.childPid).proc.Zombie? || (c.persistent && Kid(x, x.s.childPid).proc == Stopped(false)))
    case GaveUp => false
    case _ => true
  }

  function ServerStep(c: Config, x: State): State
    requires ServerCan(c, x)
  {
    var s, p := x.s, x.s.childPid;
    match s.at
    case WaitRequest => x.(s := s.(at := Decide(x.ctl[0])), ctl := x.ctl[1..])
    case Decide(req) =>
      if s.childStopped && req.killed then
        x.(s := s.(at := Reap(req.tracing), childStopped := false))
      else if s.childStopped && req.tracing != s.prevTracing then
        Kill(x.(s := s.(at := ReapKilled(req.tracing))), p)
      else
        x.(s := s.(at := Spawn(req.tracing)))
    case Reap(tracing) =>
      SetKid(x.(s := s.(at := Spawn(tracing))), p, Kid(x, p).(proc := Gone))
    case ReapKilled(tracing) =>
      var y := SetKid(x, p, Kid(x, p).(proc := Gone));
      if Kid(x, p).proc.wait.Signaled? then y.(s := s.(at := Spawn(tracing), childStopped := false))
      else y.(s := s.(at := GaveUp))
    case Spawn(tracing) =>
      if !s.childStopped then
        x.(s := s.(at := SendPid(tracing), childPid := |x.procs| + 1),
           procs := x.procs + [Child(Running, tracing, false, BeforeLoop)])
      else
        var y := x.(s := s.(at := SendPid(tracing), childStopped := false));
        if HasPid(x, p) && Kid(x, p).proc.Stopped? then SetKid(y, p, Kid(x, p).(proc := Running)) else y
    case SendPid(tracing) =>
      x.(s := s.(at := WaitChild(tracing)), st := x.st + [Pid(p)], replies := x.replies + [Pid(p)])
    case WaitChild(tracing) =>
      if Kid(x, p).proc.Zombie? then
        SetKid(x.(s := s.(at := SendStatus(tracing, Kid(x, p).proc.wait))), p, Kid(x, p).(proc := Gone))
      else
        SetKid(x.(s := s.(at := SendStatus(tracing, Suspended))), p, Kid(x, p).(proc := Stopped(true)))
    case SendStatus(tracing, w) =>
      x.(s := s.(at := WaitRequest, childStopped := s.childStopped || w.Suspended?, prevTracing := tracing),
         st := x.st + [Status(p, w)], replies := x.replies + [Status(p, w)])
  }

  predicate ChildCan(x: State, a: Action)
  {
    match a
    case Run(p, _) => HasPid(x, p) && Kid(x, p).proc.Running?
    case CallLoop(p) => HasPid(x, p) && Kid(x, p).proc.Running? && !Kid(x, p).loop.AfterLoop?
    case Die(p, w) => HasPid(x, p) && Kid(x, p).proc.Running? && !w.Suspended?
    case Perish(p) => HasPid(x, p) && Kid(x, p).doomed && (Kid(x, p).proc.Running? || Kid(x, p).proc.Stopped?)
    case _ => false
  }

  function ChildStep(c: Config, x: State, a: Action): State
    requires ChildCan(x, a)
  {
    var k := Kid(x, a.pid);
    match a
    case Run(p, b) =>
      x.(ran := x.ran + {b}, traceBb := if k.traces then x.traceBb + {b} else x.traceBb)
    case CallLoop(p) =>
      (match k.loop
       case BeforeLoop =>
         var y := SetKid(x, p, k.(loop := InLoop(c.maxCnt)));
         if c.persistent then y.(ran := {}, traceBb := if k.traces then {} else x.traceBb) else y
       case InLoop(left) =>
         var left' := (left + CYCLES - 1) % CYCLES;
         if c.persistent && left' != 0 then SetKid(x, p, k.(proc := Stopped(false), loop := InLoop(left')))
         else SetKid(x, p, k.(loop := AfterLoop))
       case AfterLoop => x)
    case Die(p, w) => SetKid(x, p, k.(proc := Zombie(w)))
    case Perish(p) => SetKid(x, p, k.(proc := Zombie(Signaled(SIGKILL))))
  }

  predicate Can(c: Config, x: State, a: Action)
  {
    FuzzerCan(x, a) || (a.Alarm? && x.f.armed) || (a.Serve? && ServerCan(c, x)) || ChildCan(x, a)
  }

  function Next(c: Config, x: State, a: Action): State
    requires Can(c, x, a)
  {
    if a.Alarm? then AlarmStep(x)
    else if a.Serve? then ServerStep(c, x)
    else if FuzzerCan(x, a) then FuzzerStep(x, a)
    else ChildStep(c, x, a)
  }

  /** A run: states and the actions between them, in any interleaving. */
  predicate IsRun(c: Config, xs: seq<State>, acts: seq<Action>)
  {
    |xs| == |acts| + 1 && xs[0] == Init() && forall i :: 0 <= i < |acts| ==> Leads(c, xs[i], acts[i], xs[i + 1])
  }

  predicate Leads(c: Config, y: State, a: Action, x: State) { Can(c, y, a) && x == Next(c, y, a) }

  // ----- the invariant ---------------------------------------------------------------------------

  /** Live children other than the server's present one do not exist. */
  predicate OnlyChild(x: State)
  {
    x.s.childPid <= |x.procs| &&
    forall i :: 0 <= i < |x.procs| && i + 1 != x.s.childPid ==> x.procs[i].proc.Gone?
  }

  predicate NoChild(x: State) { x.s.childPid == 0 || (HasPid(x, x.s.childPid) && Kid(x, x.s.childPid).proc.Gone?) }

  /** The present child stopped and the stop was reported, or it was killed after that. */
  predicate Parked(x: State, traces: bool)
  {
    HasPid(x, x.s.childPid) &&
    var k := Kid(x, x.s.childPid);
    k.traces == traces && (k.proc == Stopped(true) || (k.doomed && k.proc == Zombie(Signaled(SIGKILL))))
  }

  predicate Doomed(x: State) { HasPid(x, x.s.childPid) && Kid(x, x.s.childPid).doomed }

  predicate Busy(x: State, traces: bool)
  {
    HasPid(x, x.s.childPid) &&
    var k := Kid(x, x.s.childPid);
    k.traces == traces && !k.proc.Gone? && k.proc != Stopped(true) && k.proc != Zombie(Suspended)
  }

  /** What the server knows of its child, by where it is. A child is doomed just when the timer has shot at
      it: in the present run, or, while the next request is under way, in the one before. */
  predicate ServerInv(x: State, shot: bool)
  {
    match x.s.at
    case WaitRequest => if x.s.childStopped then Parked(x, x.s.prevTracing) && (shot <==> Doomed(x)) else NoChild(x)
    case Decide(req) => if x.s.childStopped then Parked(x, x.s.prevTracing) && (shot <==> Doomed(x)) else NoChild(x)
    case Reap(_) => !x.s.childStopped && Parked(x, x.s.prevTracing) && Doomed(x)
    case ReapKilled(_) => x.s.childStopped && Parked(x, x.s.prevTracing) && Doomed(x)
    case Spawn(tracing) =>
      if x.s.childStopped then Parked(x, tracing) && !Doomed(x) else NoChild(x)
    case SendPid(tracing) => !x.s.childStopped && Busy(x, tracing) && !Doomed(x)
    case WaitChild(tracing) =>
      !x.s.childStopped && Busy(x, tracing) && (Doomed(x) ==> shot)
        && (shot ==> Doomed(x) || Kid(x, x.s.childPid).proc.Zombie?)
    case SendStatus(tracing, w) =>
      !x.s.childStopped && (if w.Suspended? then Parked(x, tracing) && (shot <==> Doomed(x)) else NoChild(x))
    case GaveUp => false
  }

  /** How far the server is with the present request, from the two pipes and its own place. */
  predicate Idle(x: State) { x.s.at.WaitRequest? && x.ctl == [] && x.st == [] }

  predicate Early(x: State)
  {
    x.st == [] &&
    match x.s.at
    case WaitRequest => x.ctl == [Request(x.f.prevTimedOut, x.f.tracing)]
    case Decide(req) => x.ctl == [] && req == Request(x.f.prevTimedOut, x.f.tracing)
    case Reap(tracing) => x.ctl == [] && tracing == x.f.tracing
    case ReapKilled(tracing) => x.ctl == [] && tracing == x.f.tracing
    case Spawn(tracing) => x.ctl == [] && tracing == x.f.tracing
    case SendPid(tracing) => x.ctl == [] && tracing == x.f.tracing
    case _ => false
  }

  predicate Late(x: State, ahead: seq<Reply>)
  {
    x.ctl == [] &&
    match x.s.at
    case WaitChild(tracing) => x.st == ahead && tracing == x.f.tracing
    case SendStatus(tracing, _) => x.st == ahead && tracing == x.f.tracing
    case WaitRequest =>
      x.s.prevTracing == x.f.tracing &&
      |x.st| == |ahead| + 1 && x.st[..|ahead|] == ahead && x.st[|ahead|].Status? && x.st[|ahead|].of == x.s.childPid &&
      x.st[|ahead|].wait.Suspended? == x.s.childStopped
    case _ => false
  }

  predicate FuzzerInv(x: State)
  {
    (x.f.armed ==> x.f.at.AwaitStatus? || x.f.at.HaveStatus? || x.f.at.Cleared?) &&
    match x.f.at
    case Ready => Idle(x)
    case Zeroed => Idle(x) && !x.f.timedOut
    case AwaitPid => !x.f.timedOut && (Early(x) || Late(x, [Pid(x.s.childPid)]))
    case HavePid => !x.f.timedOut && x.f.childPid == x.s.childPid && Late(x, [])
    case AwaitStatus => x.f.childPid == x.s.childPid && Late(x, [])
    case HaveStatus(w) =>
      Idle(x) && x.f.childPid == x.s.childPid && x.s.prevTracing == x.f.tracing && w.Suspended? == x.s.childStopped
    case Cleared =>
      Idle(x) && x.s.prevTracing == x.f.tracing && x.f.childPid == if x.s.childStopped then x.s.childPid else 0
    case Disarmed => Idle(x) && x.s.prevTracing == x.f.tracing
  }

  /** Whether the timer has shot at the child the server has in mind. */
  predicate Shot(x: State)
  {
    match x.f.at
    case Ready => x.f.prevTimedOut
    case Zeroed => x.f.prevTimedOut
    case AwaitPid => if Early(x) then x.f.prevTimedOut else x.f.timedOut
    case _ => x.f.timedOut
  }

  /** Replies come in pairs; the last pair may lack its second half while the server attends to the child. */
  predicate Paired(x: State)
  {
    |x.replies| % 2 == (if x.s.at.WaitChild? || x.s.at.SendStatus? then 1 else 0) &&
    (|x.replies| % 2 == 1 ==> x.replies[|x.replies| - 1] == Pid(x.s.childPid)) &&
    Alternate(x.replies)
  }

  predicate Alternate(replies: seq<Reply>)
  {
    forall i :: 0 <= i < |replies| ==> InTurn(replies, i)
  }

  predicate InTurn(replies: seq<Reply>, i: nat)
    requires i < |replies|
  {
    if i % 2 == 0 then replies[i].Pid? else replies[i].Status? && replies[i - 1] == Pid(replies[i].of)
  }

  /** While a request that traces is served, the shared map holds what ran for it; otherwise it is left alone. */
  predicate MapInv(x: State)
  {
    !x.f.at.Ready? ==> x.traceBb == if x.f.tracing then x.ran else x.before
  }

  predicate Inv(x: State)
  {
    Control(x) && Paired(x) && MapInv(x)
  }

  predicate Control(x: State) { OnlyChild(x) && FuzzerInv(x) && ServerInv(x, Shot(x)) }

  lemma FuzzerStarts(x: State, a: Action)
    requires Control(x) && FuzzerCan(x, a) && (a.Zero? || a.Ask? || a.ReadPid? || a.Arm?)
    ensures Control(FuzzerStep(x, a))
  {
  }

  lemma FuzzerEnds(x: State, a: Action)
    requires Control(x) && FuzzerCan(x, a) && (a.ReadStatus? || a.Clear? || a.Disarm? || a.Finish?)
    ensures Control(FuzzerStep(x, a))
  {
  }

  lemma AlarmKeeps(x: State)
    requires Control(x) && x.f.armed
    ensures Control(AlarmStep(x))
  {
    if x.f.childPid == 0 {
      AlarmMisses(x);
    } else {
      AlarmShoots(x);
    }
    hide Control, AlarmStep;
  }

  lemma AlarmMisses(x: State)
    requires Control(x) && x.f.armed && x.f.childPid == 0
    ensures Control(AlarmStep(x))
  {
  }

  lemma AlarmShoots(x: State)
    requires Control(x) && x.f.armed && x.f.childPid > 0
    ensures Control(AlarmStep(x))
  {
  }

  lemma ServerDecides(c: Config, x: State)
    requires Control(x) && ServerCan(c, x)
    requires x.s.at.WaitRequest? || x.s.at.Decide? || x.s.at.Reap? || x.s.at.ReapKilled?
    ensures Control(ServerStep(c, x))
  {
  }

  lemma ServerSpawns(c: Config, x: State)
    requires Control(x) && ServerCan(c, x) && (x.s.at.Spawn? || x.s.at.SendPid?)
    ensures Control(ServerStep(c, x))
  {
  }

  lemma ServerReports(c: Config, x: State)
    requires Control(x) && ServerCan(c, x) && (x.s.at.WaitChild? || x.s.at.SendStatus?)
    ensures Control(ServerStep(c, x))
  {
    if x.s.at.SendStatus? {
      StatusKeeps(c, x);
    } else {
      WaitKeeps(c, x);
    }
    hide Control, ServerStep;
  }

  lemma StatusKeeps(c: Config, x: State)
    requires Control(x) && ServerCan(c, x) && x.s.at.SendStatus?
    ensures Control(ServerStep(c, x))
  {
  }

  lemma WaitKeeps(c: Config, x: State)
    requires Control(x) && ServerCan(c, x) && x.s.at.WaitChild?
    ensures Control(ServerStep(c, x))
  {
  }

  lemma ChildRuns(c: Config, x: State, a: Action)
    requires Control(x) && ChildCan(x, a) && a.Run?
    ensures Control(ChildStep(c, x, a))
  {
  }

  lemma ChildEntersLoop(c: Config, x: State, a: Action)
    requires Control(x) && ChildCan(x, a) && a.CallLoop? && Kid(x, a.pid).loop.BeforeLoop?
    ensures Control(ChildStep(c, x, a))
  {
  }

  lemma ChildLoops(c: Config, x: State, a: Action)
    requires Control(x) && ChildCan(x, a) && a.CallLoop? && !Kid(x, a.pid).loop.BeforeLoop?
    ensures Control(ChildStep(c, x, a))
  {
  }

  lemma ChildEnds(c: Config, x: State, a: Action)
    requires Control(x) && ChildCan(x, a) && (a.Die? || a.Perish?)
    ensures Control(ChildStep(c, x, a))
  {
  }

  lemma ControlKept(c: Config, x: State, a: Action)
    requires Control(x) && Can(c, x, a)
    ensures Control(Next(c, x, a))
  {
    hide Control, FuzzerStep, AlarmStep, ServerStep, ChildStep;
    if a.Alarm? {
      AlarmKeeps(x);
    } else if a.Serve? {
      if x.s.at.Spawn? || x.s.at.SendPid? {
        ServerSpawns(c, x);
      } else if x.s.at.WaitChild? || x.s.at.SendStatus? {
        ServerReports(c, x);
      } else {
        ServerDecides(c, x);
      }
    } else if a.Zero? || a.Ask? || a.ReadPid? || a.Arm? {
      FuzzerStarts(x, a);
    } else if FuzzerCan(x, a) {
      FuzzerEnds(x, a);
    } else if a.Run? {
      ChildRuns(c, x, a);
    } else if a.CallLoop? {
      if Kid(x, a.pid).loop.BeforeLoop? {
        ChildEntersLoop(c, x, a);
      } else {
        ChildLoops(c, x, a);
      }
    } else {
      ChildEnds(c, x, a);
    }
  }

  lemma AlternateMore(replies: seq<Reply>, r: Reply)
    requires Alternate(replies)
    requires if |replies| % 2 == 0 then r.Pid? else r.Status? && replies[|replies| - 1] == Pid(r.of)
    ensures Alternate(replies + [r])
  {
    var more := replies + [r];
    forall i | 0 <= i < |more|
      ensures InTurn(more, i)
    {
      if i < |replies| {
        assert InTurn(replies, i);
      } else {
        assert i == |replies| && more[i] == r;
      }
    }
  }

  lemma PairedKept(c: Config, x: State, a: Action)
    requires Control(x) && Paired(x) && Can(c, x, a)
    ensures Paired(Next(c, x, a))
  {
    hide Alternate;
    if a.Serve? && (x.s.at.SendPid? || x.s.at.SendStatus?) {
      var r := if x.s.at.SendPid? then Pid(x.s.childPid) else Status(x.s.childPid, x.s.at.wait);
      AlternateMore(x.replies, r);
      assert Next(c, x, a).replies == x.replies + [r];
    }
  }

  lemma MapKept(c: Config, x: State, a: Action)
    requires Control(x) && MapInv(x) && Can(c, x, a)
    ensures MapInv(Next(c, x, a))
  {
    hide Paired, Shot;
  }

  lemma InvKept(c: Config, x: State, a: Action, y: State)
    requires Inv(x) && Leads(c, x, a, y)
    ensures Inv(y)
  {
    hide Control, Paired, MapInv, Next, Can;
    ControlKept(c, x, a);
    PairedKept(c, x, a);
    MapKept(c, x, a);
  }

  /** Whatever the interleaving, the invariant holds. */
  lemma {:induction false} AlwaysInv(c: Config, xs: seq<State>, acts: seq<Action>, i: nat)
    requires IsRun(c, xs, acts) && i < |xs|
    ensures Inv(xs[i])
    decreases i
  {
    if i > 0 {
      hide Inv, Leads;
      AlwaysInv(c, xs, acts, i - 1);
      InvKept(c, xs[i - 1], acts[i - 1], xs[i - 1 + 1]);
    }
  }

  // ----- what that means for every run ------------------------------------------------------------

  predicate Unreaped(x: State, p: nat) { HasPid(x, p) && !Kid(x, p).proc.Gone? }

  lemma AtMostOneUnreapedChild(c: Config, xs: seq<State>, acts: seq<Action>, i: nat, p: nat, q: nat)
    requires IsRun(c, xs, acts) && i < |xs| && Unreaped(xs[i], p) && Unreaped(xs[i], q)
    ensures p == q == xs[i].s.childPid
  {
    AlwaysInv(c, xs, acts, i);
    assert xs[i].procs[p - 1] == Kid(xs[i], p) && xs[i].procs[q - 1] == Kid(xs[i], q);
  }

  /** Where the server sends the continue signal, its child is stopped and not about to die; so the child runs on. */
  lemma ContinueReachesALiveStoppedChild(c: Config, xs: seq<State>, acts: seq<Action>, i: nat)
    requires IsRun(c, xs, acts) && i < |xs| && xs[i].s.at.Spawn? && xs[i].s.childStopped
    ensures var x := xs[i];
            && HasPid(x, x.s.childPid) && Kid(x, x.s.childPid).proc == Stopped(true) && !Kid(x, x.s.childPid).doomed
            && Kid(ServerStep(c, x), x.s.childPid).proc == Running
  {
    AlwaysInv(c, xs, acts, i);
  }

  /** Only the child that serves the present request runs, and it traces just when the request says so. The
      shared map is what it was before the request if that did not ask for blocks, and else holds exactly the
      blocks run since it was last wiped: by the request, or by a persistent child on its first way into the
      loop, which forgets the blocks before it. */
  lemma ChildTracesAsAsked(c: Config, xs: seq<State>, acts: seq<Action>, i: nat, p: nat)
    requires IsRun(c, xs, acts) && i < |xs|
    ensures var x := xs[i];
            && (HasPid(x, p) && Kid(x, p).proc.Running? ==>
                  p == x.s.childPid && Kid(x, p).traces == x.f.tracing &&
                  (x.f.at.AwaitPid? || x.f.at.HavePid? || x.f.at.AwaitStatus?))
            && (!x.f.at.Ready? ==> x.traceBb == if x.f.tracing then x.ran else x.before)
  {
    AlwaysInv(c, xs, acts, i);
    if HasPid(xs[i], p) {
      assert xs[i].procs[p - 1] == Kid(xs[i], p);
    }
  }

  /** The replies of the server are a process number and a status of that very process, in turn; the fuzzer
      never takes one for the other, and the status it reads is about the process it knows of. */
  lemma RepliesAlternate(c: Config, xs: seq<State>, acts: seq<Action>, i: nat)
    requires IsRun(c, xs, acts) && i < |xs|
    ensures var x := xs[i];
            && Alternate(x.replies)
            && (x.f.at.AwaitPid? && x.st != [] ==> x.st[0] == Pid(x.s.childPid))
            && (x.f.at.AwaitStatus? && x.st != [] ==> |x.st| == 1 && x.st[0].Status? && x.st[0].of == x.f.childPid)
  {
    AlwaysInv(c, xs, acts, i);
    var x := xs[i];
    if x.f.at.AwaitStatus? && x.st != [] {
      assert x.st == x.st[..0] + [x.st[0]];
    }
    if x.f.at.AwaitPid? && x.st != [] {
      assert x.st[..1] == [x.st[0]];
    }
  }

  /** A request tells the truth about the child that is still there: it says killed exactly when the timer has
      shot at it. So waiting for a child that is written off ends, and a child that is not written off lives. */
  lemma KilledBitIsExact(c: Config, xs: seq<State>, acts: seq<Action>, i: nat)
    requires IsRun(c, xs, acts) && i < |xs| && xs[i].s.childStopped && xs[i].s.at.Decide?
    ensures xs[i].s.at.req.killed <==> Doomed(xs[i])
  {
    AlwaysInv(c, xs, acts, i);
  }

  /** Only persistent children stop. */
  predicate StopsArePersistent(c: Config, x: State)
  {
    forall i :: 0 <= i < |x.procs| && x.procs[i].proc.Stopped? ==> c.persistent
  }

  lemma {:induction false} AlwaysPersistentStops(c: Config, xs: seq<State>, acts: seq<Action>, i: nat)
    requires IsRun(c, xs, acts) && i < |xs|
    ensures StopsArePersistent(c, xs[i])
    decreases i
  {
    if i > 0 {
      AlwaysPersistentStops(c, xs, acts, i - 1);
      assert Leads(c, xs[i - 1], acts[i - 1], xs[i - 1 + 1]);
    }
  }

  /** The present child can take a step of its own: it runs, or it is about to die. */
  predicate ChildMoves(x: State)
  {
    HasPid(x, x.s.childPid) && var k := Kid(x, x.s.childPid); k.proc.Running? || (k.proc.Stopped? && k.doomed)
  }

  /** No deadlock, and the server never gives up: as long as a request is under way, the fuzzer or the server
      can go on, or else they wait for a child that runs or is about to die. */
  lemma NeverStuck(c: Config, xs: seq<State>, acts: seq<Action>, i: nat)
    requires IsRun(c, xs, acts) && i < |xs|
    ensures !xs[i].s.at.GaveUp?
    ensures (exists a :: FuzzerCan(xs[i], a)) || ServerCan(c, xs[i]) || ChildMoves(xs[i])
  {
    AlwaysInv(c, xs, acts, i);
    AlwaysPersistentStops(c, xs, acts, i);
    var x := xs[i];
    match x.f.at
    case Ready => assert FuzzerCan(x, Zero(true));
    case Zeroed => assert FuzzerCan(x, Ask);
    case HavePid => assert FuzzerCan(x, Arm);
    case HaveStatus(_) => assert FuzzerCan(x, Clear);
    case Cleared => assert FuzzerCan(x, Disarm);
    case Disarmed => assert FuzzerCan(x, Finish);
    case AwaitPid =>
      if x.st != [] {
        assert FuzzerCan(x, ReadPid);
      }
    case AwaitStatus =>
      if x.st != [] {
        assert FuzzerCan(x, ReadStatus);
      }
  }

  // ----- the statuses are true -------------------------------------------------------------------

  /** What became of a process last: that it stopped, or how it ended. */
  datatype Story = NothingYet | Happened(wait: Wait)

  /** The story of process p after action a, which led to state y. */
  function Continued(y: State, a: Action, p: nat, story: Story): Story
  {
    match a
    case Die(q, w) => if q == p then Happened(w) else story
    case Perish(q) => if q == p then Happened(Signaled(SIGKILL)) else story
    case CallLoop(q) => if q == p && HasPid(y, p) && Kid(y, p).proc.Stopped? then Happened(Suspended) else story
    case _ => story
  }

  function StoryOf(xs: seq<State>, acts: seq<Action>, i: nat, p: nat): Story
    requires |xs| == |acts| + 1 && i < |xs|
  {
    if i == 0 then NothingYet else Continued(xs[i], acts[i - 1], p, StoryOf(xs, acts, i - 1, p))
  }

  predicate Fits(x: State, p: nat, story: Story)
  {
    if !HasPid(x, p) then story == NothingYet
    else
      match Kid(x, p).proc
      case Running => story == NothingYet || story == Happened(Suspended)
      case Stopped(_) => story == Happened(Suspended)
      case Zombie(w) => story == Happened(w) && !w.Suspended?
      case Gone => story.Happened? && !story.wait.Suspended?
  }

  lemma StoryContinues(c: Config, x: State, a: Action, y: State, p: nat, story: Story)
    requires Leads(c, x, a, y) && Fits(x, p, story)
    ensures Fits(y, p, Continued(y, a, p, story))
    ensures story.Happened? && !story.wait.Suspended? ==> Continued(y, a, p, story) == story
  {
    if a.Serve? {
      StoryServed(c, x, y, p, story);
      hide Fits, Leads;
    } else if a.Run? || a.CallLoop? || a.Die? || a.Perish? {
      StoryOfChild(c, x, a, y, p, story);
      hide *;
    } else {
      StoryWaits(c, x, a, y, p, story);
      hide Fits, Leads;
    }
  }

  lemma StoryServed(c: Config, x: State, y: State, p: nat, story: Story)
    requires Leads(c, x, Serve, y) && Fits(x, p, story)
    ensures Fits(y, p, story)
  {
  }

  lemma StoryOfChild(c: Config, x: State, a: Action, y: State, p: nat, story: Story)
    requires Leads(c, x, a, y) && Fits(x, p, story) && (a.Run? || a.CallLoop? || a.Die? || a.Perish?)
    ensures Fits(y, p, Continued(y, a, p, story))
    ensures story.Happened? && !story.wait.Suspended? ==> Continued(y, a, p, story) == story
  {
  }

  lemma StoryWaits(c: Config, x: State, a: Action, y: State, p: nat, story: Story)
    requires Leads(c, x, a, y) && Fits(x, p, story)
    requires !a.Serve? && !a.Run? && !a.CallLoop? && !a.Die? && !a.Perish?
    ensures Fits(y, p, story)
  {
  }

  lemma StepOf(c: Config, xs: seq<State>, acts: seq<Action>, i: nat)
    requires IsRun(c, xs, acts) && 0 < i < |xs|
    ensures Leads(c, xs[i - 1], acts[i - 1], xs[i])
  {
    assert Leads(c, xs[i - 1], acts[i - 1], xs[i - 1 + 1]);
  }

  lemma Start(c: Config, xs: seq<State>, acts: seq<Action>)
    requires IsRun(c, xs, acts)
    ensures |xs| == |acts| + 1 && Said(xs[0]) == [] && Reading(xs[0])
    ensures forall p :: Fits(xs[0], p, NothingYet) && Counted(c, xs[0], p, 0)
  {
  }

  lemma {:induction false} StoriesFit(c: Config, xs: seq<State>, acts: seq<Action>, i: nat, p: nat)
    requires IsRun(c, xs, acts) && i < |xs|
    ensures |xs| == |acts| + 1 && Fits(xs[i], p, StoryOf(xs, acts, i, p))
    decreases i
  {
    hide IsRun, Fits, Leads, Continued;
    Start(c, xs, acts);
    if i > 0 {
      StepOf(c, xs, acts, i);
      StoriesFit(c, xs, acts, i - 1, p);
      StoryContinues(c, xs[i - 1], acts[i - 1], xs[i], p, StoryOf(xs, acts, i - 1, p));
    }
  }

  /** What the server should say: the number of its child, and, when waiting for the child is over, its story. */
  function Told(xs: seq<State>, acts: seq<Action>, i: nat): seq<Reply>
    requires |xs| == |acts| + 1 && i < |xs|
  {
    if i == 0 then []
    else
      var s := xs[i - 1].s;
      TellMore(Told(xs, acts, i - 1), s, acts[i - 1], StoryOf(xs, acts, i - 1, s.childPid))
  }

  function TellMore(told: seq<Reply>, s: Server, a: Action, story: Story): seq<Reply>
  {
    if a.Serve? && s.at.SendPid? then told + [Pid(s.childPid)]
    else if a.Serve? && s.at.WaitChild? && story.Happened? then told + [Status(s.childPid, story.wait)]
    else told
  }

  /** The replies, with the one that is about to be sent. */
  function Said(x: State): seq<Reply>
  {
    if x.s.at.SendStatus? then x.replies + [Status(x.s.childPid, x.s.at.wait)] else x.replies
  }

  lemma SaidNext(c: Config, x: State, a: Action, y: State, story: Story)
    requires Leads(c, x, a, y) && Fits(x, x.s.childPid, story)
    ensures Said(y) == TellMore(Said(x), x.s, a, story)
  {
  }

  /** Main result: in every run the server says just that. So a status is relayed as the wait system call reported
      it: it is the last thing that became of the child, a stop or its end. */
  lemma {:induction false} StatusesAreRelayed(c: Config, xs: seq<State>, acts: seq<Action>, i: nat)
    requires IsRun(c, xs, acts) && i < |xs|
    ensures |xs| == |acts| + 1 && Said(xs[i]) == Told(xs, acts, i)
    decreases i
  {
    hide IsRun, Fits, Leads, Said, StoryOf, TellMore;
    Start(c, xs, acts);
    if i > 0 {
      StepOf(c, xs, acts, i);
      StatusesAreRelayed(c, xs, acts, i - 1);
      StoriesFit(c, xs, acts, i - 1, xs[i - 1].s.childPid);
      SaidNext(c, xs[i - 1], acts[i - 1], xs[i], StoryOf(xs, acts, i - 1, xs[i - 1].s.childPid));
    }
  }

  /** A reply that a process is over says how it ended, and that stays so. */
  lemma {:induction false} EndsAreFinal(c: Config, xs: seq<State>, acts: seq<Action>, i: nat, k: nat)
    requires IsRun(c, xs, acts) && |xs| == |acts| + 1 && i < |xs| && k < |Told(xs, acts, i)|
    requires var r := Told(xs, acts, i)[k]; r.Status? && !r.wait.Suspended?
    ensures var r := Told(xs, acts, i)[k]; StoryOf(xs, acts, i, r.of) == Happened(r.wait)
    decreases i
  {
    hide IsRun, Fits, Leads, Continued;
    if i > 0 {
      var r := Told(xs, acts, i)[k];
      if k < |Told(xs, acts, i - 1)| {
        EndsAreFinal(c, xs, acts, i - 1, k);
      }
      StepOf(c, xs, acts, i);
      StoriesFit(c, xs, acts, i - 1, r.of);
      StoryContinues(c, xs[i - 1], acts[i - 1], xs[i], r.of, StoryOf(xs, acts, i - 1, r.of));
    }
  }

  /** What the fuzzer has not read yet is the end of what was sent, and what it has read is the last reply. */
  predicate Reading(x: State)
  {
    && |x.st| <= |x.replies| && x.st == x.replies[|x.replies| - |x.st|..]
    && (x.f.at.HaveStatus? ==> x.replies != [] && x.replies[|x.replies| - 1] == Status(x.f.childPid, x.f.at.wait))
  }

  /** What the server sends in its next step. */
  function Sent(x: State): seq<Reply>
  {
    if x.s.at.SendPid? then [Pid(x.s.childPid)]
    else if x.s.at.SendStatus? then [Status(x.s.childPid, x.s.at.wait)]
    else []
  }

  lemma SuffixGrows<T>(st: seq<T>, all: seq<T>, added: seq<T>)
    requires |st| <= |all| && st == all[|all| - |st|..]
    ensures var more := all + added; st + added == more[|more| - |st + added|..]
  {
  }

  lemma ReadingKept(c: Config, x: State, a: Action)
    requires FuzzerInv(x) && Reading(x) && Can(c, x, a)
    ensures Reading(Next(c, x, a))
  {
    if a.Serve? {
      ReadingServed(c, x);
    } else if FuzzerCan(x, a) {
      ReadingRead(x, a);
    } else {
      NotRead(c, x, a);
      hide *;
      assert Reading(x);
      ReadingSame(x, Next(c, x, a));
    }
  }

  lemma NotRead(c: Config, x: State, a: Action)
    requires Can(c, x, a) && !a.Serve? && !FuzzerCan(x, a)
    ensures var y := Next(c, x, a);
      && y.st == x.st && y.replies == x.replies && y.f.at == x.f.at && y.f.childPid == x.f.childPid
  {
  }

  lemma ReadingSame(x: State, y: State)
    requires Reading(x) && y.st == x.st && y.replies == x.replies && y.f.at == x.f.at && y.f.childPid == x.f.childPid
    ensures Reading(y)
  {
  }

  lemma ReadingServed(c: Config, x: State)
    requires FuzzerInv(x) && Reading(x) && ServerCan(c, x)
    ensures Reading(ServerStep(c, x))
  {
    var y := ServerStep(c, x);
    assert x.f.at.HaveStatus? ==> Sent(x) == [];
    assert y.f == x.f && y.st == x.st + Sent(x) && y.replies == x.replies + Sent(x) by { ServerSends(c, x); }
    hide FuzzerInv, ServerCan, ServerStep, Sent;
    SuffixGrows(x.st, x.replies, Sent(x));
  }

  lemma ServerSends(c: Config, x: State)
    requires ServerCan(c, x)
    ensures var y := ServerStep(c, x);
      y.f == x.f && y.st == x.st + Sent(x) && y.replies == x.replies + Sent(x)
  {
  }

  lemma ReadingRead(x: State, a: Action)
    requires FuzzerInv(x) && Reading(x) && FuzzerCan(x, a)
    ensures Reading(FuzzerStep(x, a))
  {
    if a.ReadStatus? {
      assert x.st == x.st[..0] + [x.st[0]];
    }
  }

  lemma ReadingFollows(c: Config, x: State, a: Action, y: State)
    requires Control(x) && Reading(x) && Leads(c, x, a, y)
    ensures Reading(y)
  {
    hide Reading, FuzzerInv, OnlyChild, ServerInv, Can, Next;
    ReadingKept(c, x, a);
  }

  lemma {:induction false} AlwaysReading(c: Config, xs: seq<State>, acts: seq<Action>, i: nat)
    requires IsRun(c, xs, acts) && i < |xs|
    ensures Reading(xs[i])
    decreases i
  {
    hide IsRun, Reading, Leads, Control, Paired, MapInv;
    Start(c, xs, acts);
    if i > 0 {
      StepOf(c, xs, acts, i);
      AlwaysReading(c, xs, acts, i - 1);
      AlwaysInv(c, xs, acts, i - 1);
      ReadingFollows(c, xs[i - 1], acts[i - 1], xs[i]);
    }
  }

  /** So the fuzzer learns the truth: when it has read a status that is not a stop, its child ended in this very
      way, by its own doing or by the kill signal. */
  lemma FuzzerLearnsTheEnd(c: Config, xs: seq<State>, acts: seq<Action>, i: nat)
    requires IsRun(c, xs, acts) && i < |xs| && xs[i].f.at.HaveStatus? && !xs[i].f.at.wait.Suspended?
    ensures |xs| == |acts| + 1
    ensures StoryOf(xs, acts, i, xs[i].f.childPid) == Happened(xs[i].f.at.wait)
  {
    var x := xs[i];
    AlwaysReading(c, xs, acts, i);
    StatusesAreRelayed(c, xs, acts, i);
    hide StoryOf, Told, IsRun;
    EndsAreFinal(c, xs, acts, i, |x.replies| - 1);
  }

  // ----- how often a child stops -----------------------------------------------------------------

  /** How often process p has stopped at its loop. */
  function StopsOf(xs: seq<State>, acts: seq<Action>, i: nat, p: nat): nat
    requires |xs| == |acts| + 1 && i < |xs|
  {
    if i == 0 then 0 else StopsOf(xs, acts, i - 1, p) + if StopsNow(xs[i], acts[i - 1], p) then 1 else 0
  }

  predicate StopsNow(y: State, a: Action, p: nat) { a == CallLoop(p) && HasPid(y, p) && Kid(y, p).proc.Stopped? }

  /** The rounds of the loop: as many as asked for, which for none at all wraps around. */
  function Rounds(c: Config): nat { if c.maxCnt == 0 then CYCLES else c.maxCnt }

  predicate Counted(c: Config, x: State, p: nat, n: nat)
  {
    if !HasPid(x, p) then n == 0
    else
      match Kid(x, p).loop
      case BeforeLoop => n == 0
      case InLoop(left) => if n == 0 then left == c.maxCnt else c.persistent && left >= 1 && left + n == Rounds(c)
      case AfterLoop => n == if c.persistent then Rounds(c) - 1 else 0
  }

  lemma CountedStep(c: Config, x: State, a: Action, y: State, p: nat, n: nat)
    requires Leads(c, x, a, y) && Counted(c, x, p, n) && c.maxCnt < CYCLES
    ensures Counted(c, y, p, n + if StopsNow(y, a, p) then 1 else 0)
  {
    if a == CallLoop(p) {
      CountedLoop(c, x, y, p, n);
    } else {
      NotCounted(c, x, a, y, p, n);
    }
    hide Counted, Leads;
  }

  lemma CountedLoop(c: Config, x: State, y: State, p: nat, n: nat)
    requires Leads(c, x, CallLoop(p), y) && Counted(c, x, p, n) && c.maxCnt < CYCLES
    ensures Counted(c, y, p, n + if StopsNow(y, CallLoop(p), p) then 1 else 0)
  {
  }

  lemma NotCounted(c: Config, x: State, a: Action, y: State, p: nat, n: nat)
    requires Leads(c, x, a, y) && Counted(c, x, p, n) && a != CallLoop(p)
    ensures Counted(c, y, p, n)
  {
    LoopKept(c, x, a, y, p);
    hide Leads;
  }

  lemma LoopKept(c: Config, x: State, a: Action, y: State, p: nat)
    requires Leads(c, x, a, y) && a != CallLoop(p)
    ensures HasPid(x, p) ==> HasPid(y, p) && Kid(y, p).loop == Kid(x, p).loop
    ensures !HasPid(x, p) && HasPid(y, p) ==> Kid(y, p).loop.BeforeLoop?
  {
    if a.Serve? {
      LoopServed(c, x, p);
      hide ServerStep;
    } else if a.Alarm? {
      hide ServerStep, ChildStep, FuzzerStep;
    } else {
      hide ServerStep, AlarmStep;
    }
  }

  lemma LoopServed(c: Config, x: State, p: nat)
    requires ServerCan(c, x)
    ensures var y := ServerStep(c, x);
      && (HasPid(x, p) ==> HasPid(y, p) && Kid(y, p).loop == Kid(x, p).loop)
      && (!HasPid(x, p) && HasPid(y, p) ==> Kid(y, p).loop.BeforeLoop?)
  {
  }

  lemma {:induction false} AlwaysCounted(c: Config, xs: seq<State>, acts: seq<Action>, i: nat, p: nat)
    requires IsRun(c, xs, acts) && i < |xs| && c.maxCnt < CYCLES
    ensures |xs| == |acts| + 1 && Counted(c, xs[i], p, StopsOf(xs, acts, i, p))
    decreases i
  {
    hide IsRun, Counted, Leads, StopsNow;
    Start(c, xs, acts);
    if i > 0 {
      StepOf(c, xs, acts, i);
      AlwaysCounted(c, xs, acts, i - 1, p);
      CountedStep(c, xs[i - 1], acts[i - 1], xs[i], p, StopsOf(xs, acts, i - 1, p));
    }
  }

  /** A persistent child stops once less than its loop has rounds before it leaves the loop, and never more often; so
      it serves one request per round. Any other child never stops. */
  lemma StopsAreCounted(c: Config, xs: seq<State>, acts: seq<Action>, i: nat, p: nat)
    requires IsRun(c, xs, acts) && i < |xs| && c.maxCnt < CYCLES
    ensures |xs| == |acts| + 1
    ensures if c.persistent then StopsOf(xs, acts, i, p) < Rounds(c) else StopsOf(xs, acts, i, p) == 0
    ensures c.persistent && HasPid(xs[i], p) && Kid(xs[i], p).loop.AfterLoop? ==>
              StopsOf(xs, acts, i, p) == Rounds(c) - 1
  {
    AlwaysCounted(c, xs, acts, i, p);
    hide IsRun, StopsOf;
  }
}
