/** The health-check worker pool as a state machine over its two buffered channels. */
module HealthCheck {

  const WORKER_RATIO := 3
  const MIN_WORKER_COUNT := 1
  const MAX_WORKER_COUNT := 8

  function CalcWorkerCount(nodesCount: nat): (n: nat)
    ensures 1 <= n <= 8
    ensures n == 1 <==> nodesCount < 6
    ensures n == 8 <==> nodesCount >= 24
    ensures 1 < n < 8 ==> 3 * n <= nodesCount < 3 * (n + 1)
  {
    var workerCount := nodesCount / WORKER_RATIO;
    if workerCount > MAX_WORKER_COUNT then MAX_WORKER_COUNT
    else if workerCount < MIN_WORKER_COUNT then MIN_WORKER_COUNT
    else workerCount
  }

  /** A node by identity. */
  type NodeRef = nat

  datatype Worker = Idle | Checking(node: NodeRef) | Reporting(node: NodeRef) | Finished

  datatype Check = Check(node: NodeRef, up: bool)

  /** `jobs` is closed from the start; `results` holds at most `capacity` nodes; `checks` logs the requests. */
  datatype Pool = Pool(jobs: seq<NodeRef>, capacity: nat, results: seq<NodeRef>, workers: seq<Worker>,
                       alive: map<NodeRef, bool>, checks: seq<Check>)

  function Dispatched(nodes: seq<NodeRef>, alive: map<NodeRef, bool>): Pool {
    Pool(nodes, |nodes|, [], seq(CalcWorkerCount(|nodes|), _ => Idle), alive, [])
  }

  /** The moves of worker `w`. */
  datatype Event =
    | Take(w: nat)
    | Answer(w: nat, up: bool)
    | Send(w: nat)
    | Exit(w: nat)

  predicate Can(p: Pool, e: Event) {
    && e.w < |p.workers|
    && match e
       case Take(w) => p.workers[w].Idle? && p.jobs != []
       case Answer(w, _) => p.workers[w].Checking?
       case Send(w) => p.workers[w].Reporting? && |p.results| < p.capacity
       case Exit(w) => p.workers[w].Idle? && p.jobs == []
  }

  function After(p: Pool, e: Event): Pool
    requires Can(p, e)
  {
    match e
    case Take(w) => p.(jobs := p.jobs[1..], workers := p.workers[w := Checking(p.jobs[0])])
    case Answer(w, up) =>
      var node := p.workers[w].node;
      p.(workers := p.workers[w := Reporting(node)], alive := p.alive[node := up],
         checks := p.checks + [Check(node, up)])
    case Send(w) => p.(workers := p.workers[w := Idle], results := p.results + [p.workers[w].node])
    case Exit(w) => p.(workers := p.workers[w := Finished])
  }

  // ---------------------------------------------------------------- sums over the workers

  /** What is summed: workers that hold a node, workers that hold it with its request answered, workers that
      hold any node, and moves left. */
  datatype Stat = Holding(node: NodeRef) | Answered(node: NodeRef) | Busy | MovesLeft

  function Value(s: Stat, w: Worker): nat {
    match s
    case Holding(n) => if w == Checking(n) || w == Reporting(n) then 1 else 0
    case Answered(n) => if w == Reporting(n) then 1 else 0
    case Busy => if w.Checking? || w.Reporting? then 1 else 0
    case MovesLeft => match w case Idle => 1 case Checking(_) => 3 case Reporting(_) => 2 case Finished => 0
  }

  function Sum(ws: seq<Worker>, s: Stat): nat {
    if ws == [] then 0 else Sum(ws[..|ws| - 1], s) + Value(s, ws[|ws| - 1])
  }

  lemma {:induction false} WorkerMoves(ws: seq<Worker>, i: nat, w: Worker, s: Stat)
    requires i < |ws|
    ensures Sum(ws[i := w], s) + Value(s, ws[i]) == Sum(ws, s) + Value(s, w)
    ensures Value(s, ws[i]) <= Sum(ws, s)
  {
    var n := |ws| - 1;
    if i < n {
      assert ws[i := w][..n] == ws[..n][i := w];
      WorkerMoves(ws[..n], i, w, s);
    } else {
      assert ws[i := w][..n] == ws[..n];
    }
  }

  lemma {:induction false} AllAlike(ws: seq<Worker>, w: Worker, s: Stat)
    requires forall i :: 0 <= i < |ws| ==> ws[i] == w
    ensures Sum(ws, s) == |ws| * Value(s, w)
  {
    if ws != [] { AllAlike(ws[..|ws| - 1], w, s); }
  }

  lemma {:induction false} AnsweredAreHeld(ws: seq<Worker>, n: NodeRef)
    ensures Sum(ws, Answered(n)) <= Sum(ws, Holding(n))
  {
    if ws != [] { AnsweredAreHeld(ws[..|ws| - 1], n); }
  }

  // ---------------------------------------------------------------- the invariant

  function NodesOf(checks: seq<Check>): seq<NodeRef> {
    seq(|checks|, i requires 0 <= i < |checks| => checks[i].node)
  }

  /** Node `n` is, as often as it was dispatched, in the jobs, with a worker or in the results; and it was
      checked as often as it is past its check. */
  ghost predicate Accounted(p: Pool, nodes: seq<NodeRef>, n: NodeRef) {
    && multiset(p.jobs)[n] + Sum(p.workers, Holding(n)) + multiset(p.results)[n] == multiset(nodes)[n]
    && multiset(NodesOf(p.checks))[n] == Sum(p.workers, Answered(n)) + multiset(p.results)[n]
  }

  /** No node is lost or doubled, the channels have the dispatched capacity, and a worker leaves only when
      the jobs are drained. */
  ghost predicate Inv(p: Pool, nodes: seq<NodeRef>) {
    && p.capacity == |nodes|
    && |p.jobs| + Sum(p.workers, Busy) + |p.results| == |nodes|
    && (forall n :: Accounted(p, nodes, n))
    && forall i :: 0 <= i < |p.workers| && p.workers[i].Finished? ==> p.jobs == []
  }

  lemma DispatchedInv(nodes: seq<NodeRef>, alive: map<NodeRef, bool>)
    ensures Inv(Dispatched(nodes, alive), nodes)
  {
    var p := Dispatched(nodes, alive);
    AllAlike(p.workers, Idle, Busy);
    forall n ensures Accounted(p, nodes, n) {
      AllAlike(p.workers, Idle, Holding(n));
      AllAlike(p.workers, Idle, Answered(n));
      assert NodesOf([]) == [];
    }
  }

  lemma StepKeepsAccount(p: Pool, e: Event, nodes: seq<NodeRef>, n: NodeRef)
    requires Accounted(p, nodes, n) && Can(p, e)
    ensures Accounted(After(p, e), nodes, n)
  {
    var a := After(p, e);
    WorkerMoves(p.workers, e.w, a.workers[e.w], Holding(n));
    WorkerMoves(p.workers, e.w, a.workers[e.w], Answered(n));
    match e {
      case Take(w) => assert p.jobs == [p.jobs[0]] + p.jobs[1..];
      case Answer(w, up) => assert NodesOf(a.checks) == NodesOf(p.checks) + [p.workers[w].node];
      case Send(w) =>
      case Exit(w) =>
    }
  }

  lemma StepKeepsInv(p: Pool, e: Event, nodes: seq<NodeRef>)
    requires Inv(p, nodes) && Can(p, e)
    ensures Inv(After(p, e), nodes)
  {
    WorkerMoves(p.workers, e.w, After(p, e).workers[e.w], Busy);
    forall n ensures Accounted(After(p, e), nodes, n) {
      StepKeepsAccount(p, e, nodes, n);
    }
  }

  /** The result channel has room whenever a worker wants to send. */
  lemma SendNeverBlocks(p: Pool, nodes: seq<NodeRef>, w: nat)
    requires Inv(p, nodes) && w < |p.workers| && p.workers[w].Reporting?
    ensures Can(p, Send(w))
  {
    WorkerMoves(p.workers, w, p.workers[w], Busy);
  }

  /** No worker ever waits: until it has finished, it has a move of its own. */
  lemma WorkersNeverWait(p: Pool, nodes: seq<NodeRef>, w: nat) returns (e: Event)
    requires Inv(p, nodes) && w < |p.workers| && !p.workers[w].Finished?
    ensures e.w == w && Can(p, e)
  {
    match p.workers[w]
    case Idle => e := if p.jobs != [] then Take(w) else Exit(w);
    case Checking(_) => e := Answer(w, true);
    case Reporting(_) =>
      SendNeverBlocks(p, nodes, w);
      e := Send(w);
  }

  function Measure(p: Pool): nat {
    4 * |p.jobs| + Sum(p.workers, MovesLeft)
  }

  lemma StepsShrink(p: Pool, e: Event)
    requires Can(p, e)
    ensures Measure(After(p, e)) < Measure(p)
  {
    WorkerMoves(p.workers, e.w, After(p, e).workers[e.w], MovesLeft);
  }

  // ---------------------------------------------------------------- every run

  /** `trace` is a run of the pool through `events`. */
  ghost predicate IsRun(trace: seq<Pool>, events: seq<Event>) {
    && |trace| == |events| + 1
    && forall i :: 0 <= i < |events| ==> Can(trace[i], events[i]) && trace[i + 1] == After(trace[i], events[i])
  }

  lemma {:induction false} RunsKeepInv(trace: seq<Pool>, events: seq<Event>, nodes: seq<NodeRef>, k: nat)
    requires IsRun(trace, events) && Inv(trace[0], nodes) && k <= |events|
    ensures Inv(trace[k], nodes)
    ensures Measure(trace[k]) + k <= Measure(trace[0])
    ensures |trace[k].workers| == |trace[0].workers|
    decreases k
  {
    if k > 0 {
      RunsKeepInv(trace, events, nodes, k - 1);
      StepKeepsInv(trace[k - 1], events[k - 1], nodes);
      StepsShrink(trace[k - 1], events[k - 1]);
    }
  }

  ghost predicate AllFinished(p: Pool) {
    forall i :: 0 <= i < |p.workers| ==> p.workers[i] == Finished
  }

  /** Once all workers have left, the result channel and the request log hold every node exactly as often as
      it was dispatched. */
  lemma FinishedIsComplete(p: Pool, nodes: seq<NodeRef>)
    requires Inv(p, nodes) && AllFinished(p) && p.workers != []
    ensures p.jobs == [] && multiset(p.results) == multiset(nodes) && multiset(NodesOf(p.checks)) == multiset(nodes)
  {
    assert p.workers[0].Finished?;
    forall n
      ensures multiset(p.results)[n] == multiset(nodes)[n] && multiset(NodesOf(p.checks))[n] == multiset(nodes)[n]
    {
      assert Accounted(p, nodes, n);
      AllAlike(p.workers, Finished, Holding(n));
      AllAlike(p.workers, Finished, Answered(n));
    }
  }

  /** Every interleaving of the workers: it ends within 4n + 8 moves, it is never stuck before the end, and
      at the end every node has been checked and reported exactly as often as it was dispatched. */
  lemma EveryRunChecksEveryNodeOnce(trace: seq<Pool>, events: seq<Event>, nodes: seq<NodeRef>,
                                    alive: map<NodeRef, bool>)
    requires IsRun(trace, events) && trace[0] == Dispatched(nodes, alive)
    ensures |events| <= 4 * |nodes| + 8
    ensures AllFinished(trace[|events|]) ==>
      var end := trace[|events|];
      end.jobs == [] && multiset(end.results) == multiset(nodes) && multiset(NodesOf(end.checks)) == multiset(nodes)
    ensures !AllFinished(trace[|events|]) ==> exists e :: Can(trace[|events|], e)
    ensures var workers := |trace[|events|].workers|;
      && (workers == 1 <==> |nodes| < 6) && (workers == 8 <==> |nodes| >= 24)
      && (6 <= |nodes| < 24 ==> 3 * workers <= |nodes| < 3 * (workers + 1))
  {
    DispatchedInv(nodes, alive);
    AllAlike(trace[0].workers, Idle, MovesLeft);
    RunsKeepInv(trace, events, nodes, |events|);
    var end := trace[|events|];
    if AllFinished(end) {
      FinishedIsComplete(end, nodes);
    } else {
      var i :| 0 <= i < |end.workers| && end.workers[i] != Finished;
      var e := WorkersNeverWait(end, nodes, i);
    }
  }

  // ---------------------------------------------------------------- the verdicts

  /** The node whose request the event answers. */
  function AnsweredNode(p: Pool, e: Event): NodeRef
    requires Can(p, e) && e.Answer?
  {
    p.workers[e.w].node
  }

  /** If no node was dispatched twice, a node's flag is the answer to its one request, from that event on. */
  lemma {:induction false} FlagIsTheAnswer(trace: seq<Pool>, events: seq<Event>, nodes: seq<NodeRef>, i: nat, k: nat)
    requires IsRun(trace, events) && Inv(trace[0], nodes) && i < k <= |events| && events[i].Answer?
    requires forall n :: multiset(nodes)[n] <= 1
    ensures var node := AnsweredNode(trace[i], events[i]);
      node in trace[k].alive && trace[k].alive[node] == events[i].up && Asked(trace[k], node)
    decreases k
  {
    var p, e := trace[k - 1], events[k - 1];
    var node := AnsweredNode(trace[i], events[i]);
    if i < k - 1 {
      FlagIsTheAnswer(trace, events, nodes, i, k - 1);
      var c :| c in p.checks && c.node == node;
      RunsKeepInv(trace, events, nodes, k - 1);
      if e.Answer? { CheckedOnlyOnce(p, e, nodes); }
      assert c in trace[k].checks;
    } else {
      assert Check(node, e.up) in trace[k].checks;
    }
  }

  ghost predicate Asked(p: Pool, n: NodeRef) {
    exists c :: c in p.checks && c.node == n
  }

  /** The flag of a node that is not asked stays as it was dispatched. */
  lemma {:induction false} OtherFlagsStay(trace: seq<Pool>, events: seq<Event>, n: NodeRef, k: nat)
    requires IsRun(trace, events) && k <= |events|
    requires forall i :: 0 <= i < k && events[i].Answer? ==> AnsweredNode(trace[i], events[i]) != n
    ensures n in trace[k].alive <==> n in trace[0].alive
    ensures n in trace[k].alive ==> trace[k].alive[n] == trace[0].alive[n]
    decreases k
  {
    if k > 0 {
      OtherFlagsStay(trace, events, n, k - 1);
    }
  }

  /** Event `i` is the answer to the request for `n`. */
  ghost predicate AnswersFor(trace: seq<Pool>, events: seq<Event>, i: nat, n: NodeRef)
    requires IsRun(trace, events)
  {
    i < |events| && events[i].Answer? && AnsweredNode(trace[i], events[i]) == n
  }

  lemma {:induction false} AskedWasAnswered(trace: seq<Pool>, events: seq<Event>, n: NodeRef, k: nat)
    requires IsRun(trace, events) && k <= |events| && !Asked(trace[0], n) && Asked(trace[k], n)
    ensures exists i :: 0 <= i < k && AnswersFor(trace, events, i, n)
    decreases k
  {
    if Asked(trace[k - 1], n) {
      AskedWasAnswered(trace, events, n, k - 1);
    } else {
      var c :| c in trace[k].checks && c.node == n;
      assert c !in trace[k - 1].checks;
      assert AnswersFor(trace, events, k - 1, n);
    }
  }

  lemma OnlyDispatchedAreAnswered(trace: seq<Pool>, events: seq<Event>, nodes: seq<NodeRef>, i: nat, n: NodeRef)
    requires IsRun(trace, events) && Inv(trace[0], nodes) && AnswersFor(trace, events, i, n)
    ensures n in nodes
  {
    RunsKeepInv(trace, events, nodes, i);
    assert Accounted(trace[i], nodes, n);
    WorkerMoves(trace[i].workers, events[i].w, trace[i].workers[events[i].w], Holding(n));
    assert n in multiset(nodes);
  }

  /** When all workers have left, every dispatched node has the flag that answered its request, and every other
      node the flag it had. */
  lemma EveryFlagIsItsAnswer(trace: seq<Pool>, events: seq<Event>, nodes: seq<NodeRef>, alive: map<NodeRef, bool>)
    requires IsRun(trace, events) && trace[0] == Dispatched(nodes, alive) && AllFinished(trace[|events|])
    requires forall n :: multiset(nodes)[n] <= 1
    ensures var end := trace[|events|].alive;
      && (forall n :: n in nodes ==>
            exists i: nat :: AnswersFor(trace, events, i, n) && n in end && end[n] == events[i].up)
      && forall n :: n !in nodes ==> (n in end <==> n in alive) && (n in end ==> end[n] == alive[n])
  {
    var last := trace[|events|];
    DispatchedInv(nodes, alive);
    EveryRunChecksEveryNodeOnce(trace, events, nodes, alive);
    forall n | n in nodes
      ensures exists i: nat :: AnswersFor(trace, events, i, n) && n in last.alive && last.alive[n] == events[i].up
    {
      assert n in multiset(NodesOf(last.checks));
      var j :| 0 <= j < |last.checks| && NodesOf(last.checks)[j] == n;
      assert last.checks[j] in last.checks;
      AskedWasAnswered(trace, events, n, |events|);
      var i: nat :| i < |events| && AnswersFor(trace, events, i, n);
      FlagIsTheAnswer(trace, events, nodes, i, |events|);
    }
    forall n | n !in nodes
      ensures (n in last.alive <==> n in alive) && (n in last.alive ==> last.alive[n] == alive[n])
    {
      forall i | 0 <= i < |events| && events[i].Answer? ensures AnsweredNode(trace[i], events[i]) != n {
        if AnswersFor(trace, events, i, n) { OnlyDispatchedAreAnswered(trace, events, nodes, i, n); }
      }
      OtherFlagsStay(trace, events, n, |events|);
    }
  }

  /** Each logged check is what its node's flag says. */
  ghost predicate FlagsTold(p: Pool) {
    forall c :: c in p.checks ==> c.node in p.alive && p.alive[c.node] == c.up
  }

  /** Every node ends with the verdict of its one logged check, if no node was dispatched twice. */
  lemma {:induction false} RunsTellTheFlags(trace: seq<Pool>, events: seq<Event>, nodes: seq<NodeRef>, k: nat)
    requires IsRun(trace, events) && Inv(trace[0], nodes) && FlagsTold(trace[0]) && k <= |events|
    requires forall n :: multiset(nodes)[n] <= 1
    ensures FlagsTold(trace[k])
    decreases k
  {
    if k > 0 {
      RunsTellTheFlags(trace, events, nodes, k - 1);
      RunsKeepInv(trace, events, nodes, k - 1);
      if events[k - 1].Answer? {
        CheckedOnlyOnce(trace[k - 1], events[k - 1], nodes);
      }
    }
  }

  lemma CheckedOnlyOnce(p: Pool, e: Event, nodes: seq<NodeRef>)
    requires Inv(p, nodes) && Can(p, e) && e.Answer? && multiset(nodes)[p.workers[e.w].node] <= 1
    ensures forall c :: c in p.checks ==> c.node != p.workers[e.w].node
  {
    var node := p.workers[e.w].node;
    assert Accounted(p, nodes, node);
    StepKeepsAccount(p, e, nodes, node);
    AnsweredAreHeld(After(p, e).workers, node);
    assert NodesOf(After(p, e).checks) == NodesOf(p.checks) + [node];
    forall c | c in p.checks ensures c.node != node {
      var i :| 0 <= i < |p.checks| && p.checks[i] == c;
      assert NodesOf(p.checks)[i] == c.node;
      assert c.node in multiset(NodesOf(p.checks));
    }
  }
}
