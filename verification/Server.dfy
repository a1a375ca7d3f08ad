/**
 Server::handle_message of server/src/server.cpp: every decoded message becomes one task of the
 worker pool, and the task sends one response. Requests are numbered in the order of arrival.
 */
module Server {
  import opened Message
  import opened Framing
  import opened ByteOrder
  import ThreadPool

  type Task = ThreadPool.Task

  // ---------- one response ----------

  /** A registered handler returns a message or throws. Which one is up to the handler. */
  datatype Outcome = Unregistered | Replied(reply: Message) | Threw(what: string)

  function MakeError(req: Message, code: string, text: string, now: uint64): Message {
    Message(Response, req.action, now, "", Obj(map[]), Error, code, text)
  }

  /** The message a task hands to Connection::send. */
  function Reply(req: Message, outcome: Outcome, now: uint64): Message {
    var resp :=
      match outcome
      case Unregistered => MakeError(req, "UNKNOWN_ACTION", "Action not supported", now)
      case Threw(what) => MakeError(req, "HANDLER_ERROR", what, now)
      case Replied(reply) => reply;
    resp.(kind := Response,
          action := if resp.action == "" then req.action else resp.action,
          sessionId := if resp.sessionId == "" then req.sessionId else resp.sessionId,
          timestamp := now)
  }

  /** The body of the task, assignment by assignment. */
  method RunTask(req: Message, outcome: Outcome, now: uint64) returns (resp: Message)
    ensures resp.kind == Response && resp.timestamp == now
    ensures req.action != "" ==> resp.action != ""
    ensures resp.action == req.action || (outcome.Replied? && resp.action == outcome.reply.action != "")
    ensures resp.sessionId == req.sessionId || (outcome.Replied? && resp.sessionId == outcome.reply.sessionId != "")
    ensures !outcome.Replied? ==> resp.status == Error && resp.data == Obj(map[]) && resp.action == req.action && resp.sessionId == req.sessionId
    ensures outcome.Unregistered? ==> resp.errorCode == "UNKNOWN_ACTION" && resp.errorMessage == "Action not supported"
    ensures outcome.Threw? ==> resp.errorCode == "HANDLER_ERROR" && resp.errorMessage == outcome.what
    ensures outcome.Replied? ==>
              var reply := outcome.reply;
              && resp.data == reply.data && resp.status == reply.status
              && resp.errorCode == reply.errorCode && resp.errorMessage == reply.errorMessage
              && (reply.action != "" ==> resp.action == reply.action)
              && (reply.sessionId != "" ==> resp.sessionId == reply.sessionId)
    ensures resp == Reply(req, outcome, now)
  {
    match outcome {
      case Unregistered => resp := MakeError(req, "UNKNOWN_ACTION", "Action not supported", now);
      case Threw(what) => resp := MakeError(req, "HANDLER_ERROR", what, now);
      case Replied(reply) => resp := reply;
    }
    if resp.kind != Response { resp := resp.(kind := Response); }
    if resp.action == "" { resp := resp.(action := req.action); }
    if resp.sessionId == "" { resp := resp.(sessionId := req.sessionId); }
    resp := resp.(timestamp := now);
  }

  /**
   For a request as it comes out of decode_frame, the client can read the reply unless the handler
   forgot the status or left data that is no object; then it reads a response to that action and session.
   */
  lemma ReplyIsReadable(lib: Lib, frame: seq<byte>, outcome: Outcome, now: uint64)
    requires Sound(lib) && Decoded(lib, frame).Ok?
    requires Encoded(lib, Reply(Decoded(lib, frame).value, outcome, now)).Ok?
    ensures var req := Decoded(lib, frame).value;
            var resp := Reply(req, outcome, now);
            var read := Decoded(lib, Encoded(lib, resp).value);
            && (read.Ok? <==> outcome.Replied? ==>
                  outcome.reply.status != NoStatus && (outcome.reply.data.Obj? || outcome.reply.data.Null?))
            && (read.Ok? ==>
                  && read.value.kind == Response && read.value.timestamp == now
                  && (read.value.action == req.action || (outcome.Replied? && read.value.action == outcome.reply.action))
                  && (read.value.sessionId == req.sessionId || (outcome.Replied? && read.value.sessionId == outcome.reply.sessionId)))
  {
    var req := Decoded(lib, frame).value;
    DecodedHasAction(lib, frame);
    FrameRoundTrip(lib, Reply(req, outcome, now));
  }

  lemma DecodedHasAction(lib: Lib, frame: seq<byte>)
    requires Decoded(lib, frame).Ok?
    ensures Decoded(lib, frame).value.action != ""
  {
  }

  // ---------- all requests of a server ----------

  /** The pool, the requests read so far, and the tasks whose response has been handed to `send`, in that order. */
  datatype State = State(pool: ThreadPool.State, requests: seq<Incoming>, sent: seq<Outgoing>)

  datatype Incoming = Incoming(connection: nat, message: Message)
  datatype Outgoing = Outgoing(task: Task, connection: nat, message: Message)

  datatype Step =
    | Arrive(request: Incoming)                                // read_loop calls handle_message
    | Done(worker: nat, outcome: Outcome, now: uint64)         // a worker's task ends with its send
    | Other(step: ThreadPool.Step)                             // whatever else the pool does

  function PoolStep(s: State, step: Step): ThreadPool.Step {
    match step
    case Arrive(_) => ThreadPool.Enqueue(|s.requests|)
    case Done(w, _, _) => ThreadPool.Finish(w)
    case Other(step) => step
  }

  predicate Possible(s: State, step: Step) {
    && ThreadPool.Enabled(s.pool, PoolStep(s, step))
    && (step.Other? ==> !step.step.Enqueue? && !step.step.Finish?)
    && (step.Done? ==> s.pool.workers[step.worker].task < |s.requests|)
  }

  function After(s: State, step: Step): State
    requires Possible(s, step)
  {
    var pool := ThreadPool.Next(s.pool, PoolStep(s, step));
    match step
    case Arrive(request) => s.(pool := pool, requests := s.requests + [request])
    case Done(w, outcome, now) =>
      var task := s.pool.workers[w].task;
      var req := s.requests[task];
      s.(pool := pool, sent := s.sent + [Outgoing(task, req.connection, Reply(req.message, outcome, now))])
    case Other(_) => s.(pool := pool)
  }

  ghost predicate Run(n: nat, states: seq<State>, steps: seq<Step>) {
    && |states| == |steps| + 1
    && states[0] == State(ThreadPool.Initial(n), [], [])
    && forall i :: 0 <= i < |steps| ==> StepAt(states, steps, i)
  }

  predicate StepAt(states: seq<State>, steps: seq<Step>, i: nat)
    requires i < |steps| && |states| == |steps| + 1
  {
    Possible(states[i], steps[i]) && states[i + 1] == After(states[i], steps[i])
  }

  /** Each request is accepted at most once, and what has been sent are the responses of the finished tasks. */
  ghost predicate Inv(s: State) {
    && ThreadPool.Inv(s.pool)
    && (forall t: Task :: ThreadPool.Count(s.pool.accepted, t) <= if t < |s.requests| then 1 else 0)
    && Tasks(s.sent) == s.pool.finished
    && forall i :: 0 <= i < |s.sent| ==> Answers(s, s.sent[i])
  }

  function Tasks(sent: seq<Outgoing>): (r: seq<Task>)
    ensures |r| == |sent|
  {
    seq(|sent|, i requires 0 <= i < |sent| => sent[i].task)
  }

  /** A response goes to the connection its request came from. */
  ghost predicate Answers(s: State, r: Outgoing) {
    && r.task < |s.requests|
    && r.connection == s.requests[r.task].connection
    && exists outcome, now :: r.message == Reply(s.requests[r.task].message, outcome, now)
  }

  lemma ArriveKeepsInv(s: State, step: Step)
    requires Inv(s) && Possible(s, step) && step.Arrive?
    ensures Inv(After(s, step))
  {
    var s' := After(s, step);
    ThreadPool.StepKeepsInv(s.pool, PoolStep(s, step));
    ThreadPool.CountSnoc(s.pool.accepted, |s.requests|);
    forall i | 0 <= i < |s'.sent| ensures Answers(s', s'.sent[i]) {
      assert Answers(s, s.sent[i]);
    }
  }

  lemma DoneKeepsInv(s: State, step: Step)
    requires Inv(s) && Possible(s, step) && step.Done?
    ensures Inv(After(s, step))
  {
    var s' := After(s, step);
    ThreadPool.StepKeepsInv(s.pool, PoolStep(s, step));
    var task := s.pool.workers[step.worker].task;
    var req := s.requests[task];
    SendOneMore(s, s', Outgoing(task, req.connection, Reply(req.message, step.outcome, step.now)), step.outcome, step.now);
  }

  lemma SendOneMore(s: State, s': State, last: Outgoing, outcome: Outcome, now: uint64)
    requires last.task < |s.requests| && last.connection == s.requests[last.task].connection
    requires last.message == Reply(s.requests[last.task].message, outcome, now)
    requires s'.requests == s.requests && s'.sent == s.sent + [last]
    requires forall i :: 0 <= i < |s.sent| ==> Answers(s, s.sent[i])
    ensures Tasks(s'.sent) == Tasks(s.sent) + [last.task]
    ensures forall i :: 0 <= i < |s'.sent| ==> Answers(s', s'.sent[i])
  {
    forall i | 0 <= i < |s'.sent| ensures Answers(s', s'.sent[i]) {
      if i < |s.sent| {
        assert s'.sent[i] == s.sent[i] && Answers(s, s.sent[i]);
      } else {
        assert s'.sent[i] == last;
      }
    }
  }

  lemma OtherKeepsInv(s: State, step: Step)
    requires Inv(s) && Possible(s, step) && step.Other?
    ensures Inv(After(s, step))
  {
    var s' := After(s, step);
    ThreadPool.StepKeepsInv(s.pool, PoolStep(s, step));
    assert s'.pool.accepted == s.pool.accepted && s'.pool.finished == s.pool.finished;
    forall i | 0 <= i < |s'.sent| ensures Answers(s', s'.sent[i]) {
      assert Answers(s, s.sent[i]);
    }
  }

  lemma {:induction false} RunKeepsInv(n: nat, states: seq<State>, steps: seq<Step>, k: nat)
    requires Run(n, states, steps) && k < |states|
    ensures Inv(states[k])
  {
    if k == 0 {
      ThreadPool.InitialInv(n);
    } else {
      RunKeepsInv(n, states, steps, k - 1);
      assert StepAt(states, steps, k - 1);
      var s, step := states[k - 1], steps[k - 1];
      if step.Arrive? {
        ArriveKeepsInv(s, step);
      } else if step.Done? {
        DoneKeepsInv(s, step);
      } else {
        OtherKeepsInv(s, step);
      }
    }
  }

  /** The task a worker runs is always that of a request that has arrived, so it can always finish. */
  lemma TasksAreRequests(n: nat, states: seq<State>, steps: seq<Step>, k: nat, w: nat)
    requires Run(n, states, steps) && k < |states|
    requires w < |states[k].pool.workers| && states[k].pool.workers[w].Running?
    ensures states[k].pool.workers[w].task < |states[k].requests|
  {
    RunKeepsInv(n, states, steps, k);
    var pool, t := states[k].pool, states[k].pool.workers[w].task;
    ThreadPool.CountPositive(pool.workers, ThreadPool.Running(t));
    ThreadPool.CountConcat(pool.started, pool.queue, t);
  }

  /**
   In every reachable state a request has been answered at most once, on the connection it came from,
   and only after it was accepted; and a request that was accepted and not answered is queued or running.
   */
  lemma OneResponsePerRequest(n: nat, states: seq<State>, steps: seq<Step>, k: nat, t: Task)
    requires Run(n, states, steps) && k < |states|
    ensures var s := states[k];
            && (forall i :: 0 <= i < |s.sent| ==> Answers(s, s.sent[i]))
            && (forall i, j :: 0 <= i < |s.sent| && 0 <= j < |s.sent| && s.sent[i].task == s.sent[j].task ==> i == j)
            && ((exists i :: 0 <= i < |s.sent| && s.sent[i].task == t) <==>
                  t in s.pool.accepted && t !in s.pool.queue && ThreadPool.Running(t) !in s.pool.workers)
  {
    RunKeepsInv(n, states, steps, k);
    var s := states[k];
    var tasks := Tasks(s.sent);
    forall i, j | 0 <= i < |s.sent| && 0 <= j < |s.sent| && s.sent[i].task == s.sent[j].task ensures i == j {
      Once(s, tasks[i]);
      if i < j { Twice(tasks, i, j); } else if j < i { Twice(tasks, j, i); }
    }
    Once(s, t);
    ThreadPool.CountPositive(s.pool.accepted, t);
    ThreadPool.CountPositive(s.pool.queue, t);
    ThreadPool.CountPositive(s.pool.workers, ThreadPool.Running(t));
    ThreadPool.CountPositive(tasks, t);
    if t in tasks {
      var i :| 0 <= i < |tasks| && tasks[i] == t;
      assert s.sent[i].task == t;
    }
    if i :| 0 <= i < |s.sent| && s.sent[i].task == t { assert tasks[i] == t; }
  }

  lemma Once(s: State, t: Task)
    requires Inv(s)
    ensures ThreadPool.Count(s.pool.accepted, t) <= 1
    ensures ThreadPool.Count(s.pool.accepted, t) == ThreadPool.Count(s.pool.queue, t) + ThreadPool.Count(s.pool.workers, ThreadPool.Running(t)) + ThreadPool.Count(Tasks(s.sent), t)
  {
    ThreadPool.CountConcat(s.pool.started, s.pool.queue, t);
  }

  lemma {:induction false} Twice(xs: seq<Task>, i: nat, j: nat)
    requires i < j < |xs| && xs[i] == xs[j]
    ensures ThreadPool.Count(xs, xs[i]) >= 2
  {
    var n := |xs| - 1;
    if j < n {
      Twice(xs[..n], i, j);
    } else {
      ThreadPool.CountPositive(xs[..n], xs[i]);
      assert xs[..n][i] == xs[i];
    }
  }

  /** Once the first caller of shutdown has returned, every accepted request has had its one response. */
  lemma ShutdownAnswersAll(n: nat, states: seq<State>, steps: seq<Step>, k: nat, t: Task)
    requires Run(n, states, steps) && k < |states| && states[k].pool.stopper == ThreadPool.Returned
    ensures t in states[k].pool.accepted <==> exists i :: 0 <= i < |states[k].sent| && states[k].sent[i].task == t
  {
    RunKeepsInv(n, states, steps, k);
    OneResponsePerRequest(n, states, steps, k, t);
    var pool := states[k].pool;
    ThreadPool.DoneWhenReturned(pool);
    ThreadPool.CountPositive(pool.accepted, t);
    ThreadPool.CountPositive(pool.finished, t);
    ThreadPool.CountPositive(Tasks(states[k].sent), t);
  }

  function Pools(states: seq<State>): (r: seq<ThreadPool.State>)
    ensures |r| == |states| && forall i :: 0 <= i < |states| ==> r[i] == states[i].pool
  {
    seq(|states|, i requires 0 <= i < |states| => states[i].pool)
  }

  function PoolSteps(states: seq<State>, steps: seq<Step>): (r: seq<ThreadPool.Step>)
    requires |steps| <= |states|
    ensures |r| == |steps| && forall i :: 0 <= i < |steps| ==> r[i] == PoolStep(states[i], steps[i])
  {
    seq(|steps|, i requires 0 <= i < |steps| => PoolStep(states[i], steps[i]))
  }

  /** What the pool does in a run of the server is a run of the pool, so everything proved of those holds. */
  lemma PoolRuns(n: nat, states: seq<State>, steps: seq<Step>)
    requires Run(n, states, steps)
    ensures ThreadPool.Run(n, Pools(states), PoolSteps(states, steps))
  {
    forall i | 0 <= i < |steps|
      ensures ThreadPool.Enabled(states[i].pool, PoolStep(states[i], steps[i])) &&
              states[i + 1].pool == ThreadPool.Next(states[i].pool, PoolStep(states[i], steps[i])) {
      assert StepAt(states, steps, i);
    }
  }

  /** A request that arrives once the pool is stopping is dropped: it is never accepted, and never answered. */
  lemma LateRequestsAreDropped(n: nat, states: seq<State>, steps: seq<Step>, k: nat, j: nat)
    requires Run(n, states, steps) && k < |steps| && k < j < |states|
    requires steps[k].Arrive? && states[k].pool.stopping
    ensures |states[k].requests| < |states[j].requests| && |states[k].requests| !in states[j].pool.accepted
    ensures forall i :: 0 <= i < |states[j].sent| ==> states[j].sent[i].task != |states[k].requests|
  {
    var t: Task := |states[k].requests|;
    PoolRuns(n, states, steps);
    ThreadPool.HistoryGrows(n, Pools(states), PoolSteps(states, steps), k, j);
    RunKeepsInv(n, states, steps, k);
    assert ThreadPool.Count(states[k].pool.accepted, t) == 0;
    ThreadPool.CountPositive(states[k].pool.accepted, t);
    assert StepAt(states, steps, k);
    RequestsStay(n, states, steps, k + 1, j);
    OneResponsePerRequest(n, states, steps, j, t);
  }

  lemma {:induction false} RequestsStay(n: nat, states: seq<State>, steps: seq<Step>, i: nat, j: nat)
    requires Run(n, states, steps) && i <= j < |states|
    ensures states[i].requests <= states[j].requests
    decreases j
  {
    if i < j {
      RequestsStay(n, states, steps, i, j - 1);
      assert StepAt(states, steps, j - 1);
    }
  }

  // ---------- order ----------

  /** With one worker, what has been started is what has been finished and the one task at work. */
  predicate InOrder(s: ThreadPool.State) {
    && |s.workers| == 1
    && s.started == s.finished + if s.workers[0].Running? then [s.workers[0].task] else []
  }

  lemma StepKeepsOrder(s: ThreadPool.State, step: ThreadPool.Step)
    requires InOrder(s) && ThreadPool.Enabled(s, step)
    ensures InOrder(ThreadPool.Next(s, step))
  {
  }

  /** A pool of one worker sends the responses in the order in which the requests were accepted. */
  lemma {:induction false} OneWorkerKeepsOrder(states: seq<State>, steps: seq<Step>, k: nat)
    requires Run(1, states, steps) && k < |states|
    ensures InOrder(states[k].pool)
    ensures Tasks(states[k].sent) <= states[k].pool.accepted
  {
    RunKeepsInv(1, states, steps, k);
    if k > 0 {
      OneWorkerKeepsOrder(states, steps, k - 1);
      assert StepAt(states, steps, k - 1);
      StepKeepsOrder(states[k - 1].pool, PoolStep(states[k - 1], steps[k - 1]));
    }
  }

  /** Two of n workers have taken the first two requests. */
  ghost predicate BothTaken(s: State, n: nat, a: Incoming, b: Incoming) {
    && s.requests == [a, b] && s.sent == []
    && s.pool.accepted == [0, 1] && s.pool.finished == []
    && |s.pool.workers| == n && n >= 2
    && s.pool.workers[0] == ThreadPool.Running(0) && s.pool.workers[1] == ThreadPool.Running(1)
  }

  lemma FirstIsTaken(n: nat, a: Incoming, b: Incoming)
    requires n >= 2
    ensures var s0 := State.State(ThreadPool.Initial(n), [], []);
            && Possible(s0, Arrive(a))
            && Possible(After(s0, Arrive(a)), Arrive(b))
            && var s2 := After(After(s0, Arrive(a)), Arrive(b));
            && s2.requests == [a, b] && s2.sent == [] && s2.pool.finished == []
            && s2.pool.accepted == s2.pool.queue == [0, 1]
            && |s2.pool.workers| == n
            && s2.pool.workers[0] == s2.pool.workers[1] == ThreadPool.Awake
  {
  }

  lemma SecondIsTaken(s2: State, n: nat, a: Incoming, b: Incoming)
    requires n >= 2 && |s2.pool.workers| == n && s2.requests == [a, b] && s2.sent == [] && s2.pool.finished == []
    requires s2.pool.accepted == s2.pool.queue == [0, 1]
    requires s2.pool.workers[0] == s2.pool.workers[1] == ThreadPool.Awake
    ensures Possible(s2, Other(ThreadPool.Look(0)))
    ensures Possible(After(s2, Other(ThreadPool.Look(0))), Other(ThreadPool.Look(1)))
    ensures BothTaken(After(After(s2, Other(ThreadPool.Look(0))), Other(ThreadPool.Look(1))), n, a, b)
  {
    assert [0, 1][1..] == [1];
  }

  lemma SecondIsDone(s4: State, n: nat, a: Incoming, b: Incoming, outcome: Outcome, now: uint64)
    requires BothTaken(s4, n, a, b)
    ensures Possible(s4, Done(1, outcome, now))
    ensures var s5 := After(s4, Done(1, outcome, now)); Tasks(s5.sent) == [1] && s5.pool.accepted == [0, 1]
  {
  }

  lemma RunSnoc(n: nat, states: seq<State>, steps: seq<Step>, step: Step) returns (more: seq<State>, all: seq<Step>)
    requires Run(n, states, steps) && Possible(states[|steps|], step)
    ensures Run(n, more, all) && |all| == |steps| + 1
    ensures states <= more && more[|all|] == After(states[|steps|], step)
    ensures steps <= all && all[|steps|] == step
  {
    more, all := states + [After(states[|steps|], step)], steps + [step];
    forall i | 0 <= i < |all| ensures StepAt(more, all, i) {
      if i < |steps| { assert StepAt(states, steps, i); }
    }
  }

  ghost predicate Overtakes(n: nat, states: seq<State>, steps: seq<Step>, a: Incoming, b: Incoming) {
    && Run(n, states, steps) && |steps| == 5
    && steps[0] == Arrive(a) && steps[1] == Arrive(b)
    && states[5].pool.accepted == [0, 1] && Tasks(states[5].sent) == [1]
  }

  /** Any more workers than one may overtake: of any two requests, the second may be answered first. */
  lemma MoreWorkersMayOvertake(n: nat, a: Incoming, b: Incoming, outcome: Outcome, now: uint64)
    requires n >= 2
    ensures exists states: seq<State>, steps: seq<Step> :: Overtakes(n, states, steps, a, b)
  {
    FirstIsTaken(n, a, b);
    var states, steps := [State.State(ThreadPool.Initial(n), [], [])], [];
    states, steps := RunSnoc(n, states, steps, Arrive(a));
    states, steps := RunSnoc(n, states, steps, Arrive(b));
    SecondIsTaken(states[2], n, a, b);
    states, steps := RunSnoc(n, states, steps, Other(ThreadPool.Look(0)));
    states, steps := RunSnoc(n, states, steps, Other(ThreadPool.Look(1)));
    SecondIsDone(states[4], n, a, b, outcome, now);
    states, steps := RunSnoc(n, states, steps, Done(1, outcome, now));
    assert Overtakes(n, states, steps, a, b);
  }

  /** In every run of a pool asked for n workers the responses are sent in the order of acceptance. */
  ghost predicate KeepsOrder(n: nat) {
    forall states: seq<State>, steps: seq<Step>, k: nat ::
      Run(n, states, steps) && k < |states| ==> Tasks(states[k].sent) <= states[k].pool.accepted
  }

  /** Responses keep the order of their requests exactly when there is but one worker. */
  lemma OrderExactly(n: nat)
    ensures KeepsOrder(n) <==> n <= 1
  {
    if n <= 1 {
      forall states: seq<State>, steps: seq<Step>, k: nat | Run(n, states, steps) && k < |states|
        ensures Tasks(states[k].sent) <= states[k].pool.accepted {
        assert ThreadPool.Initial(0) == ThreadPool.Initial(1);
        OneWorkerKeepsOrder(states, steps, k);
      }
    } else {
      var request := Incoming(0, Message(Request, "PING", 0, "", Obj(map[]), NoStatus, "", ""));
      MoreWorkersMayOvertake(n, request, request, Unregistered, 0);
      var states: seq<State>, steps: seq<Step> :| Overtakes(n, states, steps, request, request);
      assert Tasks(states[5].sent)[0] == 1 && states[5].pool.accepted[0] == 0;
      assert !(Tasks(states[5].sent) <= states[5].pool.accepted);
    }
  }
}
