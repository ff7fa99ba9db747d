// handle_request / main_flow: the request state machine, as a pure function of a trace
// that supplies the clock readings and the outcome of every awaited stage.

module Orchestrator {
  import opened Wrappers
  import opened Bytes
  import opened Json
  import opened FormatSpec
  import Text
  import Base64
  import Validator
  import Dummy
  import Executor

  // ---------------------------------------------------------------------------
  // Configuration and time

  /** The response deadline and the stage budgets, in seconds. */
  datatype Config = Config(clientRespond: real, plan: real, codegen1: real, run1: real,
                           repairCodegen: real, repairRun: real)

  /** The defaults the configuration reads when the environment sets nothing. */
  const DefaultConfig: Config := Config(285.0, 12.0, 40.0, 90.0, 35.0, 70.0)

  /** The floors under each stage timeout. */
  const PlanFloor: real := 3.0
  const CodegenFloor: real := 5.0
  const RunFloor: real := 10.0

  function Min(a: real, b: real): real { if a <= b then a else b }
  function Max(a: real, b: real): real { if a >= b then a else b }

  /** `min(budget, max(floor, deadline - now))`: the remaining time, raised to the
      floor and capped by the budget. */
  function StageTimeout(budget: real, floor: real, deadline: real, now: real): (t: real)
    ensures t <= budget
    ensures t >= Min(budget, floor)
    ensures floor <= deadline - now <= budget ==> t == deadline - now
    ensures deadline - now <= floor ==> t == Min(budget, floor)
  {
    Min(budget, Max(floor, deadline - now))
  }

  /** `max(1, deadline - now)`: the timeout around the whole flow. */
  function OuterTimeout(deadline: real, now: real): (t: real)
    ensures t >= 1.0
    ensures deadline - now >= 1.0 ==> t == deadline - now
    ensures deadline - now < 1.0 ==> t == 1.0
  {
    Max(1.0, deadline - now)
  }

  /** The monotonic clock at each point where the flow reads it, measured from the
      reading taken when the request starts; the deadline is then `client_respond`. */
  datatype Clock = Clock(outer: real, plan: real, codegen1: real, run1: real,
                         repairCheck: real, codegen2: real, run2: real)

  // ---------------------------------------------------------------------------
  // The trace

  /** What an awaited stage did: returned a value, or raised (its own timeout, any
      exception, or the expiry of the outer timeout while it ran). */
  datatype Stage<T> = Returned(value: T) | Raised

  /** Everything the flow receives from outside: `json.loads` and the float operations,
      the dummy's PNG bytes, the clock, and each stage's outcome. */
  datatype World = World(host: Host, png: seq<byte>, clock: Clock,
                         plan: Stage<JsonValue>, codegen1: Stage<string>, run1: Stage<Executor.RunResult>,
                         codegen2: Stage<string>, run2: Stage<Executor.RunResult>)

  // ---------------------------------------------------------------------------
  // What the flow records

  /** The logged phases, in the vocabulary of the log entries. */
  datatype Phase =
    | Start(attachments: seq<string>)
    | FormatSpecPhase(spec: Spec)
    | PlanPhase
    | Codegen1
    | Run1(ok: bool)
    | Validate1(passed: bool)
    | Codegen2
    | Run2(ok: bool)
    | Validate2(passed: bool)
    | FallbackDummy

  /** The calls made to the planner, the code generator and the runner, with the
      arguments the model tracks and the timeout each is given. */
  datatype Call =
    | PlanCall(timeout: real)
    | CodegenCall(plan: JsonValue, repair: Option<string>, timeout: real)
    | RunCall(code: string, timeout: real)

  /** How `main_flow` ended: with a payload, or by raising. */
  datatype Flow = Done(payload: string, phases: seq<Phase>, calls: seq<Call>)
                | Failed(phases: seq<Phase>, calls: seq<Call>)

  datatype Response = Response(answer: string, phases: seq<Phase>, calls: seq<Call>, outerTimeout: real)

  /** The context the repair prompt receives. */
  function RepairContext(stdout: string, stderr: string): string {
    "PREVIOUS STDOUT:\n" + stdout + "\n\nPREVIOUS STDERR:\n" + stderr + "\n"
  }

  /** Both streams of the failed run reach the repair prompt, in order. */
  lemma RepairContextHoldsBoth(stdout: string, stderr: string)
    ensures var c := RepairContext(stdout, stderr);
      && Text.MatchAt(c, stdout, 17)
      && Text.MatchAt(c, stderr, 17 + |stdout| + 19)
  {
    var c := RepairContext(stdout, stderr);
    assert c == "PREVIOUS STDOUT:\n" + stdout + ("\n\nPREVIOUS STDERR:\n" + stderr + "\n");
    assert c[17..17 + |stdout|] == stdout;
    assert c == ("PREVIOUS STDOUT:\n" + stdout + "\n\nPREVIOUS STDERR:\n") + stderr + "\n";
    assert c[17 + |stdout| + 19..17 + |stdout| + 19 + |stderr|] == stderr;
  }

  // ---------------------------------------------------------------------------
  // main_flow

  /** Steps 6 and on: the repair attempt, taken only while the deadline has not
      passed; every way it ends without a payload is the final raise. */
  function Repair(w: World, validate: string -> Validator.Verdict, cfg: Config, deadline: real, plan: JsonValue,
                  first: Executor.RunResult, phases: seq<Phase>, calls: seq<Call>): (f: Flow)
    ensures |phases| <= |f.phases| && f.phases[..|phases|] == phases
    ensures |calls| <= |f.calls| <= |calls| + 2 && f.calls[..|calls|] == calls
    ensures f.Done? ==> |f.phases| > 0 && f.phases[|f.phases| - 1] == Validate2(true)
  {
    if !(w.clock.repairCheck < deadline) then Failed(phases, calls)
    else
      var cg := CodegenCall(plan, Some(RepairContext(first.stdout, first.stderr)),
                            StageTimeout(cfg.repairCodegen, CodegenFloor, deadline, w.clock.codegen2));
      match w.codegen2
      case Raised => Failed(phases, calls + [cg])
      case Returned(code) =>
        var calls' := calls + [cg, RunCall(code, StageTimeout(cfg.repairRun, RunFloor, deadline, w.clock.run2))];
        match w.run2
        case Raised => Failed(phases + [Codegen2], calls')
        case Returned(r) =>
          var phases' := phases + [Codegen2, Run2(r.ok)];
          if !r.ok then Failed(phases', calls')
          else match validate(r.stdout)
            case Accepted(p) => Done(p, phases' + [Validate2(true)], calls')
            case Rejected(_) => Failed(phases' + [Validate2(false)], calls')
            case Crashed(_) => Failed(phases', calls')
  }

  /** `main_flow()`: plan, generate, run, validate; on a failed or rejected first
      attempt, the repair path. `validate` is `validate_and_coerce` with the request's
      spec. */
  function MainFlow(w: World, validate: string -> Validator.Verdict, cfg: Config, deadline: real): (f: Flow)
    ensures 1 <= |f.calls| <= 5 && f.calls[0].PlanCall?
    ensures f.Done? ==> |f.phases| > 0 && f.phases[|f.phases| - 1] in {Validate1(true), Validate2(true)}
  {
    var pc := PlanCall(StageTimeout(cfg.plan, PlanFloor, deadline, w.clock.plan));
    match w.plan
    case Raised => Failed([], [pc])
    case Returned(plan) =>
      var cg := CodegenCall(plan, None, StageTimeout(cfg.codegen1, CodegenFloor, deadline, w.clock.codegen1));
      match w.codegen1
      case Raised => Failed([PlanPhase], [pc, cg])
      case Returned(code) =>
        var calls := [pc, cg, RunCall(code, StageTimeout(cfg.run1, RunFloor, deadline, w.clock.run1))];
        match w.run1
        case Raised => Failed([PlanPhase, Codegen1], calls)
        case Returned(r) =>
          var phases := [PlanPhase, Codegen1, Run1(r.ok)];
          if !r.ok then Repair(w, validate, cfg, deadline, plan, r, phases, calls)
          else match validate(r.stdout)
            case Accepted(p) => Done(p, phases + [Validate1(true)], calls)
            case Rejected(_) => Repair(w, validate, cfg, deadline, plan, r, phases + [Validate1(false)], calls)
            case Crashed(_) => Failed(phases, calls)
  }

  /** `validate_and_coerce(stdout, spec)` as the flow calls it. */
  function Validation(w: World, spec: Spec): string -> Validator.Verdict {
    s => Validator.ValidateAndCoerce(w.host, s, spec)
  }

  /** What the flow leaves in the log after the spec: its own phases, and the fallback
      when it raised. */
  function FlowLog(spec: Spec, f: Flow): seq<Phase> {
    [FormatSpecPhase(spec)] + f.phases + (if f.Done? then [] else [FallbackDummy])
  }

  /** What `handle_request` returns once the flow has ended: the flow's payload, or the
      dummy after logging the fallback. The log opens with the start and the spec. */
  function Conclude(spec: Spec, attachments: seq<string>, f: Flow, dummy: string, outer: real): Response {
    Response(if f.Done? then f.payload else dummy, [Start(attachments)] + FlowLog(spec, f), f.calls, outer)
  }

  /** `handle_request(task, attachments)`: infer the spec from the task, run the flow
      against the deadline, and fall back to the dummy when it fails. */
  function HandleRequest(w: World, cfg: Config, task: string, attachments: seq<string>): (r: Response)
    ensures r.outerTimeout >= 1.0
    ensures |r.phases| >= 2 && r.phases[0] == Start(attachments) && r.phases[1] == FormatSpecPhase(MakeFormatSpec(task))
    ensures 1 <= |r.calls| <= 5 && r.calls[0].PlanCall?
  {
    var deadline := cfg.clientRespond;
    var spec := MakeFormatSpec(task);
    Conclude(spec, attachments, MainFlow(w, Validation(w, spec), cfg, deadline),
             Dummy.MakeDummyAnswer(spec, w.png), OuterTimeout(deadline, w.clock.outer))
  }

  // ---------------------------------------------------------------------------
  // Properties

  /** The phase that may be logged right after `a`. */
  predicate Follows(a: Phase, b: Phase) {
    match a
    case Start(_) => b.FormatSpecPhase?
    case FormatSpecPhase(_) => b == PlanPhase || b == FallbackDummy
    case PlanPhase => b == Codegen1 || b == FallbackDummy
    case Codegen1 => b.Run1? || b == FallbackDummy
    case Run1(ok) => (if ok then b.Validate1? else b == Codegen2) || b == FallbackDummy
    case Validate1(passed) => !passed && (b == Codegen2 || b == FallbackDummy)
    case Codegen2 => b.Run2? || b == FallbackDummy
    case Run2(ok) => (ok && b.Validate2?) || b == FallbackDummy
    case Validate2(passed) => !passed && b == FallbackDummy
    case FallbackDummy => false
  }

  /** A complete log: it opens with the start and the spec, each phase may follow the
      one before, and it closes with an accepted validation or the fallback. */
  predicate CompleteLog(ph: seq<Phase>) {
    && |ph| >= 3
    && ph[0].Start? && ph[1].FormatSpecPhase?
    && (forall i :: 0 < i < |ph| ==> Follows(ph[i - 1], ph[i]))
    && (ph[|ph| - 1] == Validate1(true) || ph[|ph| - 1] == Validate2(true) || ph[|ph| - 1] == FallbackDummy)
  }

  /** Position of a phase in the order the flow logs them. */
  function Rank(p: Phase): nat {
    match p
    case Start(_) => 0
    case FormatSpecPhase(_) => 1
    case PlanPhase => 2
    case Codegen1 => 3
    case Run1(_) => 4
    case Validate1(_) => 5
    case Codegen2 => 6
    case Run2(_) => 7
    case Validate2(_) => 8
    case FallbackDummy => 9
  }

  /** A complete log names each phase at most once, in the flow's order; a validation
      is logged only straight after a run that reported success; and the fallback, if
      logged, is last. */
  lemma {:induction false} CompleteLogOrdered(ph: seq<Phase>)
    requires CompleteLog(ph)
    ensures forall i, j :: 0 <= i < j < |ph| ==> Rank(ph[i]) < Rank(ph[j])
    ensures forall i :: 0 < i < |ph| && ph[i].Validate1? ==> ph[i - 1] == Run1(true)
    ensures forall i :: 0 < i < |ph| && ph[i].Validate2? ==> ph[i - 1] == Run2(true)
    ensures forall i :: 0 <= i < |ph| && ph[i] == FallbackDummy ==> i == |ph| - 1
  {
    forall i | 0 < i < |ph| ensures Rank(ph[i - 1]) < Rank(ph[i]) {
      assert Follows(ph[i - 1], ph[i]);
    }
    forall i, j | 0 <= i < j < |ph| ensures Rank(ph[i]) < Rank(ph[j]) {
      RankChain(ph, i, j);
    }
  }

  lemma {:induction false} RankChain(ph: seq<Phase>, i: nat, j: nat)
    requires i < j < |ph|
    requires forall k :: 0 < k < |ph| ==> Rank(ph[k - 1]) < Rank(ph[k])
    ensures Rank(ph[i]) < Rank(ph[j])
    decreases j - i
  {
    if i + 1 < j {
      RankChain(ph, i, j - 1);
      assert Rank(ph[j - 1]) < Rank(ph[j]);
    } else {
      assert Rank(ph[j - 1]) < Rank(ph[j]);
    }
  }

  /** The calls in the only order the flow can make them: the planner, the generator,
      the runner, and, on the repair path, the generator and the runner once more. */
  predicate CallsInOrder(calls: seq<Call>) {
    && 1 <= |calls| <= 5
    && (forall i :: 0 <= i < |calls| ==> (calls[i].PlanCall? <==> i == 0))
    && (forall i :: 0 <= i < |calls| ==> (calls[i].CodegenCall? <==> i == 1 || i == 3))
    && (forall i :: 0 <= i < |calls| ==> (calls[i].RunCall? <==> i == 2 || i == 4))
  }

  /** The budget and the floor of the `i`-th call. */
  function BudgetOf(cfg: Config, i: nat): real {
    if i == 0 then cfg.plan
    else if i == 1 then cfg.codegen1
    else if i == 2 then cfg.run1
    else if i == 3 then cfg.repairCodegen
    else cfg.repairRun
  }

  function FloorOf(i: nat): real {
    if i == 0 then PlanFloor
    else if i == 1 || i == 3 then CodegenFloor
    else RunFloor
  }

  function TimeoutOf(c: Call): real {
    match c
    case PlanCall(t) => t
    case CodegenCall(_, _, t) => t
    case RunCall(_, t) => t
  }

  /** Every call gets at most its budget and at least the smaller of budget and floor. */
  predicate TimeoutsBounded(calls: seq<Call>, cfg: Config) {
    forall i :: 0 <= i < |calls| ==>
      Min(BudgetOf(cfg, i), FloorOf(i)) <= TimeoutOf(calls[i]) <= BudgetOf(cfg, i)
  }

  /** Each phase may follow the one before. */
  predicate Chained(ph: seq<Phase>) {
    forall i :: 0 < i < |ph| ==> Follows(ph[i - 1], ph[i])
  }

  lemma ChainSnoc(ph: seq<Phase>, p: Phase)
    requires Chained(ph) && |ph| > 0 && Follows(ph[|ph| - 1], p)
    ensures Chained(ph + [p])
  {
    var q := ph + [p];
    forall i | 0 < i < |q| ensures Follows(q[i - 1], q[i]) {
      if i < |ph| {
        assert q[i - 1] == ph[i - 1] && q[i] == ph[i];
      }
    }
  }

  /** The last phase the flow logs itself when it returns a payload. */
  predicate EndsAccepted(f: Flow) {
    f.Done? ==> |f.phases| > 0 && (f.phases[|f.phases| - 1] == Validate1(true) || f.phases[|f.phases| - 1] == Validate2(true))
  }

  /** The repair path continues a log that ended with a failed run or a rejected first
      answer, and keeps it chained. */
  lemma RepairLog(w: World, validate: string -> Validator.Verdict, spec: Spec, cfg: Config, deadline: real,
                  plan: JsonValue, first: Executor.RunResult, phases: seq<Phase>, calls: seq<Call>)
    requires |phases| > 0 && (phases[|phases| - 1] == Run1(false) || phases[|phases| - 1] == Validate1(false))
    requires Chained([FormatSpecPhase(spec)] + phases)
    ensures var f := Repair(w, validate, cfg, deadline, plan, first, phases, calls);
      Chained(FlowLog(spec, f)) && EndsAccepted(f)
  {
    var base := [FormatSpecPhase(spec)] + phases;
    assert base[|base| - 1] == phases[|phases| - 1];
    var f := Repair(w, validate, cfg, deadline, plan, first, phases, calls);
    if f.phases == phases {
      ChainSnoc(base, FallbackDummy);
      assert FlowLog(spec, f) == base + [FallbackDummy];
    } else {
      ChainSnoc(base, Codegen2);
      var b1 := base + [Codegen2];
      if f.phases == phases + [Codegen2] {
        ChainSnoc(b1, FallbackDummy);
        assert FlowLog(spec, f) == b1 + [FallbackDummy];
      } else {
        var r := w.run2.value;
        ChainSnoc(b1, Run2(r.ok));
        var b2 := b1 + [Run2(r.ok)];
        assert [FormatSpecPhase(spec)] + (phases + [Codegen2, Run2(r.ok)]) == b2;
        if f.phases == phases + [Codegen2, Run2(r.ok)] {
          ChainSnoc(b2, FallbackDummy);
          assert FlowLog(spec, f) == b2 + [FallbackDummy];
        } else {
          var v := f.phases[|f.phases| - 1];
          assert f.phases == phases + [Codegen2, Run2(r.ok)] + [v];
          ChainSnoc(b2, v);
          var b3 := b2 + [v];
          if f.Done? {
            assert FlowLog(spec, f) == b3;
          } else {
            ChainSnoc(b3, FallbackDummy);
            assert FlowLog(spec, f) == b3 + [FallbackDummy];
          }
        }
      }
    }
  }

  /** The flow's own log, path by path: chained from the spec on, and ending with an
      accepted validation when it returns. */
  lemma FlowLogChained(w: World, validate: string -> Validator.Verdict, spec: Spec, cfg: Config, deadline: real)
    ensures var f := MainFlow(w, validate, cfg, deadline);
      Chained(FlowLog(spec, f)) && EndsAccepted(f)
  {
    var f := MainFlow(w, validate, cfg, deadline);
    var b0 := [FormatSpecPhase(spec)];
    if w.plan.Raised? {
      assert FlowLog(spec, f) == [FormatSpecPhase(spec), FallbackDummy];
    } else if w.codegen1.Raised? {
      assert FlowLog(spec, f) == [FormatSpecPhase(spec), PlanPhase, FallbackDummy];
    } else if w.run1.Raised? {
      assert FlowLog(spec, f) == [FormatSpecPhase(spec), PlanPhase, Codegen1, FallbackDummy];
    } else {
      var r := w.run1.value;
      var phases := [PlanPhase, Codegen1, Run1(r.ok)];
      var b := [FormatSpecPhase(spec), PlanPhase, Codegen1, Run1(r.ok)];
      assert Chained(b);
      assert b0 + phases == b;
      if !r.ok {
        RepairLog(w, validate, spec, cfg, deadline, w.plan.value, r, phases, f.calls[..3]);
      } else {
        var v := validate(r.stdout);
        if v.Accepted? {
          assert FlowLog(spec, f) == b + [Validate1(true)];
          ChainSnoc(b, Validate1(true));
        } else if v.Rejected? {
          ChainSnoc(b, Validate1(false));
          assert b0 + (phases + [Validate1(false)]) == b + [Validate1(false)];
          RepairLog(w, validate, spec, cfg, deadline, w.plan.value, r, phases + [Validate1(false)], f.calls[..3]);
        } else {
          assert FlowLog(spec, f) == b + [FallbackDummy];
          ChainSnoc(b, FallbackDummy);
        }
      }
    }
  }

  /** The calls the flow makes, one by one: each is made only once the stage before it
      returned, the repair generator only before the deadline, with the first plan and
      both streams of the first run, and each with its stage's timeout. */
  lemma FlowCalls(w: World, validate: string -> Validator.Verdict, cfg: Config, deadline: real)
    ensures var f := MainFlow(w, validate, cfg, deadline);
      && 1 <= |f.calls| <= 5
      && f.calls[0] == PlanCall(StageTimeout(cfg.plan, PlanFloor, deadline, w.clock.plan))
      && (|f.calls| > 1 ==>
            w.plan.Returned?
            && f.calls[1] == CodegenCall(w.plan.value, None, StageTimeout(cfg.codegen1, CodegenFloor, deadline, w.clock.codegen1)))
      && (|f.calls| > 2 ==>
            w.codegen1.Returned?
            && f.calls[2] == RunCall(w.codegen1.value, StageTimeout(cfg.run1, RunFloor, deadline, w.clock.run1)))
      && (|f.calls| > 3 ==>
            w.run1.Returned? && w.clock.repairCheck < deadline
            && f.calls[3] == CodegenCall(w.plan.value, Some(RepairContext(w.run1.value.stdout, w.run1.value.stderr)),
                                         StageTimeout(cfg.repairCodegen, CodegenFloor, deadline, w.clock.codegen2)))
      && (|f.calls| > 4 ==>
            w.codegen2.Returned?
            && f.calls[4] == RunCall(w.codegen2.value, StageTimeout(cfg.repairRun, RunFloor, deadline, w.clock.run2)))
  {
  }

  /** Calls laid out as the flow makes them are in order and within their budgets. */
  lemma CallsWithinBudgets(w: World, validate: string -> Validator.Verdict, cfg: Config, deadline: real)
    ensures var f := MainFlow(w, validate, cfg, deadline);
      CallsInOrder(f.calls) && TimeoutsBounded(f.calls, cfg)
  {
    var f := MainFlow(w, validate, cfg, deadline);
    FlowCalls(w, validate, cfg, deadline);
    forall i | 0 <= i < |f.calls|
      ensures Min(BudgetOf(cfg, i), FloorOf(i)) <= TimeoutOf(f.calls[i]) <= BudgetOf(cfg, i)
    {
      if i == 0 {} else if i == 1 {} else if i == 2 {} else if i == 3 {} else {}
    }
  }

  /** The repair path is taken exactly when the first attempt produced a run whose
      output failed or was rejected, and the deadline had not yet passed. */
  lemma RepairGate(w: World, validate: string -> Validator.Verdict, cfg: Config, deadline: real)
    ensures var f := MainFlow(w, validate, cfg, deadline);
      |f.calls| > 3 <==>
        && w.plan.Returned? && w.codegen1.Returned? && w.run1.Returned?
        && (!w.run1.value.ok || validate(w.run1.value.stdout).Rejected?)
        && w.clock.repairCheck < deadline
  {
  }

  /** A returned payload is the accepted validation of one of the two runs, and the
      flow's last phase says which. */
  predicate PayloadTraced(f: Flow, w: World, validate: string -> Validator.Verdict) {
    f.Done? ==>
      || (|f.phases| > 0 && f.phases[|f.phases| - 1] == Validate1(true) && |f.calls| == 3
          && w.run1.Returned? && w.run1.value.ok && validate(w.run1.value.stdout) == Validator.Accepted(f.payload))
      || (|f.phases| > 0 && f.phases[|f.phases| - 1] == Validate2(true) && |f.calls| == 5
          && w.run2.Returned? && w.run2.value.ok && validate(w.run2.value.stdout) == Validator.Accepted(f.payload))
  }

  lemma FlowPayload(w: World, validate: string -> Validator.Verdict, cfg: Config, deadline: real)
    ensures PayloadTraced(MainFlow(w, validate, cfg, deadline), w, validate)
  {
  }

  /** The flow's paths that end without a repair. */
  lemma FlowFirstAccepted(w: World, validate: string -> Validator.Verdict, cfg: Config, deadline: real)
    requires w.plan.Returned? && w.codegen1.Returned? && w.run1.Returned? && w.run1.value.ok
    requires validate(w.run1.value.stdout).Accepted?
    ensures var f := MainFlow(w, validate, cfg, deadline);
      && f == Done(validate(w.run1.value.stdout).payload, [PlanPhase, Codegen1, Run1(true), Validate1(true)], f.calls)
      && |f.calls| == 3
  {
  }

  lemma FlowCrashed(w: World, validate: string -> Validator.Verdict, cfg: Config, deadline: real)
    requires w.plan.Returned? && w.codegen1.Returned? && w.run1.Returned? && w.run1.value.ok
    requires validate(w.run1.value.stdout).Crashed?
    ensures var f := MainFlow(w, validate, cfg, deadline);
      f == Failed([PlanPhase, Codegen1, Run1(true)], f.calls) && |f.calls| == 3
  {
  }

  lemma FlowEarlyRaise(w: World, validate: string -> Validator.Verdict, cfg: Config, deadline: real)
    requires w.plan.Raised? || w.codegen1.Raised? || w.run1.Raised?
    ensures var f := MainFlow(w, validate, cfg, deadline);
      && f.Failed? && |f.calls| <= 3 && |f.phases| <= 2
      && forall i :: 0 <= i < |f.phases| ==> f.phases[i] == PlanPhase || f.phases[i] == Codegen1
  {
  }

  /** Both runs failing, with time left for the repair, is the one path through all
      five calls that ends without a payload after the second run. */
  lemma FlowTwoFailedRuns(w: World, validate: string -> Validator.Verdict, cfg: Config, deadline: real)
    requires w.plan.Returned? && w.codegen1.Returned? && w.run1.Returned? && !w.run1.value.ok
    requires w.clock.repairCheck < deadline
    requires w.codegen2.Returned? && w.run2.Returned? && !w.run2.value.ok
    ensures var f := MainFlow(w, validate, cfg, deadline);
      f == Failed([PlanPhase, Codegen1, Run1(false), Codegen2, Run2(false)], f.calls) && |f.calls| == 5
  {
  }

  // ---------------------------------------------------------------------------
  // handle_request

  lemma ChainCons(p: Phase, ph: seq<Phase>)
    requires Chained(ph) && |ph| > 0 && Follows(p, ph[0])
    ensures Chained([p] + ph)
  {
    var q := [p] + ph;
    forall i | 0 < i < |q| ensures Follows(q[i - 1], q[i]) {
      if i > 1 {
        assert q[i - 1] == ph[i - 2] && q[i] == ph[i - 1];
      }
    }
  }

  /** A complete response log that opens with the attachments and the spec. */
  predicate LogShape(r: Response, spec: Spec, attachments: seq<string>) {
    && CompleteLog(r.phases)
    && r.phases[0] == Start(attachments) && r.phases[1] == FormatSpecPhase(spec)
  }

  /** Where the answer came from, read off the last logged phase: the dummy after the
      fallback, otherwise the accepted validation of the run the phase names. */
  predicate AnswerTraced(r: Response, w: World, validate: string -> Validator.Verdict, dummy: string) {
    && |r.phases| > 0
    && (r.phases[|r.phases| - 1] == FallbackDummy ==> r.answer == dummy)
    && (r.phases[|r.phases| - 1] == Validate1(true) ==>
          w.run1.Returned? && w.run1.value.ok && validate(w.run1.value.stdout) == Validator.Accepted(r.answer))
    && (r.phases[|r.phases| - 1] == Validate2(true) ==>
          w.run2.Returned? && w.run2.value.ok && validate(w.run2.value.stdout) == Validator.Accepted(r.answer))
  }

  /** Whatever the flow did, a flow whose log is chained, that ends in an accepted
      validation when it returns, and whose payload is traced, concludes in a response
      with a complete log and a traced answer. */
  lemma ConcludeTraced(spec: Spec, attachments: seq<string>, f: Flow, dummy: string, outer: real,
                       w: World, validate: string -> Validator.Verdict)
    requires Chained(FlowLog(spec, f)) && EndsAccepted(f) && PayloadTraced(f, w, validate)
    ensures LogShape(Conclude(spec, attachments, f, dummy, outer), spec, attachments)
    ensures AnswerTraced(Conclude(spec, attachments, f, dummy, outer), w, validate, dummy)
  {
    var log := FlowLog(spec, f);
    ChainCons(Start(attachments), log);
    var r := Conclude(spec, attachments, f, dummy, outer);
    assert r.phases[|r.phases| - 1] == log[|log| - 1];
    if f.Done? {
      assert log[|log| - 1] == f.phases[|f.phases| - 1];
    }
  }

  /** The response log is the start, the spec, the flow's phases, and the fallback
      when the flow raised. */
  lemma ConcludePhases(spec: Spec, attachments: seq<string>, f: Flow, dummy: string, outer: real)
    ensures f.Done? ==> Conclude(spec, attachments, f, dummy, outer).phases
                        == [Start(attachments), FormatSpecPhase(spec)] + f.phases
    ensures f.Failed? ==> Conclude(spec, attachments, f, dummy, outer).phases
                          == [Start(attachments), FormatSpecPhase(spec)] + f.phases + [FallbackDummy]
  {
    assert [Start(attachments)] + ([FormatSpecPhase(spec)] + f.phases)
        == [Start(attachments), FormatSpecPhase(spec)] + f.phases;
    assert [Start(attachments)] + ([FormatSpecPhase(spec)] + f.phases + [FallbackDummy])
        == [Start(attachments), FormatSpecPhase(spec)] + f.phases + [FallbackDummy];
  }

  /** The log of every response is complete and opens with the attachments and the
      spec inferred from the task; the outer timeout is `max(1, deadline - now)`. */
  lemma ResponseShape(w: World, cfg: Config, task: string, attachments: seq<string>)
    ensures LogShape(HandleRequest(w, cfg, task, attachments), MakeFormatSpec(task), attachments)
    ensures HandleRequest(w, cfg, task, attachments).outerTimeout
         == OuterTimeout(cfg.clientRespond, w.clock.outer) >= 1.0
  {
    var deadline := cfg.clientRespond;
    var spec := MakeFormatSpec(task);
    var validate := Validation(w, spec);
    FlowLogChained(w, validate, spec, cfg, deadline);
    FlowPayload(w, validate, cfg, deadline);
    ConcludeTraced(spec, attachments, MainFlow(w, validate, cfg, deadline), Dummy.MakeDummyAnswer(spec, w.png),
                   OuterTimeout(deadline, w.clock.outer), w, validate);
  }

  /** The answer is the dummy when the fallback is logged, and otherwise the payload
      `validate_and_coerce` accepted from the run the last phase names. */
  lemma AnswerSource(w: World, cfg: Config, task: string, attachments: seq<string>)
    ensures var spec := MakeFormatSpec(task);
      AnswerTraced(HandleRequest(w, cfg, task, attachments), w, Validation(w, spec), Dummy.MakeDummyAnswer(spec, w.png))
  {
    var deadline := cfg.clientRespond;
    var spec := MakeFormatSpec(task);
    var validate := Validation(w, spec);
    FlowLogChained(w, validate, spec, cfg, deadline);
    FlowPayload(w, validate, cfg, deadline);
    ConcludeTraced(spec, attachments, MainFlow(w, validate, cfg, deadline), Dummy.MakeDummyAnswer(spec, w.png),
                   OuterTimeout(deadline, w.clock.outer), w, validate);
  }

  /** The calls of every response come in order, each within its stage's budget. */
  lemma ResponseCalls(w: World, cfg: Config, task: string, attachments: seq<string>)
    ensures CallsInOrder(HandleRequest(w, cfg, task, attachments).calls)
    ensures TimeoutsBounded(HandleRequest(w, cfg, task, attachments).calls, cfg)
  {
    var spec := MakeFormatSpec(task);
    CallsWithinBudgets(w, Validation(w, spec), cfg, cfg.clientRespond);
  }

  /** Under the default configuration every budget is above its floor, so each call
      gets between its floor and its budget: 3 to 12 seconds for the planner, 5 to 40
      and 5 to 35 for the generator, 10 to 90 and 10 to 70 for the runner. */
  lemma DefaultTimeouts(w: World, task: string, attachments: seq<string>)
    ensures var calls := HandleRequest(w, DefaultConfig, task, attachments).calls;
      forall i :: 0 <= i < |calls| ==> FloorOf(i) <= TimeoutOf(calls[i]) <= BudgetOf(DefaultConfig, i)
  {
    var calls := HandleRequest(w, DefaultConfig, task, attachments).calls;
    ResponseCalls(w, DefaultConfig, task, attachments);
    forall i | 0 <= i < |calls| ensures FloorOf(i) <= TimeoutOf(calls[i]) <= BudgetOf(DefaultConfig, i) {
      assert Min(BudgetOf(DefaultConfig, i), FloorOf(i)) == FloorOf(i);
    }
  }

  /** The repair attempt is made exactly when the first run failed or its output was
      rejected (not when validation crashed), and the clock was still before the
      deadline; it is given the first plan and both streams of the first run. */
  lemma RepairHappens(w: World, cfg: Config, task: string, attachments: seq<string>)
    ensures var r := HandleRequest(w, cfg, task, attachments);
      && (|r.calls| > 3 <==>
            && w.plan.Returned? && w.codegen1.Returned? && w.run1.Returned?
            && (!w.run1.value.ok || Validator.ValidateAndCoerce(w.host, w.run1.value.stdout, MakeFormatSpec(task)).Rejected?)
            && w.clock.repairCheck < cfg.clientRespond)
      && (|r.calls| > 3 ==>
            && r.calls[3].CodegenCall? && r.calls[1].CodegenCall? && r.calls[3].plan == r.calls[1].plan
            && r.calls[3].repair == Some(RepairContext(w.run1.value.stdout, w.run1.value.stderr)))
  {
    var spec := MakeFormatSpec(task);
    RepairGate(w, Validation(w, spec), cfg, cfg.clientRespond);
    FlowCalls(w, Validation(w, spec), cfg, cfg.clientRespond);
  }

  /** An answer accepted on the first run is returned at once: no repair call, and
      the log stops at the first validation. */
  lemma FirstAcceptedReturnsAtOnce(w: World, cfg: Config, task: string, attachments: seq<string>)
    requires w.plan.Returned? && w.codegen1.Returned? && w.run1.Returned? && w.run1.value.ok
    requires Validator.ValidateAndCoerce(w.host, w.run1.value.stdout, MakeFormatSpec(task)).Accepted?
    ensures var r := HandleRequest(w, cfg, task, attachments);
      && r.answer == Validator.ValidateAndCoerce(w.host, w.run1.value.stdout, MakeFormatSpec(task)).payload
      && |r.calls| == 3
      && r.phases == [Start(attachments), FormatSpecPhase(MakeFormatSpec(task))]
                    + [PlanPhase, Codegen1, Run1(true), Validate1(true)]
  {
    var spec := MakeFormatSpec(task);
    var validate := Validation(w, spec);
    assert validate(w.run1.value.stdout) == Validator.ValidateAndCoerce(w.host, w.run1.value.stdout, spec);
    FlowFirstAccepted(w, validate, cfg, cfg.clientRespond);
    ConcludePhases(spec, attachments, MainFlow(w, validate, cfg, cfg.clientRespond),
                   Dummy.MakeDummyAnswer(spec, w.png), OuterTimeout(cfg.clientRespond, w.clock.outer));
  }

  /** A validation that fails with anything but a ValidationError is not repaired: the
      dummy is returned and no further call is made. */
  lemma CrashSkipsRepair(w: World, cfg: Config, task: string, attachments: seq<string>)
    requires w.plan.Returned? && w.codegen1.Returned? && w.run1.Returned? && w.run1.value.ok
    requires Validator.ValidateAndCoerce(w.host, w.run1.value.stdout, MakeFormatSpec(task)).Crashed?
    ensures var r := HandleRequest(w, cfg, task, attachments);
      && r.answer == Dummy.MakeDummyAnswer(MakeFormatSpec(task), w.png)
      && |r.calls| == 3
      && r.phases == [Start(attachments), FormatSpecPhase(MakeFormatSpec(task))] + [PlanPhase, Codegen1, Run1(true)] + [FallbackDummy]
  {
    var spec := MakeFormatSpec(task);
    var validate := Validation(w, spec);
    assert validate(w.run1.value.stdout) == Validator.ValidateAndCoerce(w.host, w.run1.value.stdout, spec);
    FlowCrashed(w, validate, cfg, cfg.clientRespond);
    ConcludePhases(spec, attachments, MainFlow(w, validate, cfg, cfg.clientRespond),
                   Dummy.MakeDummyAnswer(spec, w.png), OuterTimeout(cfg.clientRespond, w.clock.outer));
  }

  /** A first run whose output carries, at its first failing image position, a PNG data
      URI whose base64 payload does not decode ends in the dummy with no repair. */
  lemma Base64ErrorSkipsRepair(w: World, cfg: Config, task: string, attachments: seq<string>,
                               xs: seq<JsonValue>, k: nat)
    requires w.plan.Returned? && w.codegen1.Returned? && w.run1.Returned? && w.run1.value.ok
    requires var spec := MakeFormatSpec(task);
      var s := Text.Strip(w.run1.value.stdout);
      && spec.container == JsonArray
      && Validator.HasBracketPair(s)
      && w.host.loads(Validator.ArraySpan(s).value) == Some(JArray(xs))
      && k < |spec.elements| && spec.elements[k].etype == DataUriPng
      && var arr := Validator.CoerceAll(Validator.FitLength(xs, spec.length), spec.elements, w.host.floats);
      && k < |arr| && arr[k].JStr? && Text.StartsWith(arr[k].s, Validator.PngPrefix)
      && Base64.Decode(arr[k].s[|Validator.PngPrefix|..]).Error?
      && forall j :: 0 <= j < k && spec.elements[j].etype == DataUriPng ==>
           j < |arr| && Validator.CheckImage(arr[j], Validator.Limit(spec.elements[j])).None?
    ensures var r := HandleRequest(w, cfg, task, attachments);
      && r.answer == Dummy.MakeDummyAnswer(MakeFormatSpec(task), w.png)
      && |r.calls| == 3
  {
    Validator.DecodeErrorCrashes(w.host, w.run1.value.stdout, MakeFormatSpec(task), xs, k);
    CrashSkipsRepair(w, cfg, task, attachments);
  }

  /** A planner, generator or first run that raises (or times out) ends in the dummy,
      with no repair and no validation. */
  lemma EarlyRaiseFallsBack(w: World, cfg: Config, task: string, attachments: seq<string>)
    requires w.plan.Raised? || w.codegen1.Raised? || w.run1.Raised?
    ensures var r := HandleRequest(w, cfg, task, attachments);
      && r.answer == Dummy.MakeDummyAnswer(MakeFormatSpec(task), w.png)
      && |r.calls| <= 3
      && r.phases[|r.phases| - 1] == FallbackDummy
      && forall i :: 0 <= i < |r.phases| ==> !r.phases[i].Validate1? && !r.phases[i].Validate2?
  {
    var spec := MakeFormatSpec(task);
    var validate := Validation(w, spec);
    var f := MainFlow(w, validate, cfg, cfg.clientRespond);
    var dummy := Dummy.MakeDummyAnswer(spec, w.png);
    var r := Conclude(spec, attachments, f, dummy, OuterTimeout(cfg.clientRespond, w.clock.outer));
    assert HandleRequest(w, cfg, task, attachments) == r;
    FlowEarlyRaise(w, validate, cfg, cfg.clientRespond);
    ConcludePhases(spec, attachments, f, dummy, OuterTimeout(cfg.clientRespond, w.clock.outer));
    var ph := [Start(attachments), FormatSpecPhase(spec)] + f.phases + [FallbackDummy];
    assert r.phases == ph && r.answer == dummy;
    forall i | 0 <= i < |ph| ensures !ph[i].Validate1? && !ph[i].Validate2? {
      if 2 <= i < |ph| - 1 {
        assert ph[i] == f.phases[i - 2];
      }
    }
  }

  /** The request of the orchestrator's own test: a task for a JSON array with no
      numbered items, whose generated code fails to run both times, gets the one-item
      dummy after both attempts. */
  lemma FailingRunsGiveOneItemDummy(w: World, cfg: Config, task: string, attachments: seq<string>)
    requires Text.Contains(Text.Lower(task), "json array") && CountNumbered(task) == 0
    requires w.plan.Returned? && w.codegen1.Returned? && w.run1.Returned? && !w.run1.value.ok
    requires w.clock.repairCheck < cfg.clientRespond
    requires w.codegen2.Returned? && w.run2.Returned? && !w.run2.value.ok
    ensures var r := HandleRequest(w, cfg, task, attachments);
      && r.answer == "[\"N/A\"]"
      && |r.calls| == 5
      && r.phases == [Start(attachments), FormatSpecPhase(MakeFormatSpec(task))]
                    + [PlanPhase, Codegen1, Run1(false), Codegen2, Run2(false)] + [FallbackDummy]
  {
    var spec := MakeFormatSpec(task);
    assert spec == Spec(JsonArray, None, []);
    var validate := Validation(w, spec);
    FlowTwoFailedRuns(w, validate, cfg, cfg.clientRespond);
    ConcludePhases(spec, attachments, MainFlow(w, validate, cfg, cfg.clientRespond),
                   Dummy.MakeDummyAnswer(spec, w.png), OuterTimeout(cfg.clientRespond, w.clock.outer));
    Dummy.DummyDefaultsToOne(spec, w.png);
  }
}
