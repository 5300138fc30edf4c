/**
 * The task agent of the micro module (newAgent): a single slot holding the value of
 * the most recent task, a debounced runner, and one cancel token per submission.
 *
 * Promise settlement and the debounce timer are explicit inputs that may arrive in
 * any order. Token k is the cancel function created by the k-th call to
 * cancelFactory (token 0 is the one the agent starts with); the current token is the
 * last one, which is what agent.cancel refers to.
 */
module Agents {
  import opened Values

  /** Where the task of one token is in its life. */
  datatype Phase =
    | Idle        // token 0: no task was ever submitted with it
    | Scheduled   // submitted, the debounced runTask has not fired yet
    | Superseded  // a later submit arrived first, so debounce dropped this call
    | Awaiting    // runTask ran and the task's arguments are being resolved
    | Running     // run invoked the task, whose result is pending
    | Done        // accept or reject has been called

  /** A task has been started once runTask ran for it. */
  predicate Started(p: Phase)
  {
    p.Awaiting? || p.Running? || p.Done?
  }

  /** The events the agent triggers on itself. */
  datatype Notice<T> = Submitted | Updated(v: T) | Rejected(e: Error) | Failed(e: Error)

  /** How a task's result promise settles. */
  datatype Settlement<T> = Fulfilled(v: T) | Broken(e: Error)

  /** What can happen to the agent. */
  datatype Input<T> =
    | Submit                                  // agent.submit(task, args...)
    | Cancel                                  // agent.cancel()
    | Debounce                                // the debounce timer fires
    | ArgsResolved(t: nat)                    // when.all of token t's arguments fulfils; run follows
    | ArgsRejected(t: nat, e: Error)          // when.all of token t's arguments rejects
    | Settle(t: nat, outcome: Settlement<T>)  // token t's task result settles
    | HandlerFault(t: nat, e: Error)          // an exception reaches fail for token t's task

  /** The input concerns the task of token t and is absorbed by its cancellation. */
  predicate Concerns<T>(i: Input<T>, t: nat)
  {
    (i.ArgsResolved? || i.ArgsRejected? || i.Settle?) && i.t == t
  }

  /** The agent: its value, the requested flag of every token, and what it has emitted. */
  datatype AgentState<T> = AgentState(value: Option<T>, requested: seq<bool>, phase: seq<Phase>,
                                      invoked: seq<bool>, notices: seq<Notice<T>>)

  /**
   * One entry per token, every token but the current one is cancelled and no longer
   * scheduled, and only a task that is running or done has been invoked.
   */
  predicate WellFormed<T>(s: AgentState<T>)
  {
    && |s.requested| >= 1
    && |s.phase| == |s.requested| && |s.invoked| == |s.requested|
    && forall k :: 0 <= k < |s.requested| ==>
         && (k < |s.requested| - 1 ==> s.requested[k] && !s.phase[k].Scheduled?)
         && (s.invoked[k] ==> s.phase[k].Running? || s.phase[k].Done?)
  }

  /** newAgent(initial). */
  function Init<T>(initial: Option<T>): (s: AgentState<T>)
    ensures WellFormed(s)
    ensures s.value == initial && s.notices == []
  {
    AgentState(initial, [false], [Idle], [false], [])
  }

  /** The current token. */
  function Current<T>(s: AgentState<T>): nat
    requires WellFormed(s)
  {
    |s.requested| - 1
  }

  /**
   * The effect of one input. Inputs for a token whose task is not in the phase they
   * apply to change nothing.
   */
  function Step<T>(s: AgentState<T>, input: Input<T>): (r: AgentState<T>)
    requires WellFormed(s)
    ensures WellFormed(r)
    ensures |s.requested| <= |r.requested|
    ensures forall k :: 0 <= k < |s.requested| && s.requested[k] ==> r.requested[k]
    ensures forall k :: 0 <= k < |s.phase| && s.phase[k].Superseded? ==> r.phase[k].Superseded?
    ensures s.notices <= r.notices
  {
    var cur := Current(s);
    match input
    case Submit =>
      var phase := if s.phase[cur].Scheduled? then s.phase[cur := Superseded] else s.phase;
      AgentState(s.value, s.requested[cur := true] + [false], phase + [Scheduled], s.invoked + [false], s.notices)
    case Cancel =>
      s.(requested := s.requested[cur := true])
    case Debounce =>
      if s.phase[cur].Scheduled? then s.(phase := s.phase[cur := Awaiting], notices := s.notices + [Submitted])
      else s
    case ArgsResolved(t) =>
      if t < |s.phase| && s.phase[t].Awaiting? then
        if s.requested[t] then s.(phase := s.phase[t := Done])
        else s.(phase := s.phase[t := Running], invoked := s.invoked[t := true])
      else s
    case ArgsRejected(t, e) =>
      if t < |s.phase| && s.phase[t].Awaiting? then
        s.(phase := s.phase[t := Done], notices := if s.requested[t] then s.notices else s.notices + [Rejected(e)])
      else s
    case Settle(t, outcome) =>
      if t < |s.phase| && s.phase[t].Running? then
        var settled := s.(phase := s.phase[t := Done]);
        if s.requested[t] then settled
        else
          match outcome
          case Fulfilled(v) => settled.(value := Some(v), notices := s.notices + [Updated(v)])
          case Broken(e) => settled.(notices := s.notices + [Rejected(e)])
      else s
    case HandlerFault(t, e) =>
      if t < |s.phase| && Started(s.phase[t]) then s.(notices := s.notices + [Failed(e)]) else s
  }

  /** The agent after a sequence of inputs. */
  function Replay<T>(s: AgentState<T>, trace: seq<Input<T>>): (r: AgentState<T>)
    requires WellFormed(s)
    ensures WellFormed(r)
    decreases |trace|
  {
    if trace == [] then s else Replay(Step(s, trace[0]), trace[1..])
  }

  /** submit cancels the previous token, then installs a fresh, uncancelled one. */
  lemma SubmitCancelsPrevious<T>(s: AgentState<T>)
    requires WellFormed(s)
    ensures var r := Step(s, Submit);
            && |r.requested| == |s.requested| + 1
            && r.requested[Current(s)]
            && Current(r) == Current(s) + 1 && !r.requested[Current(r)] && r.phase[Current(r)].Scheduled?
            && r.value == s.value && r.notices == s.notices
  {
  }

  /**
   * Once a token is cancelled, the events of its task change neither the value nor
   * the notices, and run does not invoke the task.
   */
  lemma CancelledEventsIgnored<T>(s: AgentState<T>, i: Input<T>, t: nat)
    requires WellFormed(s)
    requires t < |s.requested| && s.requested[t]
    requires Concerns(i, t)
    ensures Step(s, i).value == s.value
    ensures Step(s, i).notices == s.notices
    ensures Step(s, i).invoked == s.invoked
  {
  }

  /** run invokes the task exactly when its token is not cancelled. */
  lemma RunInvokesUncancelled<T>(s: AgentState<T>, t: nat)
    requires WellFormed(s)
    requires t < |s.phase| && s.phase[t].Awaiting?
    ensures Step(s, ArgsResolved(t)).invoked[t] <==> !s.requested[t]
  {
  }

  /** fail is emitted for a started task whether or not its token is cancelled. */
  lemma FailNeverSuppressed<T>(s: AgentState<T>, t: nat, e: Error)
    requires WellFormed(s)
    requires t < |s.phase| && Started(s.phase[t])
    ensures Step(s, HandlerFault(t, e)).notices == s.notices + [Failed(e)]
  {
  }

  /**
   * The value changes only when a running task with an uncancelled token fulfils,
   * and then it becomes that task's result.
   */
  lemma ValueChangesOnlyOnAccept<T>(s: AgentState<T>, i: Input<T>)
    requires WellFormed(s)
    requires Step(s, i).value != s.value
    ensures i.Settle? && i.outcome.Fulfilled? && i.t < |s.requested|
    ensures !s.requested[i.t] && s.phase[i.t].Running?
    ensures Step(s, i).value == Some(i.outcome.v)
  {
  }

  /** A trace with every event absorbed by token t's cancellation removed. */
  function Without<T>(trace: seq<Input<T>>, t: nat): (r: seq<Input<T>>)
    ensures |r| <= |trace|
    ensures forall k :: 0 <= k < |r| ==> !Concerns(r[k], t)
  {
    if trace == [] then []
    else if Concerns(trace[0], t) then Without(trace[1..], t)
    else [trace[0]] + Without(trace[1..], t)
  }

  /**
   * Two agents that agree on everything but the phase of cancelled token t, whose
   * phases are equal or both started.
   */
  ghost predicate AgreeExcept<T>(a: AgentState<T>, b: AgentState<T>, t: nat)
  {
    && a.value == b.value && a.notices == b.notices
    && a.requested == b.requested && a.invoked == b.invoked
    && |a.phase| == |b.phase| && t < |a.phase| && t < |a.requested|
    && a.requested[t]
    && (forall k :: 0 <= k < |a.phase| && k != t ==> a.phase[k] == b.phase[k])
    && (a.phase[t] == b.phase[t] || (Started(a.phase[t]) && Started(b.phase[t])))
  }

  /** An event absorbed by t's cancellation keeps the agreement when only one side takes it. */
  lemma AgreeAbsorbed<T>(a: AgentState<T>, b: AgentState<T>, i: Input<T>, t: nat)
    requires WellFormed(a) && WellFormed(b) && AgreeExcept(a, b, t)
    requires Concerns(i, t)
    ensures AgreeExcept(Step(a, i), b, t)
  {
    CancelledEventsIgnored(a, i, t);
  }

  /** Any other event keeps the agreement when both sides take it. */
  lemma AgreeShared<T>(a: AgentState<T>, b: AgentState<T>, i: Input<T>, t: nat)
    requires WellFormed(a) && WellFormed(b) && AgreeExcept(a, b, t)
    requires !Concerns(i, t)
    ensures AgreeExcept(Step(a, i), Step(b, i), t)
  {
    match i
    case Submit => AgreeSubmit(a, b, t);
    case Cancel =>
    case Debounce => AgreeDebounce(a, b, t);
    case ArgsResolved(u) => AgreeArgsResolved(a, b, u, t);
    case ArgsRejected(u, e) => AgreeArgsRejected(a, b, u, e, t);
    case Settle(u, outcome) => AgreeSettle(a, b, u, outcome, t);
    case HandlerFault(u, e) =>
  }

  /** Submit keeps the agreement. */
  lemma AgreeSubmit<T>(a: AgentState<T>, b: AgentState<T>, t: nat)
    requires WellFormed(a) && WellFormed(b) && AgreeExcept(a, b, t)
    ensures AgreeExcept(Step(a, Submit), Step(b, Submit), t)
  {
    var ra, rb := Step(a, Submit), Step(b, Submit);
    assert Current(a) == Current(b);
    assert |ra.phase| == |rb.phase| == |a.phase| + 1;
    forall k | 0 <= k < |ra.phase| && k != t
      ensures ra.phase[k] == rb.phase[k]
    {
      if k < |a.phase| - 1 {
        assert ra.phase[k] == a.phase[k] && rb.phase[k] == b.phase[k];
      }
    }
  }

  /** The debounce timer keeps the agreement. */
  lemma AgreeDebounce<T>(a: AgentState<T>, b: AgentState<T>, t: nat)
    requires WellFormed(a) && WellFormed(b) && AgreeExcept(a, b, t)
    ensures AgreeExcept(Step(a, Debounce), Step(b, Debounce), t)
  {
    assert Current(a) == Current(b);
    if t != Current(a) {
      assert !a.phase[t].Scheduled? && !b.phase[t].Scheduled?;
    }
  }

  /** Argument resolution for another token keeps the agreement. */
  lemma AgreeArgsResolved<T>(a: AgentState<T>, b: AgentState<T>, u: nat, t: nat)
    requires WellFormed(a) && WellFormed(b) && AgreeExcept(a, b, t)
    requires u != t
    ensures AgreeExcept(Step(a, ArgsResolved(u)), Step(b, ArgsResolved(u)), t)
  {
  }

  /** Argument rejection for another token keeps the agreement. */
  lemma AgreeArgsRejected<T>(a: AgentState<T>, b: AgentState<T>, u: nat, e: Error, t: nat)
    requires WellFormed(a) && WellFormed(b) && AgreeExcept(a, b, t)
    requires u != t
    ensures AgreeExcept(Step(a, ArgsRejected(u, e)), Step(b, ArgsRejected(u, e)), t)
  {
  }

  /** Settlement of another token's task keeps the agreement. */
  lemma AgreeSettle<T>(a: AgentState<T>, b: AgentState<T>, u: nat, outcome: Settlement<T>, t: nat)
    requires WellFormed(a) && WellFormed(b) && AgreeExcept(a, b, t)
    requires u != t
    ensures AgreeExcept(Step(a, Settle(u, outcome)), Step(b, Settle(u, outcome)), t)
  {
  }

  /** Replaying a trace and its filtered copy from agreeing agents ends in agreeing agents. */
  lemma {:induction false} ReplayAgree<T>(a: AgentState<T>, b: AgentState<T>, trace: seq<Input<T>>, t: nat)
    requires WellFormed(a) && WellFormed(b) && AgreeExcept(a, b, t)
    ensures AgreeExcept(Replay(a, trace), Replay(b, Without(trace, t)), t)
    decreases |trace|
  {
    if trace != [] {
      var i, rest := trace[0], trace[1..];
      if Concerns(i, t) {
        AgreeAbsorbed(a, b, i, t);
        ReplayAgree(Step(a, i), b, rest, t);
      } else {
        AgreeShared(a, b, i, t);
        ReplayAgree(Step(a, i), Step(b, i), rest, t);
        var w := [i] + Without(rest, t);
        assert w[0] == i && w[1..] == Without(rest, t);
      }
    }
  }

  /**
   * A task whose token is cancelled is unobservable: whatever order its remaining
   * events arrive in, the value and the notices are those of the same run without
   * them.
   */
  lemma CancelledTaskUnobservable<T>(s: AgentState<T>, trace: seq<Input<T>>, t: nat)
    requires WellFormed(s)
    requires t < |s.requested| && s.requested[t]
    ensures Replay(s, trace).value == Replay(s, Without(trace, t)).value
    ensures Replay(s, trace).notices == Replay(s, Without(trace, t)).notices
  {
    ReplayAgree(s, s, trace, t);
  }

  /**
   * Cancelling a task before its debounced runTask fires does not stop runTask:
   * the timer still emits "submit" for the cancelled token.
   */
  lemma CancelledBeforeDebounceSubmits<T>(initial: Option<T>)
    ensures var r := Replay(Init(initial), [Submit, Cancel, Debounce]);
            r.requested[1] && r.phase[1].Awaiting? && r.notices == [Submitted]
  {
    var s1 := Step(Init(initial), Submit);
    var s2 := Step(s1, Cancel);
    var s3 := Step(s2, Debounce);
    assert Replay(s2, [Debounce]) == s3;
    assert Replay(s1, [Cancel, Debounce]) == s3;
  }

  /** The requested flags are sticky over any trace. */
  lemma {:induction false} RequestedSticky<T>(s: AgentState<T>, trace: seq<Input<T>>, t: nat)
    requires WellFormed(s)
    requires t < |s.requested| && s.requested[t]
    ensures t < |Replay(s, trace).requested| && Replay(s, trace).requested[t]
    decreases |trace|
  {
    if trace != [] {
      RequestedSticky(Step(s, trace[0]), trace[1..], t);
    }
  }

  /**
   * Submitting B before A completes: A's result, when it arrives, neither updates the
   * value nor emits "update".
   */
  lemma SupersededResultDropped<T>(s: AgentState<T>, v: T)
    requires WellFormed(s)
    ensures var a := Current(s);
            var after := Step(s, Submit);
            Step(after, Settle(a, Fulfilled(v))).value == after.value
            && Step(after, Settle(a, Fulfilled(v))).notices == after.notices
  {
    var after := Step(s, Submit);
    CancelledEventsIgnored(after, Settle(Current(s), Fulfilled(v)), Current(s));
  }

  /**
   * Work that resolves after cancellation: submit, the timer fires, the arguments
   * resolve, the agent is cancelled, and the task fulfils with w. The value stays the
   * initial one and no "update" is emitted.
   */
  lemma CancelledWorkExample<T>(initial: Option<T>, w: T)
    ensures var tr := [Submit, Debounce, ArgsResolved(1), Cancel, Settle(1, Fulfilled(w))];
            Replay(Init(initial), tr).value == initial
            && Replay(Init(initial), tr).notices == [Submitted]
  {
    var s0 := Init(initial);
    var s1 := Step(s0, Submit);
    var s2 := Step(s1, Debounce);
    var s3 := Step(s2, ArgsResolved(1));
    var s4 := Step(s3, Cancel);
    var s5 := Step(s4, Settle(1, Fulfilled(w)));
    var tr := [Submit, Debounce, ArgsResolved(1), Cancel, Settle(1, Fulfilled(w))];
    assert s3.phase[1].Running? && s4.requested[1];
    assert Replay(s4, [Settle(1, Fulfilled(w))]) == s5;
    assert Replay(s3, [Cancel, Settle(1, Fulfilled(w))]) == s5;
    assert Replay(s2, [ArgsResolved(1), Cancel, Settle(1, Fulfilled(w))]) == s5;
    assert Replay(s1, tr[1..]) == s5;
  }

  /** The agent object: its fields are the state that submit, cancel and the callbacks update. */
  class Agent<T> {
    var value: Option<T>
    var requested: seq<bool>
    var phase: seq<Phase>
    var invoked: seq<bool>
    var notices: seq<Notice<T>>

    function State(): AgentState<T>
      reads this
    {
      AgentState(value, requested, phase, invoked, notices)
    }

    ghost predicate Valid()
      reads this
    {
      WellFormed(State())
    }

    /** newAgent(initial). */
    constructor (initial: Option<T>)
      ensures Valid() && State() == Init(initial)
    {
      value := initial;
      requested := [false];
      phase := [Idle];
      invoked := [false];
      notices := [];
    }

    /** agent.value(). */
    function Value(): (v: Option<T>)
      reads this
      ensures v == State().value
    {
      value
    }

    /** agent.submit: cancel the current token, then schedule the task under a fresh one. */
    method Submit()
      requires Valid()
      modifies this
      ensures Valid() && State() == Step(old(State()), Input.Submit)
    {
      var cur := |requested| - 1;
      requested := requested[cur := true];
      if phase[cur].Scheduled? {
        phase := phase[cur := Superseded];
      }
      requested := requested + [false];
      phase := phase + [Scheduled];
      invoked := invoked + [false];
    }

    /** agent.cancel: mark the current token requested. */
    method Cancel()
      requires Valid()
      modifies this
      ensures Valid() && State() == Step(old(State()), Input.Cancel)
    {
      requested := requested[|requested| - 1 := true];
    }

    /** The debounce timer fires: runTask runs for the last scheduled submission. */
    method Debounce()
      requires Valid()
      modifies this
      ensures Valid() && State() == Step(old(State()), Input.Debounce)
    {
      var cur := |requested| - 1;
      if phase[cur].Scheduled? {
        phase := phase[cur := Awaiting];
        notices := notices + [Submitted];
      }
    }

    /** run: invoke the task unless its token is cancelled (then accept(null) is ignored). */
    method ArgsResolved(t: nat)
      requires Valid()
      modifies this
      ensures Valid() && State() == Step(old(State()), Input.ArgsResolved(t))
    {
      if t < |phase| && phase[t].Awaiting? {
        if requested[t] {
          phase := phase[t := Done];
        } else {
          phase := phase[t := Running];
          invoked := invoked[t := true];
        }
      }
    }

    /** The arguments reject: reject(err), suppressed when the token is cancelled. */
    method ArgsRejected(t: nat, e: Error)
      requires Valid()
      modifies this
      ensures Valid() && State() == Step(old(State()), Input.ArgsRejected(t, e))
    {
      if t < |phase| && phase[t].Awaiting? {
        phase := phase[t := Done];
        if !requested[t] {
          notices := notices + [Rejected(e)];
        }
      }
    }

    /** The task's result settles: accept or reject, both ignored when the token is cancelled. */
    method Settle(t: nat, outcome: Settlement<T>)
      requires Valid()
      modifies this
      ensures Valid() && State() == Step(old(State()), Input.Settle(t, outcome))
    {
      if t < |phase| && phase[t].Running? {
        phase := phase[t := Done];
        if !requested[t] {
          match outcome
          case Fulfilled(v) =>
            value := Some(v);
            notices := notices + [Updated(v)];
          case Broken(e) =>
            notices := notices + [Rejected(e)];
        }
      }
    }

    /** fail: always triggered. */
    method HandlerFault(t: nat, e: Error)
      requires Valid()
      modifies this
      ensures Valid() && State() == Step(old(State()), Input.HandlerFault(t, e))
    {
      if t < |phase| && Started(phase[t]) {
        notices := notices + [Failed(e)];
      }
    }
  }
}
