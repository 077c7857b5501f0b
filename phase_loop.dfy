/** The fault-isolated iteration that `TimeManager.Update`, `FixedUpdate` and `LateUpdate`
    each run over their registry: visit slots by index, re-reading `Count` before every
    access; when a callback throws, log the exception, step past the failing slot (which
    stays registered) and carry on.

    A callback is modelled by what it does when invoked: return normally or throw. The
    outcome is a function of the slot and of the entry in it, so two slots holding the same
    entry may end differently. What a phase does is recorded as a trace of invocations and
    log entries. Callbacks are taken not to add to or remove from the registry being
    iterated. */
module PhaseLoop {
  import opened Wrappers
  import opened ComponentsList

  /** How one callback invocation ended. */
  datatype CallResult<X> = Returned | Threw(exception: X)

  /** What a phase does, in order: invoke the callback of slot `index`, or log an
      exception (`Debug.LogException`). */
  datatype Event<X> = Invoked(index: nat) | Logged(exception: X)

  /** The trace of a phase over `entries`, from slot `from` on. */
  function PhaseTrace<T, X>(entries: seq<T>, call: (nat, T) -> CallResult<X>, from: nat): seq<Event<X>>
    decreases |entries| - from
  {
    if from >= |entries| then []
    else match call(from, entries[from])
      case Returned => [Invoked(from)] + PhaseTrace(entries, call, from + 1)
      case Threw(e) => [Invoked(from), Logged(e)] + PhaseTrace(entries, call, from + 1)
  }

  /** The slots invoked in a trace, in order. */
  function Invocations<X>(trace: seq<Event<X>>): seq<nat> {
    if |trace| == 0 then []
    else (if trace[0].Invoked? then [trace[0].index] else []) + Invocations(trace[1..])
  }

  /** The exceptions logged in a trace, in order. */
  function Logs<X>(trace: seq<Event<X>>): seq<X> {
    if |trace| == 0 then []
    else (if trace[0].Logged? then [trace[0].exception] else []) + Logs(trace[1..])
  }

  /** The exceptions thrown by the callbacks of slots `from ..`, slot by slot. */
  function Thrown<T, X>(entries: seq<T>, call: (nat, T) -> CallResult<X>, from: nat): seq<X>
    decreases |entries| - from
  {
    if from >= |entries| then []
    else (if call(from, entries[from]).Threw? then [call(from, entries[from]).exception] else [])
         + Thrown(entries, call, from + 1)
  }

  /** Each slot `from .. |entries| - 1` is invoked exactly once, in ascending order, and no
      slot at or past the count is ever invoked, however many callbacks throw. */
  lemma {:induction false} EverySlotInvokedOnce<T, X>(entries: seq<T>, call: (nat, T) -> CallResult<X>, from: nat)
    requires from <= |entries|
    ensures var inv := Invocations(PhaseTrace(entries, call, from));
      |inv| == |entries| - from && forall k :: 0 <= k < |inv| ==> inv[k] == from + k
  {
    InvokedSlots(entries, call, from);
    SlotsAscending(from, |entries| - from);
  }

  /** The `n` slots `from`, `from + 1`, ..., `from + n - 1`. */
  function Slots(from: nat, n: nat): seq<nat>
    decreases n
  {
    if n == 0 then [] else [from] + Slots(from + 1, n - 1)
  }

  lemma {:induction false} SlotsAscending(from: nat, n: nat)
    ensures |Slots(from, n)| == n
    ensures forall k :: 0 <= k < n ==> Slots(from, n)[k] == from + k
    decreases n
  {
    if n > 0 {
      SlotsAscending(from + 1, n - 1);
    }
  }

  /** The invocations of a phase are exactly the slots from `from` to the end. */
  lemma {:induction false} InvokedSlots<T, X>(entries: seq<T>, call: (nat, T) -> CallResult<X>, from: nat)
    requires from <= |entries|
    ensures Invocations(PhaseTrace(entries, call, from)) == Slots(from, |entries| - from)
    decreases |entries| - from
  {
    if from < |entries| {
      var rest := PhaseTrace(entries, call, from + 1);
      InvokedSlots(entries, call, from + 1);
      var c := call(from, entries[from]);
      if c.Threw? {
        assert PhaseTrace(entries, call, from) == [Invoked(from)] + ([Logged(c.exception)] + rest);
        InvocationsCons(Logged(c.exception), rest);
        InvocationsCons(Invoked(from), [Logged(c.exception)] + rest);
      } else {
        assert PhaseTrace(entries, call, from) == [Invoked(from)] + rest;
        InvocationsCons(Invoked(from), rest);
      }
      assert Slots(from, |entries| - from) == [from] + Slots(from + 1, |entries| - (from + 1));
    }
  }

  /** A leading invocation contributes its slot; a leading log entry contributes nothing. */
  lemma InvocationsCons<X>(event: Event<X>, trace: seq<Event<X>>)
    ensures Invocations([event] + trace) ==
      (if event.Invoked? then [event.index] else []) + Invocations(trace)
  {
    assert ([event] + trace)[1..] == trace;
  }

  /** Exactly one log entry per throwing callback, in slot order. */
  lemma {:induction false} EachFaultLoggedOnce<T, X>(entries: seq<T>, call: (nat, T) -> CallResult<X>, from: nat)
    ensures Logs(PhaseTrace(entries, call, from)) == Thrown(entries, call, from)
    decreases |entries| - from
  {
    if from < |entries| {
      var rest := PhaseTrace(entries, call, from + 1);
      EachFaultLoggedOnce(entries, call, from + 1);
      var c := call(from, entries[from]);
      if c.Threw? {
        assert PhaseTrace(entries, call, from) == [Invoked(from)] + ([Logged(c.exception)] + rest);
        LogsCons(Logged(c.exception), rest);
        LogsCons(Invoked(from), [Logged(c.exception)] + rest);
      } else {
        assert PhaseTrace(entries, call, from) == [Invoked(from)] + rest;
        LogsCons(Invoked(from), rest);
      }
    }
  }

  /** A leading log entry contributes its exception; a leading invocation contributes nothing. */
  lemma LogsCons<X>(event: Event<X>, trace: seq<Event<X>>)
    ensures Logs([event] + trace) ==
      (if event.Logged? then [event.exception] else []) + Logs(trace)
  {
    assert ([event] + trace)[1..] == trace;
  }

  /** If slot `p` of `trace` invokes a callback that throws, slot `p + 1` logs that exception. */
  ghost predicate FaultLoggedAt<T, X>(entries: seq<T>, call: (nat, T) -> CallResult<X>, trace: seq<Event<X>>, p: nat)
    requires p < |trace|
  {
    trace[p].Invoked? ==>
      trace[p].index < |entries| &&
      (call(trace[p].index, entries[trace[p].index]).Threw? ==>
         p + 1 < |trace| && trace[p + 1] == Logged(call(trace[p].index, entries[trace[p].index]).exception))
  }

  /** Every throwing invocation in `trace` is followed straight away by its log entry. */
  ghost predicate FaultsLoggedAtOnce<T, X>(entries: seq<T>, call: (nat, T) -> CallResult<X>, trace: seq<Event<X>>) {
    forall p: nat :: p < |trace| ==> FaultLoggedAt(entries, call, trace, p)
  }

  /** Every log entry in `trace` comes straight after the invocation that threw it. */
  ghost predicate LogsFollowFaults<T, X>(entries: seq<T>, call: (nat, T) -> CallResult<X>, trace: seq<Event<X>>) {
    forall p :: 0 <= p < |trace| && trace[p].Logged? ==>
      0 < p && trace[p - 1].Invoked? && trace[p - 1].index < |entries| &&
      call(trace[p - 1].index, entries[trace[p - 1].index]) == Threw(trace[p].exception)
  }

  /** In a phase, each throwing callback's exception is logged right after it is invoked,
      before any other slot runs. */
  lemma {:induction false} PhaseLogsFaultsAtOnce<T, X>(entries: seq<T>, call: (nat, T) -> CallResult<X>, from: nat)
    ensures FaultsLoggedAtOnce(entries, call, PhaseTrace(entries, call, from))
    decreases |entries| - from
  {
    if from < |entries| {
      var rest := PhaseTrace(entries, call, from + 1);
      PhaseLogsFaultsAtOnce(entries, call, from + 1);
      var c := call(from, entries[from]);
      var head := [Invoked(from)] + if c.Threw? then [Logged(c.exception)] else [];
      var t := head + rest;
      assert t == PhaseTrace(entries, call, from);
      forall p: nat | p < |t| ensures FaultLoggedAt(entries, call, t, p) {
        if p >= |head| {
          var q := p - |head|;
          assert FaultLoggedAt(entries, call, rest, q);
          assert t[p] == rest[q];
          if q + 1 < |rest| {
            assert t[p + 1] == rest[q + 1];
          }
        } else {
          assert t[p] == head[p] && t[0] == head[0];
          if c.Threw? {
            assert t[1] == head[1];
          }
        }
      }
    }
  }

  /** In a phase, nothing is logged except right after a callback that threw it. */
  lemma {:induction false} PhaseLogsFollowFaults<T, X>(entries: seq<T>, call: (nat, T) -> CallResult<X>, from: nat)
    ensures LogsFollowFaults(entries, call, PhaseTrace(entries, call, from))
    decreases |entries| - from
  {
    if from < |entries| {
      var rest := PhaseTrace(entries, call, from + 1);
      PhaseLogsFollowFaults(entries, call, from + 1);
      var c := call(from, entries[from]);
      var head := [Invoked(from)] + if c.Threw? then [Logged(c.exception)] else [];
      var t := head + rest;
      assert t == PhaseTrace(entries, call, from);
      assert |rest| > 0 ==> rest[0].Invoked?;
      forall p | 0 <= p < |t| && t[p].Logged?
        ensures 0 < p && t[p - 1].Invoked? && t[p - 1].index < |entries|
        ensures call(t[p - 1].index, entries[t[p - 1].index]) == Threw(t[p].exception)
      {
        if p >= |head| {
          var q := p - |head|;
          assert t[p] == rest[q];
          assert t[p - 1] == rest[q - 1];
        } else {
          assert t[p] == head[p] && t[0] == head[0];
        }
      }
    }
  }

  /** One step of a phase behind an already-produced prefix: invoking slot `index` either
      returns (the phase goes on at `index + 1`) or throws (its log entry comes next). */
  lemma PhaseTraceStep<T, X>(prefix: seq<Event<X>>, entries: seq<T>, call: (nat, T) -> CallResult<X>, index: nat)
    requires index < |entries|
    ensures call(index, entries[index]).Returned? ==>
      prefix + PhaseTrace(entries, call, index) == (prefix + [Invoked(index)]) + PhaseTrace(entries, call, index + 1)
    ensures call(index, entries[index]).Threw? ==>
      prefix + PhaseTrace(entries, call, index) ==
      (prefix + [Invoked(index)]) + [Logged(call(index, entries[index]).exception)] + PhaseTrace(entries, call, index + 1)
  {
    var rest := PhaseTrace(entries, call, index + 1);
    match call(index, entries[index]) {
      case Returned =>
        assert prefix + ([Invoked(index)] + rest) == (prefix + [Invoked(index)]) + rest;
      case Threw(e) =>
        assert prefix + ([Invoked(index), Logged(e)] + rest) == (prefix + [Invoked(index)]) + [Logged(e)] + rest;
    }
  }

  /** The loop step for a slot whose callback returns: its invocation joins the prefix
      and the phase goes on at the next slot. */
  lemma InvokedThenNext<T, X>(invoked: seq<Event<X>>, entries: seq<T>, call: (nat, T) -> CallResult<X>, start: nat, index: nat)
    requires index < |entries| && call(index, entries[index]).Returned?
    requires invoked + PhaseTrace(entries, call, index) == PhaseTrace(entries, call, start)
    ensures (invoked + [Invoked(index)]) + PhaseTrace(entries, call, index + 1) == PhaseTrace(entries, call, start)
  {
    PhaseTraceStep(invoked, entries, call, index);
  }

  /** The loop step for a slot whose callback throws: after its invocation come its log
      entry and the rest of the phase from the next slot. */
  lemma InvokedThenLogged<T, X>(invoked: seq<Event<X>>, entries: seq<T>, call: (nat, T) -> CallResult<X>, start: nat, index: nat)
    requires index < |entries| && call(index, entries[index]).Threw?
    requires invoked + PhaseTrace(entries, call, index) == PhaseTrace(entries, call, start)
    ensures (invoked + [Invoked(index)]) + [Logged(call(index, entries[index]).exception)] +
      PhaseTrace(entries, call, index + 1) == PhaseTrace(entries, call, start)
  {
    PhaseTraceStep(invoked, entries, call, index);
  }

  /** The `try` block of a phase: invokes slots from `start` on, re-reading the count each
      time, until a callback throws or the count is reached. On a throw, `index` is the
      failing slot and `invoked` ends with its invocation; the `catch` then logs and steps
      past it. */
  method InvokeUntilThrow<T, X>(registry: UnityComponentsList<T>, call: (nat, T) -> CallResult<X>, start: nat)
    returns (invoked: seq<Event<X>>, index: nat, thrown: Option<X>)
    requires registry.Valid() && start <= registry.count
    ensures start <= index <= registry.count
    ensures thrown.None? ==> index == registry.count && invoked == PhaseTrace(registry.instances, call, start)
    ensures thrown.Some? ==> (index < registry.count &&
      invoked + [Logged(thrown.value)] + PhaseTrace(registry.instances, call, index + 1) ==
      PhaseTrace(registry.instances, call, start))
  {
    ghost var entries := registry.instances;
    invoked, index, thrown := [], start, None;
    // the inner loop: invoke each slot in turn, re-reading the count; a throw leaves it
    while index < registry.count
      invariant registry.instances == entries && registry.count == |entries|
      invariant start <= index <= |entries|
      invariant invoked + PhaseTrace(entries, call, index) == PhaseTrace(entries, call, start)
      decreases |entries| - index
    {
      var entry := registry.instances[index];
      var result := call(index, entry);
      if result.Threw? {
        InvokedThenLogged(invoked, entries, call, start, index);
        invoked := invoked + [Invoked(index)];
        thrown := Some(result.exception);
        return;
      }
      InvokedThenNext(invoked, entries, call, start, index);
      invoked := invoked + [Invoked(index)];
      index := index + 1;
    }
    assert invoked + [] == invoked;
  }

  /** Runs one phase over `registry`, as the `while` loop around `try`/`catch` does: the
      trace is exactly `PhaseTrace` of the registry's entries. */
  method RunPhase<T, X>(registry: UnityComponentsList<T>, call: (nat, T) -> CallResult<X>)
    returns (trace: seq<Event<X>>)
    requires registry.Valid()
    ensures trace == PhaseTrace(registry.instances, call, 0)
  {
    ghost var entries := registry.instances;
    ghost var full := PhaseTrace(entries, call, 0);
    trace := [];
    var index := 0;
    while index < registry.count
      invariant 0 <= index <= registry.count
      invariant trace + PhaseTrace(entries, call, index) == full
      decreases registry.count - index
    {
      var invoked, next, thrown := InvokeUntilThrow(registry, call, index);
      if thrown.Some? {
        // the catch: log the exception and step past the failing slot
        assert (trace + invoked) + [Logged(thrown.value)] == trace + (invoked + [Logged(thrown.value)]);
        trace := trace + invoked + [Logged(thrown.value)];
        index := next + 1;
      } else {
        trace := trace + invoked;
        index := next;
      }
    }
    assert trace + [] == trace;
  }
}
