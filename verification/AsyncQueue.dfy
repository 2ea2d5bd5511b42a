/** The event queue between the runtime and its reader
    (packages/agent-runtime-pi/src/index.ts, createQueue): one slot remembers
    whom to wake, and each reader runs until it has nothing left to take. */
module AsyncQueue {
  import opened Content

  type Reader = nat

  /** `accepted` and `delivered` are history: what was pushed before the close,
      and what readers were given. */
  datatype Queue<T> = Queue(
    values: seq<T>, closed: bool, waiter: Option<Reader>, parked: set<Reader>, done: set<Reader>,
    accepted: seq<T>, delivered: seq<T>)

  datatype Step<T> = Push(value: T) | CloseQueue | Resume(reader: Reader)

  function Empty<T>(): Queue<T> {
    Queue([], false, None, {}, {}, [], [])
  }

  /** Waking resolves the remembered waiter and forgets it. */
  function Wake<T>(q: Queue<T>): Queue<T> {
    q.(parked := if q.waiter.Some? then q.parked - {q.waiter.value} else q.parked, waiter := None)
  }

  function Pushed<T>(q: Queue<T>, value: T): Queue<T> {
    if q.closed then q
    else Wake(q.(values := q.values + [value], accepted := q.accepted + [value]))
  }

  function Closed<T>(q: Queue<T>): Queue<T> {
    Wake(q.(closed := true))
  }

  /** A running reader takes the next value, ends, or parks. */
  function Resumed<T>(q: Queue<T>, reader: Reader): Queue<T> {
    if reader in q.parked || reader in q.done then q
    else if q.values != [] then q.(values := q.values[1..], delivered := q.delivered + [q.values[0]])
    else if q.closed then q.(done := q.done + {reader})
    else q.(waiter := Some(reader), parked := q.parked + {reader})
  }

  function Perform<T>(q: Queue<T>, step: Step<T>): Queue<T> {
    match step
    case Push(value) => Pushed(q, value)
    case CloseQueue => Closed(q)
    case Resume(reader) => Resumed(q, reader)
  }

  function Run<T>(q: Queue<T>, steps: seq<Step<T>>): Queue<T>
    decreases |steps|
  {
    if steps == [] then q else Run(Perform(q, steps[0]), steps[1..])
  }

  class EventQueue<T> {
    var values: seq<T>
    var closed: bool
    var resolveWait: Option<Reader>
    ghost var history: Queue<T>

    constructor ()
      ensures Valid() && history == Empty()
    {
      values, closed, resolveWait := [], false, None;
      history := Empty();
    }

    ghost predicate Valid()
      reads this
    {
      history.values == values && history.closed == closed && history.waiter == resolveWait
    }

    /** Whom the push woke, if anyone. */
    method PushValue(value: T) returns (woken: Option<Reader>)
      requires Valid()
      modifies this
      ensures Valid() && history == Pushed(old(history), value)
      ensures woken == if old(closed) then None else old(resolveWait)
    {
      if closed {
        return None;
      }
      values := values + [value];
      woken := resolveWait;
      resolveWait := None;
      history := Pushed(history, value);
    }

    method Close() returns (woken: Option<Reader>)
      requires Valid()
      modifies this
      ensures Valid() && history == Closed(old(history))
      ensures woken == old(resolveWait)
    {
      closed := true;
      woken := resolveWait;
      resolveWait := None;
      history := Closed(history);
    }

    /** One turn of a running reader: Some value, or None when it parked or ended. */
    method Next(reader: Reader) returns (value: Option<T>, ended: bool)
      requires Valid() && reader !in history.parked && reader !in history.done
      modifies this
      ensures Valid() && history == Resumed(old(history), reader)
      ensures value == if old(values) != [] then Some(old(values)[0]) else None
      ensures ended <==> old(values) == [] && old(closed)
    {
      history := Resumed(history, reader);
      if |values| > 0 {
        value, ended := Some(values[0]), false;
        values := values[1..];
        return;
      }
      if closed {
        return None, true;
      }
      resolveWait := Some(reader);
      return None, false;
    }
  }

  // ----- One reader -----

  predicate OnlyReader<T>(steps: seq<Step<T>>, reader: Reader) {
    forall i | 0 <= i < |steps| :: steps[i].Resume? ==> steps[i].reader == reader
  }

  /** Nothing is lost or reordered, and nobody sleeps on work or on the end. */
  predicate Sound<T(==)>(q: Queue<T>, reader: Reader) {
    && q.delivered + q.values == q.accepted
    && (q.parked == {} <==> q.waiter.None?)
    && (q.waiter.Some? ==> q.waiter.value == reader && q.parked == {reader} && q.values == [] && !q.closed)
    && (q.done == {} || (q.done == {reader} && q.closed && q.values == []))
  }

  lemma StepStaysSound<T>(q: Queue<T>, step: Step<T>, reader: Reader)
    requires Sound(q, reader) && (step.Resume? ==> step.reader == reader)
    ensures Sound(Perform(q, step), reader)
    ensures q.delivered <= Perform(q, step).delivered && q.accepted <= Perform(q, step).accepted
    ensures q.closed ==> Perform(q, step).closed && Perform(q, step).accepted == q.accepted
  {
    match step
    case Push(value) =>
      assert q.delivered + (q.values + [value]) == (q.delivered + q.values) + [value];
    case CloseQueue =>
    case Resume(_) =>
      if q.values != [] {
        assert q.delivered + [q.values[0]] + q.values[1..] == q.delivered + q.values;
      }
  }

  /** With one reader, over every run: what was delivered is a prefix of what was
      accepted, in order, and the reader is never parked while a value waits or
      after the close. */
  lemma {:induction false} SingleReaderIsServed<T>(q: Queue<T>, steps: seq<Step<T>>, reader: Reader)
    requires Sound(q, reader) && OnlyReader(steps, reader)
    ensures var after := Run(q, steps);
            && Sound(after, reader) && after.delivered <= after.accepted
            && (reader in after.parked ==> after.values == [] && !after.closed)
            && q.delivered <= after.delivered && q.accepted <= after.accepted
    decreases |steps|
  {
    if steps != [] {
      StepStaysSound(q, steps[0], reader);
      SingleReaderIsServed(Perform(q, steps[0]), steps[1..], reader);
    } else {
      assert q.delivered + q.values == q.accepted;
    }
  }

  /** How many turns a run gives to readers. */
  function Turns<T>(steps: seq<Step<T>>): nat {
    if steps == [] then 0 else (if steps[0].Resume? then 1 else 0) + Turns(steps[1..])
  }

  /** Once closed, each turn of the reader delivers the next accepted value as
      long as there is one, whatever else is called in between; and one turn
      more ends the reader, with everything delivered in order. */
  lemma {:induction false} ReaderFinishes<T>(q: Queue<T>, steps: seq<Step<T>>, reader: Reader)
    requires Sound(q, reader) && OnlyReader(steps, reader) && q.closed
    ensures var after := Run(q, steps);
            && Sound(after, reader) && after.closed && after.accepted == q.accepted
            && |after.values| == (if Turns(steps) < |q.values| then |q.values| - Turns(steps) else 0)
            && (Turns(steps) > |q.values| ==> after.delivered == q.accepted && after.done == {reader})
    decreases |steps|
  {
    if steps != [] {
      StepStaysSound(q, steps[0], reader);
      var next := Perform(q, steps[0]);
      ReaderFinishes(next, steps[1..], reader);
      if steps[0].Resume? && q.values == [] {
        EndedStaysEnded(next, steps[1..], reader);
      }
    }
  }

  lemma {:induction false} EndedStaysEnded<T>(q: Queue<T>, steps: seq<Step<T>>, reader: Reader)
    requires Sound(q, reader) && OnlyReader(steps, reader) && q.closed && q.done == {reader}
    ensures Run(q, steps).delivered == q.delivered == q.accepted && Run(q, steps).done == {reader}
    decreases |steps|
  {
    if steps != [] {
      StepStaysSound(q, steps[0], reader);
      EndedStaysEnded(Perform(q, steps[0]), steps[1..], reader);
    } else {
      assert q.delivered + [] == q.delivered;
    }
  }

  // ----- Why the runtime reads each queue once -----

  /** A push to an open queue, or its close, wakes a parked reader exactly when
      that reader holds the one slot. */
  lemma WokenIff<T>(q: Queue<T>, step: Step<T>, reader: Reader)
    requires reader in q.parked
    requires step.CloseQueue? || (step.Push? && !q.closed)
    ensures reader !in Perform(q, step).parked <==> q.waiter == Some(reader)
  {
  }

  /** A parked reader that does not hold the slot sleeps through every run: the
      slot is only ever taken by a reader that is running. */
  lemma {:induction false} OnlyTheWaiterIsWoken<T>(q: Queue<T>, first: Reader, steps: seq<Step<T>>)
    requires first in q.parked && q.waiter != Some(first)
    ensures first in Run(q, steps).parked && Run(q, steps).waiter != Some(first)
    decreases |steps|
  {
    if steps != [] {
      OnlyTheWaiterIsWoken(Perform(q, steps[0]), first, steps[1..]);
    }
  }
}
