/** The table-driven finite state machine. */
module Fsm {
  import opened Outcomes

  datatype Event<E, T> = Event(typ: E, from: seq<T>, to: T)

  datatype Transition<E, T> = Transition(from: T, to: T, event: E)

  datatype FsmError = InvalidTransition | EventNotFound

  /** Where an event leads from a state: the last table entry that mentions both decides. */
  function Destination<E(==), T(==)>(table: seq<Event<E, T>>, event: E, src: T): Option<T> {
    if table == [] then None
    else
      var last := table[|table| - 1];
      if last.typ == event && src in last.from then Some(last.to)
      else Destination(table[..|table| - 1], event, src)
  }

  predicate Mentions<E(==), T>(table: seq<Event<E, T>>, event: E) {
    exists i :: 0 <= i < |table| && table[i].typ == event && table[i].from != []
  }

  ghost predicate Represents<E(!new), T(!new)>(transitions: map<(E, T), T>, table: seq<Event<E, T>>) {
    forall e, s {:trigger Destination(table, e, s)} ::
      Destination(table, e, s) == if (e, s) in transitions then Some(transitions[(e, s)]) else None
  }

  /** Entering one event: its pairs override, all others stay. */
  ghost predicate Entered<E(!new), T(!new)>(
      before: map<(E, T), T>, after: map<(E, T), T>, event: Event<E, T>, upTo: nat)
    requires upTo <= |event.from|
  {
    forall k: (E, T) {:trigger k in after} {:trigger k in before} ::
      if k.0 == event.typ && k.1 in event.from[..upTo] then k in after && after[k] == event.to
      else (k in after <==> k in before) && (k in after ==> after[k] == before[k])
  }

  lemma {:induction false} EnteredRepresents<E(!new), T(!new)>(
      table: seq<Event<E, T>>, event: Event<E, T>, before: map<(E, T), T>, after: map<(E, T), T>)
    requires Represents(before, table) && Entered(before, after, event, |event.from|)
    ensures Represents(after, table + [event])
  {
    assert event.from[..|event.from|] == event.from;
    forall e, s
      ensures Destination(table + [event], e, s) == if (e, s) in after then Some(after[(e, s)]) else None
    {
      assert (table + [event])[..|table|] == table;
      assert Destination(table, e, s) == if (e, s) in before then Some(before[(e, s)]) else None;
      assert (e, s) in after || (e, s) !in after;
    }
  }

  lemma {:induction false} LeadsSomewhere<E, T>(table: seq<Event<E, T>>, event: E, src: T)
    requires Destination(table, event, src).Some?
    ensures Mentions(table, event)
  {
    var n := |table| - 1;
    if table[n].typ == event && src in table[n].from {
      assert table[n].from != [];
    } else {
      LeadsSomewhere(table[..n], event, src);
      var i :| 0 <= i < n && table[..n][i].typ == event && table[..n][i].from != [];
      assert table[i] == table[..n][i];
    }
  }

  lemma {:induction false} MentionedLeads<E, T>(table: seq<Event<E, T>>, event: E) returns (src: T)
    requires Mentions(table, event)
    ensures Destination(table, event, src).Some?
  {
    var i :| 0 <= i < |table| && table[i].typ == event && table[i].from != [];
    var n := |table| - 1;
    if i == n {
      src := table[n].from[0];
    } else {
      assert table[..n][i] == table[i];
      src := MentionedLeads(table[..n], event);
    }
  }

  class Fsm<E(==, !new), T(==, !new)> {
    ghost const table: seq<Event<E, T>>
    const trackingTransitions: bool
    var transitionsExecuted: seq<Transition<E, T>>
    var state: T
    var sourceEvent: Option<E>
    var validTransitions: map<(E, T), T>

    ghost predicate Valid()
      reads this
    {
      Represents(validTransitions, table)
    }

    constructor (startState: T, transitionTable: seq<Event<E, T>>, tracking: bool)
      ensures Valid() && table == transitionTable && trackingTransitions == tracking
      ensures state == startState && sourceEvent == None && transitionsExecuted == []
    {
      var transitions: map<(E, T), T> := map[];
      for i := 0 to |transitionTable|
        invariant Represents(transitions, transitionTable[..i])
      {
        var event := transitionTable[i];
        ghost var before := transitions;
        for j := 0 to |event.from|
          invariant Entered(before, transitions, event, j)
        {
          assert event.from[..j + 1] == event.from[..j] + [event.from[j]];
          transitions := transitions[(event.typ, event.from[j]) := event.to];
        }
        EnteredRepresents(transitionTable[..i], event, before, transitions);
        assert transitionTable[..i + 1] == transitionTable[..i] + [event];
      }
      assert transitionTable[..|transitionTable|] == transitionTable;
      table := transitionTable;
      trackingTransitions := tracking;
      transitionsExecuted := [];
      state := startState;
      sourceEvent := None;
      validTransitions := transitions;
    }

    method CanTransition(event: E) returns (ok: bool)
      requires Valid()
      ensures ok <==> Destination(table, event, state).Some?
    {
      ok := (event, state) in validTransitions;
      assert Destination(table, event, state).Some? <==> (event, state) in validTransitions;
    }

    /** Moves along the table or refuses and stays put. */
    method Do(event: E) returns (r: Option<FsmError>)
      requires Valid()
      modifies this
      ensures Valid() && validTransitions == old(validTransitions)
      ensures var to := Destination(table, event, old(state));
              if to.Some? then
                && r == None && state == to.value && sourceEvent == Some(event)
                && transitionsExecuted == old(transitionsExecuted)
                     + (if trackingTransitions then [Transition(old(state), to.value, event)] else [])
              else
                && r == Some(if Mentions(table, event) then InvalidTransition else EventNotFound)
                && state == old(state) && sourceEvent == old(sourceEvent)
                && transitionsExecuted == old(transitionsExecuted)
    {
      var src := state;
      assert Destination(table, event, src) ==
             if (event, src) in validTransitions then Some(validTransitions[(event, src)]) else None;
      if (event, src) !in validTransitions {
        if k :| k in validTransitions.Keys && k.0 == event {
          assert (event, k.1) == k && Destination(table, event, k.1).Some?;
          LeadsSomewhere(table, event, k.1);
          return Some(InvalidTransition);
        }
        if Mentions(table, event) {
          ghost var s := MentionedLeads(table, event);
          assert false;
        }
        return Some(EventNotFound);
      }
      var to := validTransitions[(event, src)];
      state, sourceEvent := to, Some(event);
      if trackingTransitions {
        transitionsExecuted := transitionsExecuted + [Transition(src, to, event)];
      }
      return None;
    }
  }
}
