/**
 The scheme and the raw inputs, seen from the iterator as an oracle.

 A raw input is modelled by the finite script of answers the scheme gives
 when it is asked to `source` from that input: each call consumes the head
 of the script, yielding a record or raising a read error, and a call on an
 empty script answers `false` (the input is exhausted). The iterator's
 interaction with the scheme and the input sequence is recorded as a trace
 of events, so that call counts and call order can be stated.
 */
module Scheme {
  import opened Util

  /** Field values of a record; the field schema itself plays no role here. */
  type Value = int
  type Record = seq<Value>

  /** An opaque I/O failure raised by the scheme or the input sequence. */
  type Cause = nat

  /** One answer of the scheme's `source` call. */
  datatype Outcome = Rec(record: Record) | Err(cause: Cause)

  /** The answers `source` gives, in order, for one raw input. */
  type Script = seq<Outcome>

  /** Outcomes of the scheme's one-time hooks (`None` means the hook returns normally). */
  datatype Oracle = Oracle(prepareError: Option<Cause>, cleanupError: Option<Cause>)

  /** A non-rewindable, closeable sequence of raw inputs. */
  datatype InputSequence = InputSequence(items: seq<Script>, closeError: Option<Cause>)

  /** What the iterator asks of its collaborators. */
  datatype Event =
    | Bind(input: nat)     // the next raw input is taken and bound into the source call
    | Prepare              // scheme.sourcePrepare
    | AsModifiable         // the record buffer is reset to modifiable
    | Source(input: nat)   // scheme.source on the bound raw input
    | Cleanup              // scheme.sourceCleanup
    | CloseInputs          // the input sequence is closed

  /** All outcomes of a sequence of raw inputs, input after input. */
  function Concat(inputs: seq<Script>): Script
  {
    if inputs == [] then [] else inputs[0] + Concat(inputs[1..])
  }

  /** The records among some outcomes, in order. */
  function Records(outcomes: Script): seq<Record>
  {
    if outcomes == [] then []
    else match outcomes[0]
      case Rec(x) => [x] + Records(outcomes[1..])
      case Err(_) => Records(outcomes[1..])
  }

  /** No outcome is a read error. */
  predicate ErrorFree(outcomes: Script)
  {
    forall i :: 0 <= i < |outcomes| ==> outcomes[i].Rec?
  }

  /** The number of occurrences of `e` in the trace `t`. */
  function Count(t: seq<Event>, e: Event): nat
  {
    if t == [] then 0 else (if t[0] == e then 1 else 0) + Count(t[1..], e)
  }

  /** Only events of the sourcing loop: binding inputs, resetting the buffer, sourcing. */
  predicate Sourcing(t: seq<Event>)
  {
    forall i :: 0 <= i < |t| ==> t[i].Bind? || t[i].AsModifiable? || t[i].Source?
  }

  /** Every `source` call is immediately preceded by a reset of the record buffer. */
  predicate ResetBeforeSource(t: seq<Event>)
  {
    forall i :: 0 <= i < |t| && t[i].Source? ==> 0 < i && t[i - 1] == AsModifiable
  }

  lemma {:induction false} ConcatAppend(a: seq<Script>, b: seq<Script>)
    ensures Concat(a + b) == Concat(a) + Concat(b)
  {
    if a == [] {
      assert a + b == b;
    } else {
      assert (a + b)[1..] == a[1..] + b;
      ConcatAppend(a[1..], b);
    }
  }

  lemma {:induction false} RecordsAppend(a: Script, b: Script)
    ensures Records(a + b) == Records(a) + Records(b)
  {
    if a == [] {
      assert a + b == b;
    } else {
      assert (a + b)[1..] == a[1..] + b;
      RecordsAppend(a[1..], b);
    }
  }

  lemma {:induction false} CountAppend(a: seq<Event>, b: seq<Event>, e: Event)
    ensures Count(a + b, e) == Count(a, e) + Count(b, e)
  {
    if a == [] {
      assert a + b == b;
    } else {
      assert (a + b)[1..] == a[1..] + b;
      CountAppend(a[1..], b, e);
    }
  }

  /**
   The calls of one read-ahead that starts on input `first` and moves on
   `skipped` times: reset and source, then for each exhausted input, bind
   the next one, reset and source again.
   */
  function SourcingCalls(first: nat, skipped: nat): seq<Event>
    decreases skipped
  {
    [AsModifiable, Source(first)]
      + if skipped == 0 then [] else [Bind(first + 1)] + SourcingCalls(first + 1, skipped - 1)
  }

  /** A read-ahead only binds, resets and sources, always resetting first, and ends sourcing its last input. */
  lemma {:induction false} SourcingCallsShape(first: nat, skipped: nat)
    decreases skipped
    ensures var t := SourcingCalls(first, skipped);
      && |t| >= 2 && t[0] == AsModifiable && t[1] == Source(first) && t[|t| - 1] == Source(first + skipped)
      && Sourcing(t) && ResetBeforeSource(t)
  {
    var t := SourcingCalls(first, skipped);
    var head: seq<Event> := [AsModifiable, Source(first)];
    assert Sourcing(head) && ResetBeforeSource(head);
    if skipped > 0 {
      var tail := SourcingCalls(first + 1, skipped - 1);
      SourcingCallsShape(first + 1, skipped - 1);
      var bind: seq<Event> := [Bind(first + 1)];
      assert Sourcing(bind) && ResetBeforeSource(bind);
      SourcingAppend(bind, tail);
      ResetBeforeSourceAppend(bind, tail);
      SourcingAppend(head, bind + tail);
      ResetBeforeSourceAppend(head, bind + tail);
      assert t == head + (bind + tail);
    }
  }

  lemma SourcingAppend(a: seq<Event>, b: seq<Event>)
    requires Sourcing(a) && Sourcing(b)
    ensures Sourcing(a + b)
  {
    forall i | 0 <= i < |a + b| ensures (a + b)[i].Bind? || (a + b)[i].AsModifiable? || (a + b)[i].Source? {
      if i >= |a| {
        assert (a + b)[i] == b[i - |a|];
      }
    }
  }

  /** Appending a stretch that does not start with a `source` call keeps every call after its reset. */
  lemma ResetBeforeSourceAppend(a: seq<Event>, b: seq<Event>)
    requires ResetBeforeSource(a) && ResetBeforeSource(b)
    requires b != [] ==> !b[0].Source?
    ensures ResetBeforeSource(a + b)
  {
    forall i | 0 <= i < |a + b| && (a + b)[i].Source? ensures 0 < i && (a + b)[i - 1] == AsModifiable {
      if i < |a| {
        assert (a + b)[i] == a[i] && (a + b)[i - 1] == a[i - 1];
      } else {
        assert (a + b)[i] == b[i - |a|];
        assert i - |a| > 0;
        assert (a + b)[i - 1] == b[i - 1 - |a|];
      }
    }
  }

  /**
   The lifecycle of a whole iterator: bind the first input and prepare,
   then only sourcing, then clean up and close the input sequence — one
   prepare, one cleanup, one closing, every `source` call in between and
   right after a reset of the buffer.
   */
  predicate Bracketed(t: seq<Event>)
  {
    && |t| >= 4 && t[..2] == [Bind(0), Prepare] && t[|t| - 2..] == [Cleanup, CloseInputs]
    && Count(t, Prepare) == 1 && Count(t, Cleanup) == 1 && Count(t, CloseInputs) == 1
    && ResetBeforeSource(t)
    && forall i :: 0 <= i < |t| && t[i].Source? ==> 2 <= i < |t| - 2
  }

  /** `t` continues `t0` with sourcing calls only, keeping every `source` call right after a reset. */
  predicate Extends(t0: seq<Event>, t: seq<Event>)
  {
    t0 <= t && Sourcing(t[|t0|..]) && (ResetBeforeSource(t0) ==> ResetBeforeSource(t))
  }

  lemma ExtendsReflexive(t: seq<Event>)
    ensures Extends(t, t)
  {
    assert t[|t|..] == [];
  }

  lemma ExtendsTransitive(a: seq<Event>, b: seq<Event>, c: seq<Event>)
    requires Extends(a, b) && Extends(b, c)
    ensures Extends(a, c)
  {
    assert c[|a|..] == b[|a|..] + c[|b|..];
    SourcingAppend(b[|a|..], c[|b|..]);
  }

  /** One read-ahead extends any trace. */
  lemma ExtendsBySourcingCalls(t0: seq<Event>, first: nat, skipped: nat)
    ensures Extends(t0, t0 + SourcingCalls(first, skipped))
  {
    var ext := SourcingCalls(first, skipped);
    SourcingCallsShape(first, skipped);
    assert (t0 + ext)[|t0|..] == ext;
    if ResetBeforeSource(t0) {
      ResetBeforeSourceAppend(t0, ext);
    }
  }

  /** A sourcing-only stretch of trace holds no lifecycle event. */
  lemma {:induction false} SourcingHasNoLifecycleEvent(t: seq<Event>)
    requires Sourcing(t)
    ensures Count(t, Prepare) == 0 && Count(t, Cleanup) == 0 && Count(t, CloseInputs) == 0
  {
    if t != [] {
      assert t[0].Bind? || t[0].AsModifiable? || t[0].Source?;
      assert Sourcing(t[1..]) by {
        forall i | 0 <= i < |t[1..]| ensures t[1..][i].Bind? || t[1..][i].AsModifiable? || t[1..][i].Source? {
          assert t[1..][i] == t[i + 1];
        }
      }
      SourcingHasNoLifecycleEvent(t[1..]);
    }
  }

  /** Each input's records, input after input: the reference reading of a chained source. */
  function RecordsPerInput(inputs: seq<Script>): seq<Record>
  {
    if inputs == [] then [] else Records(inputs[0]) + RecordsPerInput(inputs[1..])
  }

  /** Chaining the inputs' outcomes and then picking the records gives each input's records in order. */
  lemma {:induction false} RecordsOfConcat(inputs: seq<Script>)
    ensures Records(Concat(inputs)) == RecordsPerInput(inputs)
  {
    if inputs != [] {
      RecordsAppend(inputs[0], Concat(inputs[1..]));
      RecordsOfConcat(inputs[1..]);
    }
  }

  /** An input that yields no records adds nothing to the chained records, wherever it sits. */
  lemma EmptyInputAddsNothing(before: seq<Script>, x: Script, after: seq<Script>)
    requires Records(x) == []
    ensures Records(Concat(before + [x] + after)) == Records(Concat(before + after))
  {
    ConcatAppend(before + [x], after);
    ConcatAppend(before, [x]);
    ConcatAppend(before, after);
    assert [x][1..] == [];
    assert Concat([x]) == x;
    RecordsAppend(Concat(before) + x, Concat(after));
    RecordsAppend(Concat(before), x);
    RecordsAppend(Concat(before), Concat(after));
  }
}
