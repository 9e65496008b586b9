/**
 Properties of the scheme iterator across several calls: the lifecycle of
 the scheme's hooks, chaining of inputs, the stability of lookahead, and
 the deferred reporting of read errors.
 */
module IteratorProperties {
  import opened Util
  import opened Scheme
  import opened SchemeIterator

  /** A call a client can make between construction and `close`. */
  datatype Call = CallHasNext | CallNext | CallRemove

  function Apply(s: State, c: Call): (r: State)
    requires Inv(s)
  {
    match c
    case CallHasNext => HasNext(s).state
    case CallNext => Next(s).state
    case CallRemove => Remove(s).state
  }

  /** The state after a client's calls, in order. */
  function Run(s: State, calls: seq<Call>): (r: State)
    requires Inv(s)
    decreases |calls|
    ensures Inv(r)
    ensures r.sourceCall.Some? == s.sourceCall.Some?
    ensures r.oracle == s.oracle && r.inputs.closeError == s.inputs.closeError && r.identifier == s.identifier
    ensures s.isComplete ==> r.isComplete
  {
    if calls == [] then s else Run(Apply(s, calls[0]), calls[1..])
  }

  /**
   Between construction and `close` the iterator only binds inputs, resets
   the buffer and calls `source`, and every `source` call comes right after
   a reset of the buffer.
   */
  lemma HasNextCalls(s: State)
    requires Inv(s)
    ensures Extends(s.trace, HasNext(s).state.trace)
  {
    if !s.isComplete && !s.hasWaiting {
      GetNextCalls(s);
      ExtendsBySourcingCalls(s.trace, s.sourceCall.value.input, |s.inputs.items| - |GetNext(s).state.inputs.items|);
    } else {
      ExtendsReflexive(s.trace);
    }
  }

  lemma NextCalls(s: State)
    requires Inv(s)
    ensures Extends(s.trace, Next(s).state.trace)
  {
    if s.currentException.None? && !s.isComplete && !s.hasWaiting {
      GetNextCalls(s);
      ExtendsBySourcingCalls(s.trace, s.sourceCall.value.input, |s.inputs.items| - |GetNext(s).state.inputs.items|);
    } else {
      ExtendsReflexive(s.trace);
    }
  }

  lemma {:induction false} RunCalls(s: State, calls: seq<Call>)
    requires Inv(s)
    decreases |calls|
    ensures Extends(s.trace, Run(s, calls).trace)
  {
    if calls == [] {
      ExtendsReflexive(s.trace);
    } else {
      var s1 := Apply(s, calls[0]);
      match calls[0] {
        case CallHasNext => HasNextCalls(s);
        case CallNext => NextCalls(s);
        case CallRemove => ExtendsReflexive(s.trace);
      }
      RunCalls(s1, calls[1..]);
      ExtendsTransitive(s.trace, s1.trace, Run(s, calls).trace);
    }
  }

  /**
   From construction on, and until `close`, the trace holds the
   constructor's prepare — one when there was an input, none otherwise —
   and no cleanup or closing; no `source` call comes before the prepare.
   */
  lemma LifecycleBeforeClose(t0: seq<Event>, t: seq<Event>)
    requires t0 == [] || t0 == [Bind(0), Prepare]
    requires Extends(t0, t)
    ensures Count(t, Prepare) == (if t0 == [] then 0 else 1)
    ensures Count(t, Cleanup) == 0 && Count(t, CloseInputs) == 0
    ensures ResetBeforeSource(t)
    ensures t0 != [] ==> |t| >= 2 && t[0] == Bind(0) && t[1] == Prepare
  {
    var ext := t[|t0|..];
    assert t == t0 + ext;
    SourcingHasNoLifecycleEvent(ext);
    CountAppend(t0, ext, Prepare);
    CountAppend(t0, ext, Cleanup);
    CountAppend(t0, ext, CloseInputs);
    assert ResetBeforeSource(t0);
  }

  /**
   Over a non-empty input sequence `sourcePrepare` and `sourceCleanup`
   bracket the whole iterator: whatever the client does, the trace up to and
   including `close` holds one prepare, right after the first input is
   bound, and one cleanup, right before the input sequence is closed, with
   every `source` call in between.
   */
  lemma PrepareAndCleanupBracketTheIterator(oracle: Oracle, inputs: InputSequence, identifier: Option<string>,
                                            calls: seq<Call>)
    requires inputs.items != [] && oracle.prepareError.None?
    ensures Construct(oracle, inputs, identifier).Success?
    ensures Bracketed(Close(Run(Construct(oracle, inputs, identifier).value, calls)).state.trace)
  {
    RunIsBracketed(Construct(oracle, inputs, identifier).value, calls);
  }

  lemma RunIsBracketed(s0: State, calls: seq<Call>)
    requires Inv(s0) && s0.sourceCall.Some? && s0.trace == [Bind(0), Prepare]
    ensures Bracketed(Close(Run(s0, calls)).state.trace)
  {
    var s := Run(s0, calls);
    RunCalls(s0, calls);
    LifecycleBeforeClose(s0.trace, s.trace);
    CloseTrace(s);
    ClosedTraceBrackets(s.trace);
  }

  /** Appending a cleanup and a closing to a prepared, sourcing-only trace brackets every `source` call. */
  lemma ClosedTraceBrackets(before: seq<Event>)
    requires |before| >= 2 && before[0] == Bind(0) && before[1] == Prepare
    requires Count(before, Prepare) == 1 && Count(before, Cleanup) == 0 && Count(before, CloseInputs) == 0
    requires ResetBeforeSource(before)
    ensures Bracketed(before + [Cleanup, CloseInputs])
  {
    var t := before + [Cleanup, CloseInputs];
    CountAppend(before, [Cleanup, CloseInputs], Prepare);
    CountAppend(before, [Cleanup, CloseInputs], Cleanup);
    CountAppend(before, [Cleanup, CloseInputs], CloseInputs);
    ResetBeforeSourceAppend(before, [Cleanup, CloseInputs]);
  }

  /** A complete iterator with no pending error ignores every call but `close`. */
  lemma {:induction false} CompleteIsInert(s: State, calls: seq<Call>)
    requires Inv(s) && s.isComplete && s.currentException.None?
    decreases |calls|
    ensures Run(s, calls) == s
    ensures HasNext(s) == Step(false, s) && Next(s) == Step(Failure(NoNextElement), s)
  {
    if calls != [] {
      assert Apply(s, calls[0]) == s;
      CompleteIsInert(s, calls[1..]);
    }
  }

  /** Once complete, `hasNext` answers false forever, whatever the client calls. */
  lemma CompleteIsForever(s: State, calls: seq<Call>)
    requires Inv(s) && s.isComplete
    ensures Run(s, calls).isComplete && HasNext(Run(s, calls)) == Step(false, Run(s, calls))
  {
  }

  /**
   Over an empty input sequence the iterator is complete from the start:
   `hasNext` is false, nothing is ever prepared or sourced, and `close`
   skips the cleanup but still closes the input sequence.
   */
  lemma EmptyInputSequence(oracle: Oracle, inputs: InputSequence, identifier: Option<string>, calls: seq<Call>)
    requires inputs.items == []
    ensures Construct(oracle, inputs, identifier).Success?
    ensures var s := Run(Construct(oracle, inputs, identifier).value, calls);
      && s.sourceCall.None? && s.trace == []
      && !HasNext(s).result
      && Close(s).state.trace == [CloseInputs]
      && Close(s).result == (if inputs.closeError.Some? then Some(InputCloseFailed(inputs.closeError.value)) else None)
  {
    var s0 := Construct(oracle, inputs, identifier).value;
    CompleteIsInert(s0, calls);
    assert Close(s0).state.trace == [] + [CloseInputs];
  }

  /**
   Lookahead is stable: after a `hasNext` that answered true without
   capturing an error, a second `hasNext` answers true and calls nothing.
   */
  lemma LookaheadIsStable(s: State)
    requires Inv(s) && s.currentException.None?
    requires HasNext(s).result && HasNext(s).state.currentException.None?
    ensures var h := HasNext(s).state; HasNext(h) == Step(true, h) && h.hasWaiting
  {
    if !s.isComplete && !s.hasWaiting {
      HasNextReadsAhead(s);
    }
  }

  /** With an error-free scheme, reading ahead neither loses nor duplicates a record. */
  lemma HasNextKeepsYield(s: State)
    requires Inv(s) && s.currentException.None? && ErrorFree(Outcomes(s))
    ensures var r := HasNext(s);
      && Yield(r.state) == Yield(s)
      && r.state.currentException.None? && ErrorFree(Outcomes(r.state))
      && (r.result ==> r.state.hasWaiting)
      && (!r.result ==> Yield(r.state) == [])
      && (!s.hasWaiting ==> |Outcomes(r.state)| + (if r.result then 1 else 0) <= |Outcomes(s)|)
  {
    var r := HasNext(s);
    if !s.isComplete && !s.hasWaiting {
      HasNextReadsAhead(s);
      var o := Outcomes(s);
      if o != [] {
        assert o[0].Rec?;
        assert o == [o[0]] + o[1..];
        assert Records(o) == [o[0].record] + Records(o[1..]);
        assert ErrorFree(o[1..]) by {
          forall i | 0 <= i < |o[1..]| ensures o[1..][i].Rec? {
            assert o[1..][i] == o[i + 1];
          }
        }
      }
    } else if s.isComplete {
      assert !s.hasWaiting;
      assert r.state == s;
    }
  }

  /** With an error-free scheme, `next` hands out the buffered record and nothing else. */
  lemma NextTakesBuffered(s: State)
    requires Inv(s) && s.currentException.None? && s.hasWaiting
    ensures var r := Next(s);
      && r.result == Success(s.entry)
      && Yield(s) == [s.entry] + Yield(r.state)
      && Outcomes(r.state) == Outcomes(s)
      && r.state.currentException.None? && !r.state.hasWaiting
  {
  }

  /**
   Draining an iterator with an error-free scheme by alternating `hasNext`
   and `next` yields exactly the records it still had to give, in order,
   and leaves it complete.
   */
  method Drain(s0: State) returns (out: seq<Record>, s: State)
    requires Inv(s0) && s0.currentException.None? && ErrorFree(Outcomes(s0))
    ensures out == Yield(s0)
    ensures Inv(s) && s.isComplete && !HasNext(s).result
    ensures Extends(s0.trace, s.trace)
    ensures s.sourceCall.Some? == s0.sourceCall.Some? && s.oracle == s0.oracle && s.inputs.closeError == s0.inputs.closeError
  {
    out := [];
    HasNextKeepsYield(s0);
    var h := HasNext(s0);
    s := h.state;
    HasNextCalls(s0);
    while h.result
      invariant Inv(s) && s.currentException.None? && ErrorFree(Outcomes(s))
      invariant h.result ==> s.hasWaiting
      invariant !h.result ==> s.isComplete && Yield(s) == []
      invariant out + Yield(s) == Yield(s0)
      invariant Extends(s0.trace, s.trace)
      invariant s.sourceCall.Some? == s0.sourceCall.Some? && s.oracle == s0.oracle && s.inputs.closeError == s0.inputs.closeError
      decreases |Outcomes(s)| + (if h.result then 1 else 0)
    {
      NextTakesBuffered(s);
      var n := Next(s);
      out := out + [n.result.value];
      NextCalls(s);
      ExtendsTransitive(s0.trace, s.trace, n.state.trace);
      s := n.state;
      HasNextKeepsYield(s);
      h := HasNext(s);
      HasNextCalls(s);
      ExtendsTransitive(s0.trace, s.trace, h.state.trace);
      s := h.state;
    }
  }

  /**
   A client that builds the iterator, reads it to the end and closes it.
   With an error-free scheme the records it reads are each input's records,
   input after input (inputs with no records add nothing), and the scheme
   is prepared and cleaned up once for the whole sequence — not at all
   when there is no input.
   */
  method ReadAll(oracle: Oracle, inputs: InputSequence, identifier: Option<string>)
    returns (r: Result<seq<Record>, IteratorError>, closing: Option<IteratorError>, trace: seq<Event>)
    requires ErrorFree(Concat(inputs.items))
    ensures r.Failure? <==> inputs.items != [] && oracle.prepareError.Some?
    ensures r.Success? ==> r.value == RecordsPerInput(inputs.items)
    ensures r.Success? ==>
      && Count(trace, Prepare) == Count(trace, Cleanup) == (if inputs.items == [] then 0 else 1)
      && Count(trace, CloseInputs) == 1 && trace[|trace| - 1] == CloseInputs
    ensures r.Success? ==> (closing.Some? <==> inputs.closeError.Some? || (inputs.items != [] && oracle.cleanupError.Some?))
  {
    var built := Construct(oracle, inputs, identifier);
    if built.Failure? {
      return Failure(built.error), None, [];
    }
    var s0 := built.value;
    var out, s := Drain(s0);
    RecordsOfConcat(inputs.items);
    var closed := Close(s);
    CloseTrace(s);
    LifecycleBeforeClose(s0.trace, s.trace);
    r, closing, trace := Success(out), closed.result, closed.state.trace;
  }

  /**
   A read error met by `hasNext` is deferred: `hasNext` answers true
   without completing the iterator, the next `next` raises that error and
   clears it, calling nothing, and the `next` after that does not raise it
   again.
   */
  lemma ReadErrorIsDeferred(s: State)
    requires Inv(s) && !s.isComplete && !s.hasWaiting && Outcomes(s) != [] && Outcomes(s)[0].Err?
    ensures var h := HasNext(s); var n := Next(h.state); var e := ReadFailed(s.identifier, Outcomes(s)[0].cause);
      && h.result && !h.state.isComplete && !h.state.hasWaiting && h.state.currentException == Some(e)
      && n.result == Failure(e) && n.state.currentException.None? && n.state.trace == h.state.trace
      && Outcomes(n.state) == Outcomes(s)[1..]
      && Next(n.state).result != Failure(e)
  {
    HasNextReadsAhead(s);
    var n := Next(HasNext(s).state);
    NextReadsDirectly(n.state);
  }

  /**
   After a deferred read error has been raised, the next `hasNext` does not
   give up: it calls `source` again, starting on the very input whose read
   failed.
   */
  lemma RetryAfterReadError(s: State)
    requires Inv(s) && !s.isComplete && !s.hasWaiting && Outcomes(s) != [] && Outcomes(s)[0].Err?
    ensures var h := HasNext(s); var n := Next(h.state); var h2 := HasNext(n.state);
      && h.state.sourceCall.Some? && |h.state.trace| > 0
      && h.state.trace[|h.state.trace| - 1] == Source(h.state.sourceCall.value.input)
      && |h2.state.trace| >= |n.state.trace| + 2
      && h2.state.trace[|n.state.trace| + 1] == Source(h.state.sourceCall.value.input)
  {
    HasNextReadsAhead(s);
    var h := HasNext(s);
    HasNextSources(s);
    var n := Next(h.state);
    assert n.state == h.state.(currentException := None);
    HasNextSources(n.state);
  }

  /**
   A `hasNext` with nothing buffered calls `source` first on the input
   bound when it starts, and last on the input it leaves bound.
   */
  lemma HasNextSources(s: State)
    requires Inv(s) && !s.isComplete && !s.hasWaiting
    ensures var r := HasNext(s).state;
      && r.sourceCall.Some? && |r.trace| >= |s.trace| + 2
      && r.trace[|s.trace| + 1] == Source(s.sourceCall.value.input)
      && r.trace[|r.trace| - 1] == Source(r.sourceCall.value.input)
  {
    var g := GetNext(s);
    GetNextCalls(s);
    SourcingCallsShape(s.sourceCall.value.input, |s.inputs.items| - |g.state.inputs.items|);
    assert HasNext(s).state.sourceCall == g.state.sourceCall;
  }

  /**
   Every `next` that gets past the completeness check leaves nothing
   buffered, so the `hasNext` that follows calls `source` again.
   */
  lemma NextThenHasNextReads(s: State)
    requires Inv(s) && s.currentException.None? && !s.isComplete
    ensures var n := Next(s).state;
      && !n.hasWaiting
      && |HasNext(n).state.trace| >= |n.trace| + 2
      && HasNext(n).state.trace[|n.trace| + 1].Source?
  {
    HasNextSources(Next(s).state);
  }

  /** A pending error and a buffered record do not coexist. */
  predicate NoClash(s: State)
  {
    s.currentException.Some? ==> !s.hasWaiting
  }

  /**
   Every call keeps a pending error and a buffered record apart, except a
   `hasNext` made while an error is already pending on an incomplete
   iterator: that one reads ahead regardless, and may buffer a record
   beside the pending error.
   */
  lemma NoClashPreserved(s: State, c: Call)
    requires Inv(s) && NoClash(s)
    requires c == CallHasNext ==> s.currentException.None? || s.isComplete
    ensures NoClash(Apply(s, c))
  {
  }

  /**
   The exception named above, on inputs whose first read fails and whose
   second yields a record: two `hasNext` calls in a row leave the record
   buffered while the first error is still pending. The error is then
   raised by `next`, and the record is handed out by the `next` after it.
   */
  lemma SecondHasNextBuffersBesidePendingError()
    ensures Construct(Oracle(None, None), InputSequence([[Err(7), Rec([1])]], None), None).Success?
    ensures var s0 := Construct(Oracle(None, None), InputSequence([[Err(7), Rec([1])]], None), None).value;
      var h1 := HasNext(s0); var h2 := HasNext(h1.state); var n1 := Next(h2.state);
      && h1.result && h1.state.currentException == Some(ReadFailed(Unknown, 7))
      && h2.result && h2.state.hasWaiting && h2.state.currentException == Some(ReadFailed(Unknown, 7))
      && !NoClash(h2.state)
      && n1.result == Failure(ReadFailed(Unknown, 7))
      && Next(n1.state).result == Success([1])
  {
    var script: Script := [Err(7), Rec([1])];
    var s0 := Construct(Oracle(None, None), InputSequence([script], None), None).value;
    assert Concat([script]) == script + Concat([]);
    HasNextReadsAhead(s0);
    var h1 := HasNext(s0);
    HasNextReadsAhead(h1.state);
  }

  /**
   A pending error outlives exhaustion: on an input whose only read fails,
   a second `hasNext` completes the iterator and answers false, yet the
   next `next` still raises the pending error before reporting that no
   element is left.
   */
  lemma PendingErrorOutlivesExhaustion()
    ensures Construct(Oracle(None, None), InputSequence([[Err(7)]], None), None).Success?
    ensures var s0 := Construct(Oracle(None, None), InputSequence([[Err(7)]], None), None).value;
      var h1 := HasNext(s0); var h2 := HasNext(h1.state); var n1 := Next(h2.state);
      && h1.result && !h2.result && h2.state.isComplete
      && n1.result == Failure(ReadFailed(Unknown, 7))
      && Next(n1.state).result == Failure(NoNextElement)
  {
    var script: Script := [Err(7)];
    var s0 := Construct(Oracle(None, None), InputSequence([script], None), None).value;
    assert Concat([script]) == script + Concat([]);
    HasNextReadsAhead(s0);
    var h1 := HasNext(s0);
    assert Outcomes(s0)[1..] == [];
    HasNextReadsAhead(h1.state);
  }

  /** Running `a + b` is running `a`, then `b`. */
  lemma {:induction false} RunAppend(s: State, a: seq<Call>, b: seq<Call>)
    requires Inv(s)
    decreases |a|
    ensures Run(s, a + b) == Run(Run(s, a), b)
  {
    if a == [] {
      assert a + b == b;
    } else {
      assert (a + b)[0] == a[0] && (a + b)[1..] == a[1..] + b;
      RunAppend(Apply(s, a[0]), a[1..], b);
    }
  }

  /** A `remove` anywhere among a client's calls makes no difference to what follows. */
  lemma RemoveIsInert(s: State, a: seq<Call>, b: seq<Call>)
    requires Inv(s)
    ensures Run(s, a + [CallRemove] + b) == Run(s, a + b)
  {
    RunAppend(s, a + [CallRemove], b);
    RunAppend(s, a, [CallRemove]);
    RunAppend(s, a, b);
    assert Run(Run(s, a), [CallRemove]) == Run(s, a);
  }

  /** Defaulting the identifier twice changes nothing, so the re-check in `hasNext` is harmless. */
  lemma DefaultIdentifierIsIdempotent(identifier: Option<string>)
    ensures DefaultIdentifier(Some(DefaultIdentifier(identifier))) == DefaultIdentifier(identifier)
    ensures DefaultIdentifier(identifier) == Unknown <==> identifier.None? || identifier.value == [] || identifier.value == Unknown
  {
  }
}
