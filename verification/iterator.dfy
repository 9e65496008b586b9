/**
 The lazy tuple-sourcing iterator (`TupleEntrySchemeIterator`) as an
 immutable state and pure transitions.

 The state holds the iterator's fields: the diagnostic identifier, the
 completion and lookahead flags, the pending read error, the source call
 (absent when the iterator was built over no input at all) and the input
 sequence's unread inputs, together with the trace of calls made into the
 scheme and the input sequence. Every public operation maps a state to its
 result and the next state.
 */
module SchemeIterator {
  import opened Util
  import opened Scheme

  /** The label used when no identifier, or an empty one, is given. */
  const Unknown: string := "'unknown'"

  /** The record buffer's contents before anything was sourced. */
  const BlankEntry: Record := []

  /** The source call: which raw input is bound, and what `source` still has to say about it. */
  datatype SourceCall = SourceCall(input: nat, rest: Script)

  /** The exceptions the iterator raises (message texts are not modelled). */
  datatype IteratorError =
    | PrepareFailed(identifier: string, cause: Cause)  // constructor: sourcePrepare threw
    | ReadFailed(identifier: string, cause: Cause)     // captured by hasNext, raised by the next `next`
    | SourceFailed(identifier: string, cause: Cause)   // `next` itself read and the read threw
    | NoNextElement                                    // `next` on a complete iterator
    | RemoveUnsupported                                // `remove`
    | CleanupFailed(cause: Cause)                      // close: sourceCleanup threw
    | InputCloseFailed(cause: Cause)                   // close: closing the input sequence threw

  datatype State = State(
    identifier: string,
    oracle: Oracle,
    inputs: InputSequence,              // `items` are the inputs not yet taken
    sourceCall: Option<SourceCall>,     // None exactly when the Java field is null
    entry: Record,                      // the reused record buffer
    isComplete: bool,
    hasWaiting: bool,
    currentException: Option<IteratorError>,
    trace: seq<Event>)

  /** The result of one operation together with the state it leaves. */
  datatype Step<+T> = Step(result: T, state: State)

  /** What every reachable state satisfies. */
  predicate Inv(s: State)
  {
    && s.identifier != []
    && (s.isComplete ==> !s.hasWaiting)
    && (s.sourceCall.None? ==> s.isComplete && s.inputs.items == [] && s.currentException.None?)
    && (s.isComplete ==> s.inputs.items == [] && (s.sourceCall.Some? ==> s.sourceCall.value.rest == []))
  }

  /** The scheme's answers still to come: the rest of the bound input, then every untaken input. */
  function Outcomes(s: State): Script
  {
    (if s.sourceCall.Some? then s.sourceCall.value.rest else []) + Concat(s.inputs.items)
  }

  /** The records a caller can still obtain: the buffered one, then those still to be sourced. */
  function Yield(s: State): seq<Record>
  {
    (if s.hasWaiting then [s.entry] else []) + Records(Outcomes(s))
  }

  /** A null or empty identifier is replaced by `'unknown'`. */
  function DefaultIdentifier(identifier: Option<string>): (r: string)
    ensures r != []
    ensures r == Unknown || identifier == Some(r)
    ensures identifier.Some? && identifier.value != [] ==> r == identifier.value
  {
    match identifier
    case Some(id) => if id == [] then Unknown else id
    case None => Unknown
  }

  /**
   The four-argument constructor. Over an empty input sequence the iterator
   is complete at once, without a source call and without `sourcePrepare`;
   otherwise the first input is taken and bound, then `sourcePrepare` runs
   once, and its failure is the constructor's failure.
   */
  function Construct(oracle: Oracle, inputs: InputSequence, identifier: Option<string>): (r: Result<State, IteratorError>)
    ensures r.Success? ==> Inv(r.value) && !r.value.hasWaiting && r.value.currentException.None?
    ensures r.Success? ==> r.value.identifier == DefaultIdentifier(identifier)
    ensures r.Success? ==> Outcomes(r.value) == Concat(inputs.items)
    ensures inputs.items == [] ==>
      r.Success? && r.value.isComplete && r.value.sourceCall.None? && r.value.trace == []
    ensures inputs.items != [] ==> (r.Success? <==> oracle.prepareError.None?)
    ensures inputs.items != [] && r.Success? ==>
      && !r.value.isComplete
      && r.value.sourceCall == Some(SourceCall(0, inputs.items[0]))
      && r.value.trace == [Bind(0), Prepare]
    ensures r.Failure? ==>
      oracle.prepareError.Some? && r.error == PrepareFailed(DefaultIdentifier(identifier), oracle.prepareError.value)
  {
    var id := DefaultIdentifier(identifier);
    if inputs.items == [] then
      Success(State(id, oracle, inputs, None, BlankEntry, true, false, None, []))
    else
      var call := SourceCall(0, inputs.items[0]);
      var s := State(id, oracle, inputs.(items := inputs.items[1..]), Some(call), BlankEntry,
                     false, false, None, [Bind(0), Prepare]);
      assert Concat(inputs.items) == inputs.items[0] + Concat(inputs.items[1..]);
      match oracle.prepareError
      case Some(c) => Failure(PrepareFailed(id, c))
      case None => Success(s)
  }

  /**
   The constructors over a single raw input: the input is wrapped in a
   one-element input sequence whose closing closes the input.
   */
  function ConstructSingle(oracle: Oracle, input: Script, closeError: Option<Cause>, identifier: Option<string>)
    : (r: Result<State, IteratorError>)
    ensures r.Success? <==> oracle.prepareError.None?
    ensures r.Success? ==>
      && Inv(r.value) && !r.value.isComplete
      && r.value.inputs.items == [] && r.value.inputs.closeError == closeError
      && Outcomes(r.value) == input
      && r.value.trace == [Bind(0), Prepare]
  {
    Construct(oracle, InputSequence([input], closeError), identifier)
  }

  /**
   The private `getNext`: reset the buffer, ask the scheme to source; on
   `false` with inputs left, bind the next input (without preparing again)
   and retry. It consumes exactly one of the scheme's remaining answers, or
   all inputs when no answer is left, in which case it returns the buffer
   unchanged.
   */
  function GetNext(s: State): (r: Step<Result<Record, Cause>>)
    requires s.sourceCall.Some?
    decreases |s.inputs.items|
    ensures r.state.sourceCall.Some?
    ensures && r.state.identifier == s.identifier && r.state.oracle == s.oracle
            && r.state.inputs.closeError == s.inputs.closeError
            && r.state.isComplete == s.isComplete && r.state.currentException == s.currentException
    ensures |r.state.inputs.items| <= |s.inputs.items|
    ensures r.result.Success? ==> r.result.value == r.state.entry
    ensures r.result.Failure? && !s.hasWaiting ==> !r.state.hasWaiting
    ensures r.result.Success? && !r.state.hasWaiting ==> r.state.inputs.items == [] && r.state.sourceCall.value.rest == []
    ensures var skipped := |s.inputs.items| - |r.state.inputs.items|;
      && r.state.sourceCall.value.input == s.sourceCall.value.input + skipped
  {
    var call := s.sourceCall.value;
    var s1 := s.(trace := s.trace + [AsModifiable, Source(call.input)]);
    if call.rest == [] then
      var s2 := s1.(hasWaiting := false);
      if s2.inputs.items != [] then
        var s3 := BindNext(s2);
        var r := GetNext(s3);
        r
      else
        Step(Success(s2.entry), s2)
    else
      var s2 := s1.(sourceCall := Some(call.(rest := call.rest[1..])));
      match call.rest[0]
      case Rec(x) => Step(Success(x), s2.(entry := x, hasWaiting := true))
      case Err(c) => Step(Failure(c), s2)
  }

  /** Takes the next raw input and binds it into the source call, in place of the exhausted one. */
  function BindNext(s: State): (r: State)
    requires s.sourceCall.Some? && s.inputs.items != []
    ensures r.sourceCall == Some(SourceCall(s.sourceCall.value.input + 1, s.inputs.items[0]))
    ensures r.inputs.items == s.inputs.items[1..] && r.trace == s.trace + [Bind(s.sourceCall.value.input + 1)]
  {
    var bound := SourceCall(s.sourceCall.value.input + 1, s.inputs.items[0]);
    s.(inputs := s.inputs.(items := s.inputs.items[1..]), sourceCall := Some(bound),
       trace := s.trace + [Bind(bound.input)])
  }

  /**
   The calls `getNext` makes: a reset and a `source` call on the bound
   input, then a binding, a reset and a `source` call for every input it
   moves on to — never a prepare.
   */
  lemma {:induction false} GetNextCalls(s: State)
    requires s.sourceCall.Some?
    decreases |s.inputs.items|
    ensures var r := GetNext(s);
      r.state.trace == s.trace + SourcingCalls(s.sourceCall.value.input, |s.inputs.items| - |r.state.inputs.items|)
  {
    var call := s.sourceCall.value;
    var step: seq<Event> := [AsModifiable, Source(call.input)];
    if call.rest == [] && s.inputs.items != [] {
      var s3 := BindNext(s.(trace := s.trace + step, hasWaiting := false));
      var bind: seq<Event> := [Bind(call.input + 1)];
      assert GetNext(s) == GetNext(s3);
      GetNextCalls(s3);
      var r := GetNext(s3);
      var k := |s.inputs.items| - |r.state.inputs.items|;
      assert |s3.inputs.items| - |r.state.inputs.items| == k - 1;
      var later := SourcingCalls(call.input + 1, k - 1);
      calc {
        r.state.trace;
        s3.trace + later;
        (s.trace + step + bind) + later;
        s.trace + (step + (bind + later));
        s.trace + SourcingCalls(call.input, k);
      }
    } else {
      GetNextCallsOnce(s);
    }
  }

  /** A `getNext` that stops on the bound input makes one reset and one `source` call. */
  lemma GetNextCallsOnce(s: State)
    requires s.sourceCall.Some? && (s.sourceCall.value.rest != [] || s.inputs.items == [])
    ensures var r := GetNext(s);
      && r.state.inputs.items == s.inputs.items
      && r.state.trace == s.trace + SourcingCalls(s.sourceCall.value.input, 0)
  {
    assert SourcingCalls(s.sourceCall.value.input, 0) == [AsModifiable, Source(s.sourceCall.value.input)];
  }

  /**
   Chaining: `getNext` consumes exactly the first of the scheme's remaining
   answers, skipping inputs that have none left; a read error leaves the
   buffer as it was. When no answer is left at all, every input has been
   taken and the buffer is returned unchanged, with no record waiting.
   */
  lemma {:induction false} GetNextConsumesOne(s: State)
    requires s.sourceCall.Some?
    decreases |s.inputs.items|
    ensures var r := GetNext(s);
      match r.result
      case Failure(c) =>
        && Outcomes(s) == [Err(c)] + Outcomes(r.state)
        && (r.state.hasWaiting ==> s.hasWaiting) && r.state.entry == s.entry
      case Success(x) =>
        && x == r.state.entry
        && if r.state.hasWaiting then Outcomes(s) == [Rec(x)] + Outcomes(r.state)
           else Outcomes(s) == [] && Outcomes(r.state) == [] && r.state.inputs.items == [] && x == s.entry
  {
    var call := s.sourceCall.value;
    if call.rest == [] {
      if s.inputs.items != [] {
        var s3 := BindNext(s.(trace := s.trace + [AsModifiable, Source(call.input)], hasWaiting := false));
        assert Outcomes(s) == Outcomes(s3);
        GetNextConsumesOne(s3);
      }
    } else {
      var s2 := s.(sourceCall := Some(call.(rest := call.rest[1..])));
      assert Outcomes(s) == [call.rest[0]] + Outcomes(s2);
    }
  }

  /**
   `hasNext`: false once complete, true while a record is buffered; else it
   reads ahead. A read error is captured as the pending error and reported
   as `true` without completing the iterator; a read that finds nothing
   left completes it. The pending error itself is never looked at.
   */
  function HasNext(s: State): (r: Step<bool>)
    requires Inv(s)
    ensures Inv(r.state)
    ensures r.result <==> !r.state.isComplete
    ensures s.isComplete ==> r.state == s
    ensures !s.isComplete && s.hasWaiting ==> r.result && r.state == s
    ensures !s.isComplete && !s.hasWaiting ==> r.state.trace == GetNext(s).state.trace
    ensures r.state.currentException != s.currentException ==> r.result && !r.state.hasWaiting
    ensures r.state.oracle == s.oracle && r.state.inputs.closeError == s.inputs.closeError
    ensures r.state.sourceCall.Some? == s.sourceCall.Some? && r.state.identifier == s.identifier
  {
    if s.isComplete then Step(false, s)
    else if s.hasWaiting then Step(true, s)
    else
      var g := GetNext(s);
      match g.result
      case Failure(c) =>
        var id := DefaultIdentifier(Some(g.state.identifier));
        Step(true, g.state.(identifier := id, currentException := Some(ReadFailed(id, c))))
      case Success(_) =>
        var s' := if !g.state.hasWaiting then g.state.(isComplete := true) else g.state;
        Step(!s'.isComplete, s')
  }

  /**
   A read-ahead by `hasNext` consumes exactly the first remaining answer of
   the scheme: a record becomes the buffered one, a read error becomes the
   pending error (replacing any earlier one), and when nothing is left the
   iterator completes.
   */
  lemma HasNextReadsAhead(s: State)
    requires Inv(s) && !s.isComplete && !s.hasWaiting
    ensures var r := HasNext(s);
      if Outcomes(s) == [] then
        !r.result && Outcomes(r.state) == [] && r.state.currentException == s.currentException
      else
        && r.result
        && Outcomes(r.state) == Outcomes(s)[1..]
        && match Outcomes(s)[0]
           case Rec(x) =>
             r.state.hasWaiting && r.state.entry == x && r.state.currentException == s.currentException
           case Err(c) =>
             !r.state.hasWaiting && r.state.currentException == Some(ReadFailed(s.identifier, c))
  {
    var g := GetNext(s);
    GetNextConsumesOne(s);
    if g.result.Failure? {
      var id := DefaultIdentifier(Some(g.state.identifier));
      assert Outcomes(g.state.(identifier := id, currentException := Some(ReadFailed(id, g.result.error)))) == Outcomes(g.state);
    } else if !g.state.hasWaiting {
      assert Outcomes(g.state.(isComplete := true)) == Outcomes(g.state);
    }
  }

  /**
   `next`: a pending error is raised first, and cleared whatever happens;
   then a complete iterator fails; then the buffered record is returned, or
   else `getNext` is called directly. Every call that gets past the
   completeness check leaves no record buffered, and none completes the
   iterator.
   */
  function Next(s: State): (r: Step<Result<Record, IteratorError>>)
    requires Inv(s)
    ensures Inv(r.state)
    ensures r.state.currentException.None?
    ensures r.state.isComplete == s.isComplete
    ensures s.currentException.Some? ==>
      r.result == Failure(s.currentException.value) && r.state == s.(currentException := None)
    ensures s.currentException.None? && s.isComplete ==> r.result == Failure(NoNextElement) && r.state == s
    ensures s.currentException.None? && !s.isComplete ==> !r.state.hasWaiting
    ensures s.currentException.None? && !s.isComplete && s.hasWaiting ==>
      r.result == Success(s.entry) && r.state == s.(hasWaiting := false)
    ensures s.currentException.None? && !s.isComplete && !s.hasWaiting ==> r.state.trace == GetNext(s).state.trace
    ensures r.state.oracle == s.oracle && r.state.inputs.closeError == s.inputs.closeError
    ensures r.state.sourceCall.Some? == s.sourceCall.Some? && r.state.identifier == s.identifier
  {
    match s.currentException
    case Some(e) => Step(Failure(e), s.(currentException := None))
    case None =>
      if s.isComplete then Step(Failure(NoNextElement), s)
      else if s.hasWaiting then Step(Success(s.entry), s.(hasWaiting := false))
      else
        var g := GetNext(s);
        var s' := g.state.(hasWaiting := false);
        match g.result
        case Success(x) => Step(Success(x), s')
        case Failure(c) => Step(Failure(SourceFailed(s'.identifier, c)), s')
  }

  /**
   A `next` with nothing buffered reads for itself: it consumes the first
   remaining answer and returns its record or raises its error; when nothing
   is left it still returns the buffer's current contents, without
   completing the iterator.
   */
  lemma NextReadsDirectly(s: State)
    requires Inv(s) && s.currentException.None? && !s.isComplete && !s.hasWaiting
    ensures var r := Next(s);
      if Outcomes(s) == [] then
        r.result == Success(s.entry) && Outcomes(r.state) == []
      else
        && Outcomes(r.state) == Outcomes(s)[1..]
        && match Outcomes(s)[0]
           case Rec(x) => r.result == Success(x)
           case Err(c) => r.result == Failure(SourceFailed(s.identifier, c))
  {
    var g := GetNext(s);
    GetNextConsumesOne(s);
    assert Outcomes(g.state.(hasWaiting := false)) == Outcomes(g.state);
  }

  /** `remove` is never supported and touches nothing. */
  function Remove(s: State): (r: Step<IteratorError>)
    ensures r.result == RemoveUnsupported && r.state == s
  {
    Step(RemoveUnsupported, s)
  }

  /**
   `close`: `sourceCleanup` when a source call exists, then — in a
   `finally` — the input sequence is closed. A failure to close the inputs
   replaces a cleanup failure.
   */
  function Close(s: State): (r: Step<Option<IteratorError>>)
    ensures r.state == s.(trace := r.state.trace)
    ensures r.result.None? <==> s.inputs.closeError.None? && (s.sourceCall.None? || s.oracle.cleanupError.None?)
    ensures s.inputs.closeError.Some? ==> r.result == Some(InputCloseFailed(s.inputs.closeError.value))
    ensures s.inputs.closeError.None? && r.result.Some? ==> r.result == Some(CleanupFailed(s.oracle.cleanupError.value))
  {
    var calls: seq<Event> := if s.sourceCall.Some? then [Cleanup, CloseInputs] else [CloseInputs];
    var cleanupFailure :=
      if s.sourceCall.Some? && s.oracle.cleanupError.Some? then Some(CleanupFailed(s.oracle.cleanupError.value))
      else None;
    var s' := s.(trace := s.trace + calls);
    match s.inputs.closeError
    case Some(c) => Step(Some(InputCloseFailed(c)), s')
    case None => Step(cleanupFailure, s')
  }

  /**
   What `close` adds to the trace: one closing of the input sequence, the
   last call made, preceded by exactly one cleanup when a source call
   exists; never a prepare.
   */
  lemma CloseTrace(s: State)
    ensures var t := Close(s).state.trace;
      && t == s.trace + (if s.sourceCall.Some? then [Cleanup, CloseInputs] else [CloseInputs])
      && Count(t, CloseInputs) == Count(s.trace, CloseInputs) + 1
      && Count(t, Cleanup) == Count(s.trace, Cleanup) + (if s.sourceCall.Some? then 1 else 0)
      && Count(t, Prepare) == Count(s.trace, Prepare)
      && t[|t| - 1] == CloseInputs
      && (s.sourceCall.Some? ==> t[|t| - 2] == Cleanup)
  {
    var calls: seq<Event> := if s.sourceCall.Some? then [Cleanup, CloseInputs] else [CloseInputs];
    assert Close(s).state.trace == s.trace + calls;
    assert [Cleanup, CloseInputs][1..] == [CloseInputs] && [CloseInputs][1..] == [];
    CountAppend(s.trace, calls, CloseInputs);
    CountAppend(s.trace, calls, Cleanup);
    CountAppend(s.trace, calls, Prepare);
  }
}
