# TupleEntrySchemeIterator as a state machine

This project models Cascading's `TupleEntrySchemeIterator`. The iterator is lazy: it chains a non-rewindable, closeable sequence of raw inputs into one stream of records. A pluggable scheme decodes the records one `source` call at a time, and the scheme's `sourcePrepare` and `sourceCleanup` hooks bracket the iteration.

The iterator's fields become an immutable `State`:

- the identifier;
- `isComplete` and `hasWaiting`;
- the pending read error (`currentException`);
- the source call, which is `None` exactly when the Java field is `null`;
- the unread inputs;
- the reused record buffer;
- the trace of calls the iterator makes into the scheme and the input sequence.

Each public operation is a pure function from a state to its result and the next state:

- the constructors;
- `hasNext`;
- `next`;
- `remove`;
- `close`.

The private `getNext` is modelled the same way.

## The scheme as an oracle

The scheme is an oracle, not code:

- Each raw input carries a finite script of outcomes. An outcome is either a record (`Rec`) or a read error (`Err`).
- Each `source` call consumes one outcome from the input's script. Once the script is empty, `source` answers `false`.
- A failing `sourcePrepare`, `sourceCleanup` or input-sequence `close` is a field of the oracle or of the input sequence.
- `Scheme.Concat` defines the stream of answers still to come. `Scheme.Records` picks out its records. `Scheme.RecordsPerInput` is an independent reference for chained reading: each input's records, input after input.

## Files

- `util.dfy`: `Option` and `Result`.
- `scheme.dfy`: the oracle, the call trace and its predicates (`Sourcing`, `ResetBeforeSource`, `Extends`, `Bracketed`), and the reference definitions of chained reading.
- `iterator.dfy`: the iterator's state, its invariant, and its operations.
- `properties.dfy`: properties across several calls. These cover:
  - client call sequences (`Run`);
  - the prepare/cleanup lifecycle;
  - draining an iterator;
  - deferred read errors;
  - the pending-error/buffered-record interplay.

## Behaviours worth knowing

Three quirks of the Java are modelled as written:

- `hasNext` never looks at the pending error, so a second `hasNext` after a captured error reads again.
- A `next` with nothing buffered calls `getNext` itself. It returns the buffer even when `source` answered `false`, and it does not complete the iterator.
- `close` is a `try`/`finally`. A failure to close the input sequence replaces a cleanup failure.

These quirks have three consequences:

- **A pending error and a buffered record can coexist.** A `hasNext` made while an error is pending reads ahead anyway, and it can buffer a record beside the error. `IteratorProperties.SecondHasNextBuffersBesidePendingError` exhibits the case. `IteratorProperties.NoClashPreserved` proves that every other call keeps the two apart.
- **A second read error replaces the first.** A second `hasNext` that meets another read error makes that one the pending error. The earlier error is never raised (`SchemeIterator.HasNextReadsAhead`).
- **When both cleanup and closing fail, the cleanup failure is lost** (`SchemeIterator.Close`).

## Model

| member | source | states |
|---|---|---|
| `SchemeIterator.DefaultIdentifier` | src/core/cascading/tuple/TupleEntrySchemeIterator.java:70-71 | The identifier is never empty. It is `'unknown'` or the given one, and a given non-empty identifier is kept. |
| `SchemeIterator.Construct` | src/core/cascading/tuple/TupleEntrySchemeIterator.java:62-92 | Over no input: complete at once, no source call, nothing prepared. Otherwise: the first input is bound and then prepared exactly once (trace `[Bind(0), Prepare]`). Construction succeeds iff `sourcePrepare` does not throw, and a failure carries the defaulted identifier. The remaining answers are the chained inputs' outcomes, and the invariant holds. |
| `SchemeIterator.ConstructSingle` | src/core/cascading/tuple/TupleEntrySchemeIterator.java:52-55 | A single input becomes a one-element input sequence. Success means an incomplete iterator whose remaining answers are exactly that input's script, with its close failure attached. |
| `SchemeIterator.GetNext` | src/core/cascading/tuple/TupleEntrySchemeIterator.java:132-145 | The identifier, oracle, input-close failure, completion flag and pending error are unchanged. Each skipped input advances the bound input by one. A success returns the buffer. A success with nothing waiting means every input and the bound input's answers are exhausted. |
| `SchemeIterator.GetNextCalls` | src/core/cascading/tuple/TupleEntrySchemeIterator.java:134-142 | The exact calls made: reset and source on the bound input, then, for each input moved on to, bind, reset and source. Never a prepare. |
| `SchemeIterator.GetNextConsumesOne` | src/core/cascading/tuple/TupleEntrySchemeIterator.java:135-144 | Exactly the first remaining answer is consumed: a record is buffered, or an error is raised with the buffer untouched. With no answer left, all inputs are taken and the unchanged buffer is returned with nothing waiting. |
| `SchemeIterator.HasNext` | src/core/cascading/tuple/TupleEntrySchemeIterator.java:104-130 | False iff complete afterwards. A complete iterator is untouched. A buffered record answers true without calls. Otherwise it makes `getNext`'s calls. A newly captured error answers true with nothing buffered. The invariant holds. |
| `SchemeIterator.HasNextReadsAhead` | src/core/cascading/tuple/TupleEntrySchemeIterator.java:113-129 | A read-ahead consumes the first remaining answer. A record becomes the buffered one, and an error becomes the pending error under the identifier. When nothing is left, it completes and answers false. |
| `SchemeIterator.Next` | src/core/cascading/tuple/TupleEntrySchemeIterator.java:147-178 | A pending error is raised first and cleared in every case. Otherwise a complete iterator fails with "no next element" and changes nothing. Otherwise the buffered record is handed out, or `getNext` is called directly. Past the completeness check nothing stays buffered, and completion never changes. |
| `SchemeIterator.NextReadsDirectly` | src/core/cascading/tuple/TupleEntrySchemeIterator.java:163-173 | With nothing buffered, `next` consumes the first remaining answer and returns its record or a source failure. With nothing left, it returns the stale buffer without completing. |
| `SchemeIterator.Remove` | src/core/cascading/tuple/TupleEntrySchemeIterator.java:180-184 | Always unsupported. The state is unchanged. |
| `SchemeIterator.Close` | src/core/cascading/tuple/TupleEntrySchemeIterator.java:186-198 | Only the trace changes. A close failure of the input sequence is the result whatever the cleanup did. Otherwise a cleanup failure is the result when a source call exists. The result is absent iff neither fails. |
| `SchemeIterator.CloseTrace` | src/core/cascading/tuple/TupleEntrySchemeIterator.java:189-197 | `close` always closes the input sequence, as its last call, exactly once. It cleans up exactly once, right before that, iff a source call exists. It never prepares. |
| `Scheme.SourcingCallsShape` | src/core/cascading/tuple/TupleEntrySchemeIterator.java:134-141 | A read-ahead only binds, resets and sources. Every `source` call comes right after a reset of the buffer. It starts on the bound input and ends on the last input bound. |
| `Scheme.RecordsOfConcat` | src/core/cascading/tuple/TupleEntrySchemeIterator.java:137-142 | Reading the chained inputs yields each input's records, input after input. |
| `Scheme.EmptyInputAddsNothing` | src/core/cascading/tuple/TupleEntrySchemeIterator.java:137-142 | An input with no records, wherever it sits, changes nothing in the chained records. |
| `IteratorProperties.HasNextCalls` | src/core/cascading/tuple/TupleEntrySchemeIterator.java:107-116 | `hasNext` only extends the trace with sourcing calls and keeps every `source` call after a reset. |
| `IteratorProperties.NextCalls` | src/core/cascading/tuple/TupleEntrySchemeIterator.java:163-168 | `next` only extends the trace with sourcing calls and keeps every `source` call after a reset. |
| `IteratorProperties.RunCalls` | src/core/cascading/tuple/TupleEntrySchemeIterator.java:104-184 | Whatever a client calls before `close`, the trace is only extended with sourcing calls. |
| `IteratorProperties.LifecycleBeforeClose` | src/core/cascading/tuple/TupleEntrySchemeIterator.java:79-86 | Before `close`: one prepare (after binding the first input) when there was an input and none otherwise. No cleanup, no closing, and every `source` call after a reset. |
| `IteratorProperties.PrepareAndCleanupBracketTheIterator` | src/core/cascading/tuple/TupleEntrySchemeIterator.java:79-197 | Over a non-empty input sequence, for every client call sequence: the full trace up to `close` has one prepare right after the first bind and one cleanup right before the one closing. Every `source` call sits in between, after a reset. |
| `IteratorProperties.CompleteIsInert` | src/core/cascading/tuple/TupleEntrySchemeIterator.java:160-161 | A complete iterator with no pending error is left unchanged by every call. `hasNext` answers false and `next` fails with "no next element". |
| `IteratorProperties.CompleteIsForever` | src/core/cascading/tuple/TupleEntrySchemeIterator.java:107-108 | Once complete, always complete: `hasNext` answers false after any calls. |
| `IteratorProperties.EmptyInputSequence` | src/core/cascading/tuple/TupleEntrySchemeIterator.java:73-77 | Over no input: nothing is ever prepared or sourced, and `hasNext` is false. `close` skips cleanup, still closes the input sequence, and fails only if that closing does. |
| `IteratorProperties.LookaheadIsStable` | src/core/cascading/tuple/TupleEntrySchemeIterator.java:110-111 | After a `hasNext` that answered true with no error, a second `hasNext` answers true, calls nothing and changes nothing. |
| `IteratorProperties.HasNextKeepsYield` | src/core/cascading/tuple/TupleEntrySchemeIterator.java:126-129 | With an error-free scheme, reading ahead neither loses nor duplicates a record. Answering true means a record is buffered, and false means nothing is left. |
| `IteratorProperties.NextTakesBuffered` | src/core/cascading/tuple/TupleEntrySchemeIterator.java:165-166 | `next` hands out exactly the buffered record, which leaves the yield. |
| `IteratorProperties.Drain` | src/core/cascading/tuple/TupleEntrySchemeIterator.java:104-178 | Alternating `hasNext` and `next` with an error-free scheme yields exactly the records still to come, in order. The iterator ends complete and the trace only grows by sourcing calls. |
| `IteratorProperties.ReadAll` | src/core/cascading/tuple/TupleEntrySchemeIterator.java:62-198 | Build, drain, close: construction fails iff there is an input and prepare throws. Otherwise, with an error-free scheme, it reads each input's records in order. It prepares and cleans up once over inputs and never over none, and closes the input sequence once, last. `close` fails iff closing the inputs or (with an input) cleanup fails. |
| `IteratorProperties.ReadErrorIsDeferred` | src/core/cascading/tuple/TupleEntrySchemeIterator.java:113-158 | A read error met by `hasNext` makes `hasNext` answer true, with the iterator incomplete, nothing buffered and that error pending; the next `next` raises exactly that error, clears it without calling anything, and leaves the remaining answers after it; the `next` after that does not raise it again. |
| `IteratorProperties.RetryAfterReadError` | src/core/cascading/tuple/TupleEntrySchemeIterator.java:132-141 | After a deferred error has been raised, the next `hasNext` calls `source` again, on the input whose read failed. |
| `IteratorProperties.HasNextSources` | src/core/cascading/tuple/TupleEntrySchemeIterator.java:134-141 | A `hasNext` with nothing buffered first sources the input bound at its start and last sources the input it leaves bound. |
| `IteratorProperties.NextThenHasNextReads` | src/core/cascading/tuple/TupleEntrySchemeIterator.java:174-177 | Every `next` past the completeness check leaves nothing buffered, so the following `hasNext` calls `source`. |
| `IteratorProperties.NoClashPreserved` | src/core/cascading/tuple/TupleEntrySchemeIterator.java:117-124 | "Pending error ⇒ nothing buffered" is kept by every call, except a `hasNext` made while an error is pending on an incomplete iterator. |
| `IteratorProperties.SecondHasNextBuffersBesidePendingError` | src/core/cascading/tuple/TupleEntrySchemeIterator.java:107-116 | On inputs `[[Err(7), Rec([1])]]`, two `hasNext` calls leave a record buffered beside the pending error. `next` raises the error, then the following `next` returns the record. |
| `IteratorProperties.PendingErrorOutlivesExhaustion` | src/core/cascading/tuple/TupleEntrySchemeIterator.java:150-161 | On inputs `[[Err(7)]]`, a second `hasNext` completes the iterator, yet the next `next` still raises the pending error before reporting "no next element". |
| `IteratorProperties.RemoveIsInert` | src/core/cascading/tuple/TupleEntrySchemeIterator.java:180-184 | A `remove` anywhere among a client's calls changes nothing that follows. |
| `IteratorProperties.DefaultIdentifierIsIdempotent` | src/core/cascading/tuple/TupleEntrySchemeIterator.java:119-120 | Re-applying the default in `hasNext` changes nothing. The identifier is `'unknown'` iff none, an empty one, or `'unknown'` was given. |

## Left out

- `LocalStateCache` and `StepStateCache` (Hadoop utilities) are not part of this model. They are file-system and serialization plumbing.
- `StepStats` is not part of this model. It is a `toString` wrapper.
- Scheme decoding is not modelled. The internals of `Scheme.source`, `sourcePrepare` and `sourceCleanup` are replaced by the oracle's scripts and failure fields.
- `Tuple`, `TupleEntry` and `Tuples.asModifiable` are not modelled. A record is a sequence of values, and the reset to modifiable is a trace event. The Java returns the shared, reused `TupleEntry`; the model returns the record's value, so aliasing between successive results is not modelled.
- `wrapInput` is taken as the identity, its default.
- `FlowProcess` and the field schema play no role and are left out.
- The texts of exception messages are left out. Failures are datatype constructors carrying the identifier and the cause.
- Runtime exceptions from `source` that are not I/O failures are not modelled separately. `hasNext` and `next` wrap every exception alike, so the model folds them into the script's `Err` outcomes.
- Exceptions from the input sequence's own `hasNext`/`next` while `getNext` moves to the next input are not modelled as such. Folding one into an `Err` at the head of the next input's script keeps the order of records and errors a client sees. It does not keep the trace: in the Java the exhausted input stays bound, and the retry calls `source` on it again, with no `Bind` before the error.
- `SchemeIterator.Construct`: construction fails only when `sourcePrepare` fails. An exception thrown by the input sequence's `hasNext` or `next` in the constructor escapes unwrapped and also fails construction; this is not modelled. Only an `IOException` from `sourcePrepare` is wrapped; the model treats every prepare failure as wrapped. A failed construction returns no iterator, so the model does not show that the already-taken input sequence is then left unclosed.
- A `source` that fails on every call is outside the oracle. Scripts are finite and each `Err` is consumed. In the Java such a source would make a `hasNext`/`next` client loop run forever, since a read error never completes the iterator.
- `IteratorProperties.ReadAll`, `IteratorProperties.Drain`, `IteratorProperties.HasNextKeepsYield`: these require an error-free scheme. With read errors, the records still come in order, but the raised errors interleave with them as stated by `HasNextReadsAhead` and `ReadErrorIsDeferred`.
