/**
 * `batchConvert` of `batch.ts`: the inputs are converted one after
 * another; each is reported to the progress observer before and after its
 * conversion, each outcome is recorded as a result item, and with
 * `stopOnError` the first failure is rethrown as soon as it is reported.
 *
 * The single-item converter is a parameter (the library passes its Node
 * `convertToWebP`; `NodeConverter` is that instance). The observer's calls
 * are modelled as the log of progress records it receives.
 */
module Batch {
  import opened Common
  import opened Values
  import opened Errors
  import opened Types
  import opened Validation
  import opened FileUtil
  import Converter

  /** One conversion: resolves with a result or rejects with whatever was thrown. */
  type SingleConverter = (NodeInput, Value) -> Result<ConvertResult, Thrown>

  /** How the batch call ends: it resolves with the items, or rejects with the rethrown failure. */
  datatype BatchOutcome = Returned(items: seq<BatchResultItem>) | Rethrown(thrown: Thrown)

  /** An outcome together with the progress records the observer received. */
  datatype BatchRun = BatchRun(outcome: BatchOutcome, events: seq<BatchProgress>)

  const BatchOnlyKeys: set<string> := {"onProgress", "stopOnError"}

  /** `const { onProgress, stopOnError = false, ...convertOptions } = options ?? {}`: what the converter receives. */
  function ConvertOptionsOf(options: Value): (m: map<string, Value>)
    requires Nullish(options) || options.Obj?
    ensures forall k :: k in m <==> k in OwnProps(options) && k !in BatchOnlyKeys
    ensures forall k :: k in m ==> m[k] == OwnProps(options)[k]
  {
    OwnProps(options) - BatchOnlyKeys
  }

  /** `if (stopOnError)`, with `stopOnError` defaulting to `false`. */
  predicate StopOnError(options: Value)
    requires Nullish(options) || options.Obj?
  {
    var stop := Get(OwnProps(options), "stopOnError");
    Truthy(if stop.Undef? then Bool(false) else stop)
  }

  /** `onProgress?.(…)` calls the observer unless it is `null` or `undefined`. */
  predicate HasObserver(options: Value)
    requires Nullish(options) || options.Obj?
  {
    !Nullish(Get(OwnProps(options), "onProgress"))
  }

  /** The declared type of `onProgress`: absent, or a function. */
  predicate ObserverCallable(options: Value)
    requires Nullish(options) || options.Obj?
  {
    Nullish(Get(OwnProps(options), "onProgress")) || Get(OwnProps(options), "onProgress") == Other(FunctionValue)
  }

  /** The `file` reported for the input at position `index`. */
  function ItemFile(input: NodeInput, index: nat): (file: string)
    ensures input.PathInput? ==> file == input.path
    ensures !input.PathInput? ==> file == "buffer-" + NatToString(index)
  {
    if input.PathInput? then input.path else "buffer-" + NatToString(index)
  }

  /** The item pushed for one outcome; a thrown non-`Error` is wrapped as `new Error(String(v))`. */
  function ItemFor(file: string, outcome: Result<ConvertResult, Thrown>): (item: BatchResultItem)
    ensures item.file == file
    ensures item.success <==> outcome.Success?
    ensures outcome.Success? ==> item.result == Some(outcome.value) && item.error.None?
    ensures outcome.Failure? ==> item.result.None? && item.error == Some(AsError(outcome.error))
  {
    match outcome
    case Success(result) => BatchResultItem(file, true, Some(result), None)
    case Failure(thrown) => BatchResultItem(file, false, None, Some(AsError(thrown)))
  }

  // ---------------------------------------------------------------------------
  // The specification: what the batch does, stated over all outcomes at once
  // ---------------------------------------------------------------------------

  /** What the converter gives for each input, in input order. */
  function Outcomes(inputs: seq<NodeInput>, convert: SingleConverter, convertOptions: map<string, Value>): (outs: seq<Result<ConvertResult, Thrown>>)
    ensures |outs| == |inputs|
    ensures forall i :: 0 <= i < |inputs| ==> outs[i] == convert(inputs[i], Obj(convertOptions))
  {
    seq(|inputs|, i requires 0 <= i < |inputs| => convert(inputs[i], Obj(convertOptions)))
  }

  /** The items of the first `n` inputs. */
  function Items(inputs: seq<NodeInput>, outs: seq<Result<ConvertResult, Thrown>>, n: nat): (items: seq<BatchResultItem>)
    requires |outs| == |inputs| && n <= |inputs|
    ensures |items| == n
    ensures forall i :: 0 <= i < n ==> items[i] == ItemFor(ItemFile(inputs[i], i), outs[i])
  {
    seq(n, i requires 0 <= i < n => ItemFor(ItemFile(inputs[i], i), outs[i]))
  }


  /** The two records one input produces: `processing` at `index`, then the verdict at `index + 1`. */
  function StepEvents(index: nat, total: nat, file: string, succeeded: bool): seq<BatchProgress> {
    [BatchProgress(index, total, file, Processing),
     BatchProgress(index + 1, total, file, if succeeded then Completed else Failed)]
  }

  /** The records the observer receives for the first `n` inputs. */
  function Events(inputs: seq<NodeInput>, outs: seq<Result<ConvertResult, Thrown>>, n: nat): seq<BatchProgress>
    requires |outs| == |inputs| && n <= |inputs|
  {
    if n == 0 then []
    else Events(inputs, outs, n - 1) + StepEvents(n - 1, |inputs|, ItemFile(inputs[n - 1], n - 1), outs[n - 1].Success?)
  }

  /** The position of the first failed outcome, if any. */
  function FirstFailure(outs: seq<Result<ConvertResult, Thrown>>): (r: Option<nat>)
    ensures r.None? <==> forall i :: 0 <= i < |outs| ==> outs[i].Success?
    ensures r.Some? ==> r.value < |outs| && outs[r.value].Failure?
    ensures r.Some? ==> forall j :: 0 <= j < r.value ==> outs[j].Success?
  {
    if outs == [] then None
    else if outs[0].Failure? then Some(0)
    else
      var rest := FirstFailure(outs[1..]);
      assert forall i :: 1 <= i < |outs| ==> outs[i] == outs[1..][i - 1];
      if rest.None? then None else Some(rest.value + 1)
  }

  /** The whole batch: where it stops, what it returns or rethrows, and what the observer saw. */
  function BatchSpec(inputs: seq<NodeInput>, options: Value, convert: SingleConverter): BatchRun
    requires Nullish(options) || options.Obj?
  {
    var outs := Outcomes(inputs, convert, ConvertOptionsOf(options));
    var failure := FirstFailure(outs);
    if StopOnError(options) && failure.Some? then
      var k := failure.value;
      BatchRun(Rethrown(outs[k].error), if HasObserver(options) then Events(inputs, outs, k + 1) else [])
    else
      BatchRun(Returned(Items(inputs, outs, |inputs|)), if HasObserver(options) then Events(inputs, outs, |inputs|) else [])
  }

  // ---------------------------------------------------------------------------
  // The loop
  // ---------------------------------------------------------------------------

  /** Each input adds its item and its two records. */
  lemma LoopStep(inputs: seq<NodeInput>, outs: seq<Result<ConvertResult, Thrown>>, n: nat)
    requires |outs| == |inputs| && n < |inputs|
    ensures Items(inputs, outs, n + 1) == Items(inputs, outs, n) + [ItemFor(ItemFile(inputs[n], n), outs[n])]
    ensures Events(inputs, outs, n + 1)
      == Events(inputs, outs, n) + StepEvents(n, |inputs|, ItemFile(inputs[n], n), outs[n].Success?)
  {
  }

  /** `batchConvert`. */
  method BatchConvert(inputs: seq<NodeInput>, options: Value, convert: SingleConverter)
    returns (outcome: BatchOutcome, events: seq<BatchProgress>)
    requires Nullish(options) || options.Obj?
    requires ObserverCallable(options)
    ensures BatchRun(outcome, events) == BatchSpec(inputs, options, convert)
  {
    var convertOptions := ConvertOptionsOf(options);
    var stopOnError := StopOnError(options);
    var observed := HasObserver(options);
    var total := |inputs|;
    var current := 0;
    var results: seq<BatchResultItem> := [];
    events := [];
    ghost var outs := Outcomes(inputs, convert, convertOptions);

    for index := 0 to |inputs|
      invariant current == index
      invariant results == Items(inputs, outs, index)
      invariant events == if observed then Events(inputs, outs, index) else []
      invariant stopOnError ==> forall j :: 0 <= j < index ==> outs[j].Success?
    {
      var input := inputs[index];
      var file := if input.PathInput? then input.path else "buffer-" + NatToString(current);
      assert file == ItemFile(input, index);
      ghost var before := events;
      if observed {
        events := events + [BatchProgress(current, total, file, Processing)];
      }
      var attempt := convert(input, Obj(convertOptions));
      assert attempt == outs[index];
      LoopStep(inputs, outs, index);
      current := current + 1;
      if attempt.Success? {
        if observed {
          events := events + [BatchProgress(current, total, file, Completed)];
          AppendStep(before, index, total, file, true);
        }
        results := results + [ItemFor(file, attempt)];
      } else {
        if observed {
          events := events + [BatchProgress(current, total, file, Failed)];
          AppendStep(before, index, total, file, false);
        }
        if stopOnError {
          SpecWhenRethrown(inputs, options, convert, index);
          outcome := Rethrown(attempt.error);
          return;
        }
        results := results + [ItemFor(file, attempt)];
      }
    }
    SpecWhenReturned(inputs, options, convert);
    outcome := Returned(results);
  }

  /** The two records appended one after the other are the records of one step. */
  lemma AppendStep(before: seq<BatchProgress>, index: nat, total: nat, file: string, succeeded: bool)
    ensures before + [BatchProgress(index, total, file, Processing)]
      + [BatchProgress(index + 1, total, file, if succeeded then Completed else Failed)]
      == before + StepEvents(index, total, file, succeeded)
  {
  }

  /** The specification's verdict when the loop runs to the end. */
  lemma SpecWhenReturned(inputs: seq<NodeInput>, options: Value, convert: SingleConverter)
    requires Nullish(options) || options.Obj?
    requires var outs := Outcomes(inputs, convert, ConvertOptionsOf(options));
      StopOnError(options) ==> forall j :: 0 <= j < |inputs| ==> outs[j].Success?
    ensures var outs := Outcomes(inputs, convert, ConvertOptionsOf(options));
      BatchSpec(inputs, options, convert)
        == BatchRun(Returned(Items(inputs, outs, |inputs|)), if HasObserver(options) then Events(inputs, outs, |inputs|) else [])
  {
  }

  /** The specification's verdict when failure `k` is rethrown. */
  lemma SpecWhenRethrown(inputs: seq<NodeInput>, options: Value, convert: SingleConverter, k: nat)
    requires Nullish(options) || options.Obj?
    requires StopOnError(options)
    requires var outs := Outcomes(inputs, convert, ConvertOptionsOf(options));
      k < |inputs| && outs[k].Failure? && forall j :: 0 <= j < k ==> outs[j].Success?
    ensures var outs := Outcomes(inputs, convert, ConvertOptionsOf(options));
      BatchSpec(inputs, options, convert)
        == BatchRun(Rethrown(outs[k].error), if HasObserver(options) then Events(inputs, outs, k + 1) else [])
  {
    var outs := Outcomes(inputs, convert, ConvertOptionsOf(options));
    assert FirstFailure(outs) == Some(k);
  }

  // ---------------------------------------------------------------------------
  // Properties of the specification
  // ---------------------------------------------------------------------------

  /**
   * The k-th record belongs to input k / 2: even records say `processing`,
   * odd ones the verdict; `current` is (k + 1) / 2 and `total` the number
   * of inputs.
   */
  lemma {:induction false} EventsShape(inputs: seq<NodeInput>, outs: seq<Result<ConvertResult, Thrown>>, n: nat)
    requires |outs| == |inputs| && n <= |inputs|
    ensures |Events(inputs, outs, n)| == 2 * n
    ensures forall k :: 0 <= k < 2 * n ==> EventMatches(inputs, outs, k, Events(inputs, outs, n)[k])
  {
    EventsLength(inputs, outs, n);
    forall k | 0 <= k < 2 * n
      ensures EventMatches(inputs, outs, k, Events(inputs, outs, n)[k])
    {
      EventAt(inputs, outs, n, k);
    }
  }

  /** Two records per input. */
  lemma {:induction false} EventsLength(inputs: seq<NodeInput>, outs: seq<Result<ConvertResult, Thrown>>, n: nat)
    requires |outs| == |inputs| && n <= |inputs|
    ensures |Events(inputs, outs, n)| == 2 * n
  {
    if n > 0 {
      EventsLength(inputs, outs, n - 1);
    }
  }

  /** The record at position `k`, by induction on the number of inputs reached. */
  lemma {:induction false} EventAt(inputs: seq<NodeInput>, outs: seq<Result<ConvertResult, Thrown>>, n: nat, k: nat)
    requires |outs| == |inputs| && n <= |inputs| && k < 2 * n
    ensures |Events(inputs, outs, n)| == 2 * n
    ensures EventMatches(inputs, outs, k, Events(inputs, outs, n)[k])
  {
    EventsLength(inputs, outs, n);
    EventsLength(inputs, outs, n - 1);
    var before := Events(inputs, outs, n - 1);
    var step := StepEvents(n - 1, |inputs|, ItemFile(inputs[n - 1], n - 1), outs[n - 1].Success?);
    assert Events(inputs, outs, n) == before + step;
    if k < 2 * (n - 1) {
      EventAt(inputs, outs, n - 1, k);
      assert Events(inputs, outs, n)[k] == before[k];
    } else {
      assert Events(inputs, outs, n)[k] == step[k - 2 * (n - 1)];
      StepEventsMatch(inputs, outs, n - 1, k);
    }
  }

  /** The record at position `k` of the event sequence: which input, which step and which status. */
  predicate EventMatches(inputs: seq<NodeInput>, outs: seq<Result<ConvertResult, Thrown>>, k: nat, e: BatchProgress)
    requires |outs| == |inputs| && k / 2 < |inputs|
  {
    && e.current == (k + 1) / 2
    && e.total == |inputs|
    && e.file == ItemFile(inputs[k / 2], k / 2)
    && e.status == (if k % 2 == 0 then Processing else if outs[k / 2].Success? then Completed else Failed)
  }

  /** The two records of input `i` sit at positions `2 * i` and `2 * i + 1`. */
  lemma StepEventsMatch(inputs: seq<NodeInput>, outs: seq<Result<ConvertResult, Thrown>>, i: nat, k: nat)
    requires |outs| == |inputs| && i < |inputs| && 2 * i <= k < 2 * i + 2
    ensures EventMatches(inputs, outs, k,
      StepEvents(i, |inputs|, ItemFile(inputs[i], i), outs[i].Success?)[k - 2 * i])
  {
    if k == 2 * i {
      assert k / 2 == i && (k + 1) / 2 == i && k % 2 == 0;
    } else {
      assert k / 2 == i && (k + 1) / 2 == i + 1 && k % 2 == 1;
    }
  }

  /** The observer never sees `pending`, `current` never decreases, and `total` is always the input count. */
  lemma EventsMonotoneNeverPending(inputs: seq<NodeInput>, outs: seq<Result<ConvertResult, Thrown>>, n: nat)
    requires |outs| == |inputs| && n <= |inputs|
    ensures forall k :: 0 <= k < |Events(inputs, outs, n)| ==>
      Events(inputs, outs, n)[k].status != Pending && Events(inputs, outs, n)[k].total == |inputs|
      && Events(inputs, outs, n)[k].current <= n
    ensures forall j, k :: 0 <= j <= k < |Events(inputs, outs, n)| ==>
      Events(inputs, outs, n)[j].current <= Events(inputs, outs, n)[k].current
  {
    EventsShape(inputs, outs, n);
  }

  /** Without `stopOnError` every input is converted and gets exactly one item, in input order. */
  lemma CollectAllOneItemPerInput(inputs: seq<NodeInput>, options: Value, convert: SingleConverter)
    requires Nullish(options) || options.Obj?
    requires !StopOnError(options)
    ensures var run := BatchSpec(inputs, options, convert);
      var outs := Outcomes(inputs, convert, ConvertOptionsOf(options));
      && run.outcome.Returned?
      && |run.outcome.items| == |inputs|
      && (forall i :: 0 <= i < |inputs| ==>
            run.outcome.items[i].file == ItemFile(inputs[i], i)
            && (run.outcome.items[i].success <==> outs[i].Success?))
      && (HasObserver(options) ==> |run.events| == 2 * |inputs|)
      && (!HasObserver(options) ==> run.events == [])
  {
    EventsShape(inputs, Outcomes(inputs, convert, ConvertOptionsOf(options)), |inputs|);
  }

  /**
   * With `stopOnError` the first failure is rethrown unchanged, right after
   * its own `failed` record; no later input is reported.
   */
  lemma FailFastRethrowsFirstFailure(inputs: seq<NodeInput>, options: Value, convert: SingleConverter, k: nat)
    requires Nullish(options) || options.Obj?
    requires StopOnError(options) && HasObserver(options)
    requires k < |inputs| && convert(inputs[k], Obj(ConvertOptionsOf(options))).Failure?
    requires forall j :: 0 <= j < k ==> convert(inputs[j], Obj(ConvertOptionsOf(options))).Success?
    ensures var run := BatchSpec(inputs, options, convert);
      && run.outcome == Rethrown(convert(inputs[k], Obj(ConvertOptionsOf(options))).error)
      && |run.events| == 2 * (k + 1)
      && run.events[2 * k + 1] == BatchProgress(k + 1, |inputs|, ItemFile(inputs[k], k), Failed)
      && forall e :: e in run.events ==> e.current <= k + 1
  {
    var outs := Outcomes(inputs, convert, ConvertOptionsOf(options));
    assert FirstFailure(outs) == Some(k);
    EventsShape(inputs, outs, k + 1);
    EventsMonotoneNeverPending(inputs, outs, k + 1);
  }

  /** With `stopOnError` but no failure, the batch returns all items as usual. */
  lemma StopOnErrorWithoutFailure(inputs: seq<NodeInput>, options: Value, convert: SingleConverter)
    requires Nullish(options) || options.Obj?
    requires forall i :: 0 <= i < |inputs| ==> convert(inputs[i], Obj(ConvertOptionsOf(options))).Success?
    ensures BatchSpec(inputs, options, convert).outcome.Returned?
    ensures forall item :: item in BatchSpec(inputs, options, convert).outcome.items ==> item.success
  {
  }

  /** An empty batch returns no items and reports nothing. */
  lemma EmptyBatch(options: Value, convert: SingleConverter)
    requires Nullish(options) || options.Obj?
    ensures BatchSpec([], options, convert) == BatchRun(Returned([]), [])
  {
  }

  /** The names given to non-path inputs are pairwise distinct. */
  lemma BufferNamesDistinct(a: NodeInput, i: nat, b: NodeInput, j: nat)
    requires !a.PathInput? && !b.PathInput? && i != j
    ensures ItemFile(a, i) != ItemFile(b, j)
  {
    var prefix := "buffer-";
    if ItemFile(a, i) == ItemFile(b, j) {
      assert (prefix + NatToString(i))[|prefix|..] == NatToString(i);
      assert (prefix + NatToString(j))[|prefix|..] == NatToString(j);
      NatToStringInjective(i, j);
    }
  }

  /** The names of the three-input example: a path keeps its own name, buffers are numbered by position. */
  lemma MixedInputNames(p: string, x: seq<byte>, y: seq<byte>)
    ensures ItemFile(PathInput(p), 0) == p
    ensures ItemFile(BufferInput(x), 1) == "buffer-1"
    ensures ItemFile(BufferInput(y), 2) == "buffer-2"
  {
  }

  /** The batch-only keys are invisible to option validation; any other key, `concurrency` included, is passed on. */
  lemma BatchKeysInvisibleToValidation(options: Value)
    requires options.Obj?
    ensures ValidateConvertOptions(Obj(ConvertOptionsOf(options))) == ValidateConvertOptions(options)
    ensures Get(ConvertOptionsOf(options), "concurrency") == Get(options.fields, "concurrency")
  {
    var m := ConvertOptionsOf(options);
    forall f | f in ConvertFields
      ensures Get(m, f) == Get(options.fields, f)
    {
    }
    SameFieldsSameVerdict(m, options.fields);
    assert "concurrency" !in BatchOnlyKeys;
  }

  // ---------------------------------------------------------------------------
  // The library's own converter
  // ---------------------------------------------------------------------------

  /** `convertToWebP` of the Node entry point as a batch converter: it throws only library errors. */
  function NodeConverter(fs: FileSystem, encode: Converter.Encoder): SingleConverter {
    (input: NodeInput, options: Value) =>
      match Converter.ConvertToWebP(input, options, fs, encode)
      case Success(result) => Success(result)
      case Failure(e) => Failure(ThrownError(e))
  }

  /** Invalid options fail every item of a collect-all batch, each with the same validation error. */
  lemma InvalidOptionsFailEveryItem(inputs: seq<NodeInput>, options: Value, fs: FileSystem, encode: Converter.Encoder)
    requires Nullish(options) || options.Obj?
    requires !StopOnError(options)
    requires ValidateConvertOptions(Obj(ConvertOptionsOf(options))).Some?
    ensures var run := BatchSpec(inputs, options, NodeConverter(fs, encode));
      && run.outcome.Returned?
      && forall item :: item in run.outcome.items ==>
           !item.success && item.error == ValidateConvertOptions(Obj(ConvertOptionsOf(options)))
  {
    var convertOptions := ConvertOptionsOf(options);
    var e := ValidateConvertOptions(Obj(convertOptions)).value;
    forall i | 0 <= i < |inputs|
      ensures NodeConverter(fs, encode)(inputs[i], Obj(convertOptions)) == Failure(ThrownError(e))
    {
      assert Converter.ConvertToWebP(inputs[i], Obj(convertOptions), fs, encode) == Failure(e);
    }
  }
}
