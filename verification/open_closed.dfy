/**
 * The open-closed example: `saveRecord(record, save, beforeSave, afterSave)`.
 *
 * The library function is closed for modification but open for extension:
 * a caller may wrap the save in `beforeSave` / `afterSave` hooks and may
 * replace the built-in `defaultSave` with its own `save`.  The hooks' own
 * effects are opaque, so the model records only WHICH function is invoked,
 * in WHAT order and ON WHICH record: running `saveRecord` yields a trace of
 * calls.  A hook argument is an `Option<H>`, where `H` identifies the
 * caller's function value; `R` is the (opaque) record.
 */
module OpenClosed {
  import opened Wrappers

  /** One invocation point of `saveRecord`. */
  datatype Step<H> =
    | BeforeSave(hook: H)
    | Save(hook: H)        // the caller's replacement for the default save
    | DefaultSave          // the built-in inner `defaultSave`
    | AfterSave(hook: H)
  {
    /** The primary step: the save proper, custom or default. */
    predicate IsPrimary() {
      Save? || DefaultSave?
    }

    /** Position of the step in the fixed before / primary / after order. */
    function Phase(): (p: nat) {
      match this
      case BeforeSave(_) => 0
      case Save(_) => 1
      case DefaultSave => 1
      case AfterSave(_) => 2
    }
  }

  /** A step together with the argument it was invoked with. */
  datatype Call<R, H> = Call(step: Step<H>, record: R)

  /** The primary step selected by the `save` argument. */
  function PrimaryStep<H>(save: Option<H>): (s: Step<H>)
  {
    match save
    case Some(s) => Save(s)
    case None => DefaultSave
  }

  /**
   * The calls one `saveRecord(record, save, beforeSave, afterSave)` makes,
   * in the order it makes them, when no step throws.
   */
  function SaveRecord<R, H>(record: R, save: Option<H>, beforeSave: Option<H>, afterSave: Option<H>)
    : (trace: seq<Call<R, H>>)
    // every step is handed the caller's record, never another one
    ensures forall i :: 0 <= i < |trace| ==> trace[i].record == record
    // steps run strictly in before / primary / after order
    ensures forall i, j :: 0 <= i < j < |trace| ==> trace[i].step.Phase() < trace[j].step.Phase()
    // the before hook runs first when supplied, and not at all otherwise
    ensures beforeSave.Some? ==> |trace| > 0 && trace[0].step == BeforeSave(beforeSave.value)
    ensures forall i :: 0 <= i < |trace| && trace[i].step.BeforeSave? ==> beforeSave == Some(trace[i].step.hook)
    // exactly one primary step runs: the caller's save if given, else the default
    ensures exists i :: 0 <= i < |trace| && trace[i].step == PrimaryStep(save)
    ensures forall i, j :: 0 <= i < |trace| && 0 <= j < |trace| && trace[i].step.IsPrimary() && trace[j].step.IsPrimary() ==> i == j
    // the after hook runs last when supplied, and not at all otherwise
    ensures afterSave.Some? ==> |trace| > 0 && trace[|trace| - 1].step == AfterSave(afterSave.value)
    ensures forall i :: 0 <= i < |trace| && trace[i].step.AfterSave? ==> afterSave == Some(trace[i].step.hook)
  {
    var before := match beforeSave case Some(b) => [Call(BeforeSave(b), record)] case None => [];
    var after := match afterSave case Some(a) => [Call(AfterSave(a), record)] case None => [];
    var trace := before + [Call(PrimaryStep(save), record)] + after;
    assert trace[|before|].step == PrimaryStep(save);
    trace
  }

  /** With no hooks at all, only the built-in default save runs. */
  lemma NoHooksRunsDefault<R, H>(record: R)
    ensures SaveRecord<R, H>(record, None, None, None) == [Call(DefaultSave, record)]
  {
  }

  /** The sample call `saveRecord(myRecord, customSave)`: only the custom save runs. */
  lemma CustomSaveOnly<R, H>(myRecord: R, customSave: H)
    ensures SaveRecord(myRecord, Some(customSave), None, None) == [Call(Save(customSave), myRecord)]
  {
  }

  /** Whether a step is a primary one, the two primaries never both run. */
  lemma NeverBothPrimaries<R, H>(record: R, save: Option<H>, beforeSave: Option<H>, afterSave: Option<H>)
    ensures var trace := SaveRecord(record, save, beforeSave, afterSave);
      (exists i :: 0 <= i < |trace| && trace[i].step.DefaultSave?) <==> save.None?
    ensures var trace := SaveRecord(record, save, beforeSave, afterSave);
      (exists i :: 0 <= i < |trace| && trace[i].step.Save?) <==> save.Some?
  {
    var trace := SaveRecord(record, save, beforeSave, afterSave);
    var k :| 0 <= k < |trace| && trace[k].step == PrimaryStep(save);
    assert trace[k].step.IsPrimary();
  }

  /**
   * How a run ended: every planned call completed, or the last call listed
   * threw and the exception left `saveRecord` (there is no try/catch).
   */
  datatype Outcome<R, H> = Completed(calls: seq<Call<R, H>>) | Threw(calls: seq<Call<R, H>>)

  /**
   * Performs the planned calls in order; `throws` says which calls raise.
   * The first raising call ends the run and nothing after it is invoked.
   */
  function RunCalls<R, H>(planned: seq<Call<R, H>>, throws: Call<R, H> -> bool): (out: Outcome<R, H>)
    ensures out.calls <= planned
    ensures out.Completed? <==> forall i :: 0 <= i < |planned| ==> !throws(planned[i])
    ensures out.Completed? ==> out.calls == planned
    ensures out.Threw? ==> |out.calls| > 0 && throws(out.calls[|out.calls| - 1])
    ensures forall i :: 0 <= i < |out.calls| - 1 ==> !throws(out.calls[i])
    decreases |planned|
  {
    if planned == [] then Completed([])
    else if throws(planned[0]) then Threw([planned[0]])
    else
      match RunCalls(planned[1..], throws)
      case Completed(rest) => Completed([planned[0]] + rest)
      case Threw(rest) => Threw([planned[0]] + rest)
  }

  /** `saveRecord` when some of the invoked functions may throw. */
  function SaveRecordThrowing<R, H>(record: R, save: Option<H>, beforeSave: Option<H>, afterSave: Option<H>,
                                    throws: Call<R, H> -> bool): (out: Outcome<R, H>)
    ensures var trace := SaveRecord(record, save, beforeSave, afterSave);
      && out.calls <= trace
      && (out.Completed? <==> forall i :: 0 <= i < |trace| ==> !throws(trace[i]))
      && (out.Completed? ==> out.calls == trace)
      && (out.Threw? ==> |out.calls| > 0 && throws(out.calls[|out.calls| - 1]))
    // every call before the last one returned normally: the run stops at the first throw
    ensures forall i :: 0 <= i < |out.calls| - 1 ==> !throws(out.calls[i])
    // whatever runs is handed the caller's record
    ensures forall i :: 0 <= i < |out.calls| ==> out.calls[i].record == record
  {
    RunCalls(SaveRecord(record, save, beforeSave, afterSave), throws)
  }

  /** A throwing before hook aborts the save: nothing else is invoked. */
  lemma BeforeThrowAborts<R, H>(record: R, save: Option<H>, b: H, afterSave: Option<H>, throws: Call<R, H> -> bool)
    requires throws(Call(BeforeSave(b), record))
    ensures SaveRecordThrowing(record, save, Some(b), afterSave, throws) == Threw([Call(BeforeSave(b), record)])
  {
  }

  /**
   * A throwing primary step (custom or default) skips the after hook, once
   * the before hook, if any, has returned normally.
   */
  lemma PrimaryThrowSkipsAfter<R, H>(record: R, save: Option<H>, beforeSave: Option<H>, afterSave: Option<H>,
                                     throws: Call<R, H> -> bool)
    requires beforeSave.Some? ==> !throws(Call(BeforeSave(beforeSave.value), record))
    requires throws(Call(PrimaryStep(save), record))
    ensures var out := SaveRecordThrowing(record, save, beforeSave, afterSave, throws);
      out.Threw? && out.calls[|out.calls| - 1] == Call(PrimaryStep(save), record)
      && forall i :: 0 <= i < |out.calls| ==> !out.calls[i].step.AfterSave?
  {
  }

  /** When none of the calls it makes throws, the run is exactly the trace of `SaveRecord`. */
  lemma NoThrowCompletes<R, H>(record: R, save: Option<H>, beforeSave: Option<H>, afterSave: Option<H>,
                               throws: Call<R, H> -> bool)
    requires var trace := SaveRecord(record, save, beforeSave, afterSave);
      forall i :: 0 <= i < |trace| ==> !throws(trace[i])
    ensures SaveRecordThrowing(record, save, beforeSave, afterSave, throws)
         == Completed(SaveRecord(record, save, beforeSave, afterSave))
  {
  }
}
