/** Which argument each replacement field of a format string refers to. */
module ArgumentIds {
  const PTRDIFF_MAX: int := 0x7FFF_FFFF_FFFF_FFFF

  /** A field that leaves its argument to the count of fields, or names it. */
  datatype Field = Automatic | Manual(id: nat)

  /** OutOfRange stops compilation; FormatError is thrown. */
  datatype Outcome = Id(id: nat) | FormatError | OutOfRange

  /** Parsing happens with the number of arguments known while compiling, and again while running. */
  datatype Phase = Compiling(numArgs: nat) | Running
  {
    predicate Rejects(id: nat)
    {
      Compiling? && id >= numArgs
    }
  }

  /** What one field does: above zero the counter means automatic, below zero manual, and zero undecided. */
  function Step(phase: Phase, next: int, f: Field): (Outcome, int)
  {
    match f
    case Automatic =>
      if next < 0 then (FormatError, next)
      else if phase.Rejects(next) then (OutOfRange, next)
      else (Id(next), next + 1)
    case Manual(id) =>
      if phase.Rejects(id) then (OutOfRange, next)
      else if next > 0 then (FormatError, next)
      else (Id(id), -1)
  }

  class ParseContext {
    const phase: Phase
    var nextArgId: int

    constructor (phase: Phase)
      ensures this.phase == phase && nextArgId == 0
    {
      this.phase := phase;
      nextArgId := 0;
    }

    method NextArgId() returns (r: Outcome)
      requires -1 <= nextArgId < PTRDIFF_MAX
      modifies this
      ensures (r, nextArgId) == Step(phase, old(nextArgId), Automatic)
      ensures r == if old(nextArgId) < 0 then FormatError
                   else if phase.Compiling? && old(nextArgId) >= phase.numArgs then OutOfRange
                   else Id(old(nextArgId))
      ensures nextArgId == if r.Id? then old(nextArgId) + 1 else old(nextArgId)
      ensures -1 <= nextArgId <= PTRDIFF_MAX
    {
      if nextArgId < 0 {
        return FormatError;
      }
      if phase.Compiling? {
        if nextArgId >= phase.numArgs {
          return OutOfRange;
        }
      }
      r := Id(nextArgId);
      nextArgId := nextArgId + 1;
    }

    method CheckArgId(id: nat) returns (r: Outcome)
      requires -1 <= nextArgId <= PTRDIFF_MAX
      modifies this
      ensures (r, nextArgId) == Step(phase, old(nextArgId), Manual(id))
      ensures r == if phase.Compiling? && id >= phase.numArgs then OutOfRange
                   else if old(nextArgId) > 0 then FormatError
                   else Id(id)
      ensures nextArgId == if r.Id? then -1 else old(nextArgId)
      ensures -1 <= nextArgId <= PTRDIFF_MAX
    {
      if phase.Compiling? {
        if id >= phase.numArgs {
          return OutOfRange;
        }
      }
      if nextArgId > 0 {
        return FormatError;
      }
      nextArgId := -1;
      r := Id(id);
    }
  }

  // ---- whole format strings ----

  /** The identifiers of all fields, or the field at which parsing stops and how. */
  datatype Parse = Accepted(ids: seq<nat>) | Rejected(at: nat, why: Outcome)

  /** The run over all fields, from a counter value, up to the first failure. */
  function Run(phase: Phase, next: int, fields: seq<Field>): Parse
    decreases fields
  {
    if fields == [] then Accepted([])
    else
      var step := Step(phase, next, fields[0]);
      match step.0
      case Id(id) =>
        (match Run(phase, step.1, fields[1..])
         case Accepted(ids) => Accepted([id] + ids)
         case Rejected(at, why) => Rejected(at + 1, why))
      case _ => Rejected(0, step.0)
  }

  ghost predicate AllAutomatic(fields: seq<Field>)
  {
    forall k :: 0 <= k < |fields| ==> fields[k] == Automatic
  }

  ghost predicate AllManual(fields: seq<Field>)
  {
    forall k :: 0 <= k < |fields| ==> fields[k].Manual?
  }

  /** Once automatic, the run accepts exactly automatic fields and hands out consecutive numbers. */
  lemma {:induction false} AutomaticRun(phase: Phase, next: int, fields: seq<Field>)
    requires next > 0
    ensures var r := Run(phase, next, fields);
            && (r.Accepted? <==> AllAutomatic(fields)
                                 && (fields != [] && phase.Compiling? ==> next + |fields| <= phase.numArgs))
            && (r.Accepted? ==> r.ids == seq(|fields|, k => next + k))
    decreases fields
  {
    if fields != [] {
      AutomaticRun(phase, next + 1, fields[1..]);
      assert AllAutomatic(fields) <==> fields[0] == Automatic && AllAutomatic(fields[1..]) by {
        assert forall k :: 0 <= k < |fields[1..]| ==> fields[1..][k] == fields[k + 1];
        assert forall k :: 0 < k < |fields| ==> fields[k] == fields[1..][k - 1];
      }
      if Run(phase, next, fields).Accepted? {
        assert seq(|fields|, k => next + k) == [next] + seq(|fields| - 1, k => next + 1 + k);
      }
    }
  }

  /** Once manual, the run accepts exactly manual fields. */
  lemma {:induction false} ManualRun(phase: Phase, fields: seq<Field>)
    ensures var r := Run(phase, -1, fields);
            && (r.Accepted? <==> AllManual(fields)
                                 && forall k :: 0 <= k < |fields| && fields[k].Manual? && phase.Compiling? ==>
                                                  fields[k].id < phase.numArgs)
            && (r.Accepted? ==> |r.ids| == |fields|
                                && forall k :: 0 <= k < |fields| && fields[k].Manual? ==> r.ids[k] == fields[k].id)
  {
    if fields != [] {
      ManualRun(phase, fields[1..]);
      assert forall k :: 0 <= k < |fields[1..]| ==> fields[1..][k] == fields[k + 1];
      assert forall k :: 0 < k < |fields| ==> fields[k] == fields[1..][k - 1];
    }
  }

  /** The argument each field means when the string keeps to one way of indexing. */
  ghost predicate Meant(fields: seq<Field>, ids: seq<nat>)
  {
    |ids| == |fields|
    && forall k :: 0 <= k < |fields| ==> ids[k] == if fields[k].Manual? then fields[k].id else k
  }

  /** A format string is accepted exactly when it keeps to one way of indexing and, while compiling, names only
      existing arguments; automatic fields then take 0, 1, 2 and so on. */
  lemma ParseAccepts(phase: Phase, fields: seq<Field>)
    ensures var r := Run(phase, 0, fields);
            && (r.Accepted? <==> (|| (AllAutomatic(fields) && (phase.Compiling? ==> |fields| <= phase.numArgs))
                                  || (AllManual(fields)
                                      && forall k :: 0 <= k < |fields| && fields[k].Manual? && phase.Compiling? ==>
                                                       fields[k].id < phase.numArgs)))
            && (r.Accepted? ==> Meant(fields, r.ids))
  {
    if fields != [] {
      assert forall k :: 0 <= k < |fields[1..]| ==> fields[1..][k] == fields[k + 1];
      assert forall k :: 0 < k < |fields| ==> fields[k] == fields[1..][k - 1];
      if fields[0] == Automatic {
        AutomaticRun(phase, 1, fields[1..]);
      } else {
        ManualRun(phase, fields[1..]);
      }
    }
  }

  /** Once automatic, parsing stops where the arguments run out or at the first field that names its argument. */
  lemma {:induction false} AutomaticStops(phase: Phase, next: int, fields: seq<Field>)
    requires next > 0 && Run(phase, next, fields).Rejected?
    ensures var Rejected(at, why) := Run(phase, next, fields);
            && at < |fields|
            && (forall k :: 0 <= k < at ==> fields[k] == Automatic)
            && (phase.Compiling? && at > 0 ==> next + at <= phase.numArgs)
            && match fields[at]
               case Automatic => why == OutOfRange && phase.Compiling? && next + at >= phase.numArgs
               case Manual(id) => why == if phase.Compiling? && id >= phase.numArgs then OutOfRange else FormatError
    decreases fields
  {
    if Step(phase, next, fields[0]).0.Id? {
      AutomaticStops(phase, next + 1, fields[1..]);
      assert forall k :: 0 < k < |fields| ==> fields[k] == fields[1..][k - 1];
    }
  }

  /** Once manual, it stops at the first field that does not name its argument, or names one that does not exist. */
  lemma {:induction false} ManualStops(phase: Phase, fields: seq<Field>)
    requires Run(phase, -1, fields).Rejected?
    ensures var Rejected(at, why) := Run(phase, -1, fields);
            && at < |fields|
            && (forall k :: 0 <= k < at ==> fields[k].Manual? && (phase.Compiling? ==> fields[k].id < phase.numArgs))
            && match fields[at]
               case Automatic => why == FormatError
               case Manual(id) => why == OutOfRange && phase.Compiling? && id >= phase.numArgs
  {
    if Step(phase, -1, fields[0]).0.Id? {
      ManualStops(phase, fields[1..]);
      assert forall k :: 0 < k < |fields| ==> fields[k] == fields[1..][k - 1];
    }
  }

  /**
    Parsing stops at the first field that is of the other kind than the first one or, while compiling, means an
    argument that does not exist. While running that is always a FormatError; while compiling an automatic field
    is first of all of the wrong kind, but a manual one is first of all out of range.
   */
  lemma ParseStops(phase: Phase, fields: seq<Field>)
    requires Run(phase, 0, fields).Rejected?
    ensures var Rejected(at, why) := Run(phase, 0, fields);
            var otherKind := at < |fields| && fields[at].Manual? != fields[0].Manual?;
            var missing := && at < |fields| && phase.Compiling?
                           && phase.numArgs <= if fields[at].Manual? then fields[at].id else at;
            && at < |fields|
            && (forall k :: 0 <= k < at ==>
                  && fields[k].Manual? == fields[0].Manual?
                  && (phase.Compiling? ==> (if fields[k].Manual? then fields[k].id else k) < phase.numArgs))
            && (otherKind || missing)
            && why == (if fields[at].Manual? then (if missing then OutOfRange else FormatError)
                       else (if otherKind then FormatError else OutOfRange))
            && (phase.Running? ==> why == FormatError)
  {
    if Step(phase, 0, fields[0]).0.Id? {
      assert forall k :: 0 < k < |fields| ==> fields[k] == fields[1..][k - 1];
      if fields[0] == Automatic {
        AutomaticStops(phase, 1, fields[1..]);
      } else {
        ManualStops(phase, fields[1..]);
      }
    }
  }

  /** What passed while compiling passes while running with the same arguments, all of which exist. */
  lemma CompiledStringsRun(numArgs: nat, fields: seq<Field>)
    requires Run(Compiling(numArgs), 0, fields).Accepted?
    ensures Run(Running, 0, fields) == Run(Compiling(numArgs), 0, fields)
    ensures forall k :: 0 <= k < |fields| ==> Run(Running, 0, fields).Accepted?
                                              && k < |Run(Running, 0, fields).ids|
                                              && Run(Running, 0, fields).ids[k] < numArgs
  {
    ParseAccepts(Compiling(numArgs), fields);
    ParseAccepts(Running, fields);
    assert Run(Running, 0, fields).Accepted?;
    assert Run(Running, 0, fields).ids == Run(Compiling(numArgs), 0, fields).ids;
  }

  /** The outcome of a parse that starts with these identifiers already handed out. */
  function Continued(ids: seq<nat>, rest: Parse): Parse
  {
    match rest
    case Accepted(more) => Accepted(ids + more)
    case Rejected(at, why) => Rejected(|ids| + at, why)
  }

  /** The first i fields gave these identifiers, and the counter stands at next. */
  ghost predicate Handled(phase: Phase, fields: seq<Field>, i: nat, next: int, ids: seq<nat>)
  {
    i <= |fields| && |ids| == i && Run(phase, 0, fields) == Continued(ids, Run(phase, next, fields[i..]))
  }

  /** The outcome of the next field ends the parse or is the next identifier. */
  lemma FieldHandled(phase: Phase, fields: seq<Field>, i: nat, next: int, ids: seq<nat>)
    requires i < |fields| && Handled(phase, fields, i, next, ids)
    ensures var step := Step(phase, next, fields[i]);
            && step.1 <= (if next < 0 then 0 else next + 1)
            && (step.0.Id? ==> step.1 >= -1 && Handled(phase, fields, i + 1, step.1, ids + [step.0.id]))
            && (!step.0.Id? ==> Run(phase, 0, fields) == Rejected(i, step.0))
  {
    var (outcome, next') := Step(phase, next, fields[i]);
    assert fields[i..][0] == fields[i] && fields[i..][1..] == fields[i + 1..];
    if outcome.Id? {
      var rest := Run(phase, next', fields[i + 1..]);
      if rest.Accepted? {
        assert ids + ([outcome.id] + rest.ids) == ids + [outcome.id] + rest.ids;
      }
    }
  }

  /** Going through the fields of a format string with one parse context, up to the first failure. */
  method ParseFields(phase: Phase, fields: seq<Field>) returns (r: Parse)
    requires |fields| <= PTRDIFF_MAX
    ensures r == Run(phase, 0, fields)
  {
    var context := new ParseContext(phase);
    var ids: seq<nat> := [];
    assert fields[0..] == fields;
    for i := 0 to |fields|
      invariant fresh(context) && context.phase == phase && -1 <= context.nextArgId <= i
      invariant Handled(phase, fields, i, context.nextArgId, ids)
    {
      hide Step;
      FieldHandled(phase, fields, i, context.nextArgId, ids);
      var outcome;
      match fields[i] {
        case Automatic =>
          outcome := context.NextArgId();
        case Manual(id) =>
          outcome := context.CheckArgId(id);
      }
      if !outcome.Id? {
        return Rejected(i, outcome);
      }
      ids := ids + [outcome.id];
    }
    r := Accepted(ids);
  }
}
