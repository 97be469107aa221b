/**
 * ManualArgument: a runtime-declared argument whose supplied values are
 * handed to a callback instead of being written into a field.  The
 * callbacks themselves are caller code; what they receive is recorded in
 * the ghost `log`, one entry per call.
 */
module Manual {
  import opened Common

  /** Which of the constructors' callback shapes is stored. */
  datatype Callback =
    | ListAction    // Action<IEnumerable<string>>: receives all supplied values
    | SingleAction  // Action<string>: receives the first supplied value
    | FlagAction    // Action: receives nothing

  /** What the caller's code received, one entry per callback that ran. */
  datatype Received =
    | ReceivedList(values: seq<string>)
    | ReceivedSingle(value: Option<string>)
    | ReceivedFlag
    | ReceivedMissing

  /** FirstOrDefault: the first value, or null for none. */
  function FirstOrDefault(values: seq<string>): (r: Option<string>)
    ensures r.Some? <==> |values| > 0
    ensures r.Some? ==> r.value == values[0]
  {
    if values == [] then None else Some(values[0])
  }

  class ManualArgument {
    const longName: string
    const shortName: string
    const exampleValue: string
    const description: string
    const argumentCount: int
    const callback: Callback
    const hasMissingAction: bool  // actionWhenMissing is not null
    ghost var log: seq<Received>

    /** ManualArgument(longName, shortName, exampleValue, description, argumentCount, action). */
    constructor (longName: string, shortName: string, exampleValue: string, description: string,
                 argumentCount: int)
      ensures this.longName == longName && this.shortName == shortName
      ensures this.exampleValue == exampleValue && this.description == description
      ensures this.argumentCount == argumentCount && callback == ListAction
      ensures !hasMissingAction && log == []
    {
      this.longName := longName;
      this.shortName := shortName;
      this.exampleValue := exampleValue;
      this.description := description;
      this.argumentCount := argumentCount;
      this.callback := ListAction;
      this.hasMissingAction := false;
      this.log := [];
    }

    /** ManualArgument(longName, shortName, exampleValue, description, Action<string>): exactly one value. */
    constructor Single(longName: string, shortName: string, exampleValue: string, description: string)
      ensures this.longName == longName && this.shortName == shortName
      ensures this.exampleValue == exampleValue && this.description == description
      ensures argumentCount == 1 && callback == SingleAction
      ensures !hasMissingAction && log == []
    {
      this.longName := longName;
      this.shortName := shortName;
      this.exampleValue := exampleValue;
      this.description := description;
      this.argumentCount := 1;
      this.callback := SingleAction;
      this.hasMissingAction := false;
      this.log := [];
    }

    /** ManualArgument(longName, shortName, description, Action): a flag taking no value. */
    constructor Flag(longName: string, shortName: string, description: string)
      ensures this.longName == longName && this.shortName == shortName
      ensures exampleValue == "False" && this.description == description
      ensures argumentCount == 0 && callback == FlagAction
      ensures !hasMissingAction && log == []
    {
      this.longName := longName;
      this.shortName := shortName;
      this.exampleValue := "False";
      this.description := description;
      this.argumentCount := 0;
      this.callback := FlagAction;
      this.hasMissingAction := false;
      this.log := [];
    }

    /** ManualArgument(longName, shortName, description, actionWhenSupplied, actionWhenMissing). */
    constructor FlagWhenMissing(longName: string, shortName: string, description: string,
                                missingAction: bool)
      ensures this.longName == longName && this.shortName == shortName
      ensures exampleValue == "False" && this.description == description
      ensures argumentCount == 0 && callback == FlagAction
      ensures hasMissingAction == missingAction && log == []
    {
      this.longName := longName;
      this.shortName := shortName;
      this.exampleValue := "False";
      this.description := description;
      this.argumentCount := 0;
      this.callback := FlagAction;
      this.hasMissingAction := missingAction;
      this.log := [];
    }

    /** ManualArgument(longName, shortName, exampleValue, description, Action<string>, actionWhenMissing). */
    constructor SingleWhenMissing(longName: string, shortName: string, exampleValue: string, description: string,
                                  missingAction: bool)
      ensures this.longName == longName && this.shortName == shortName
      ensures this.exampleValue == exampleValue && this.description == description
      ensures argumentCount == 1 && callback == SingleAction
      ensures hasMissingAction == missingAction && log == []
    {
      this.longName := longName;
      this.shortName := shortName;
      this.exampleValue := exampleValue;
      this.description := description;
      this.argumentCount := 1;
      this.callback := SingleAction;
      this.hasMissingAction := missingAction;
      this.log := [];
    }

    /** ManualArgument(longName, shortName, exampleValue, description, argumentCount, actionWhenSupplied, actionWhenMissing). */
    constructor ListWhenMissing(longName: string, shortName: string, exampleValue: string, description: string,
                                argumentCount: int, missingAction: bool)
      ensures this.longName == longName && this.shortName == shortName
      ensures this.exampleValue == exampleValue && this.description == description
      ensures this.argumentCount == argumentCount && callback == ListAction
      ensures hasMissingAction == missingAction && log == []
    {
      this.longName := longName;
      this.shortName := shortName;
      this.exampleValue := exampleValue;
      this.description := description;
      this.argumentCount := argumentCount;
      this.callback := ListAction;
      this.hasMissingAction := missingAction;
      this.log := [];
    }

    /** The guard of InvokeSupplied: a null list, then a list of the wrong length, throws. */
    function SuppliedGuard(args: Option<seq<string>>): (r: Outcome)
      ensures r == Pass <==> args.Some? && |args.value| == argumentCount
      ensures args.None? ==> r == Fail(NullArgument("args"))
      ensures args.Some? && |args.value| != argumentCount ==> r == Fail(InvalidArgument("args"))
    {
      if args.None? then Fail(NullArgument("args"))
      else if |args.value| != argumentCount then Fail(InvalidArgument("args"))
      else Pass
    }

    /** What the stored callback hands to the caller's action for `args`. */
    function Delivered(args: seq<string>): (r: Received)
      ensures callback == ListAction ==> r == ReceivedList(args)
      ensures callback == SingleAction ==> r == ReceivedSingle(FirstOrDefault(args))
      ensures callback == FlagAction ==> r == ReceivedFlag
    {
      match callback
      case ListAction => ReceivedList(args)
      case SingleAction => ReceivedSingle(FirstOrDefault(args))
      case FlagAction => ReceivedFlag
    }

    /** InvokeSupplied(args): after the guard passes, the callback runs exactly once on `args`. */
    method InvokeSupplied(args: Option<seq<string>>) returns (r: Outcome)
      modifies this`log
      ensures r == SuppliedGuard(args)
      ensures r.Pass? ==> log == old(log) + [Delivered(args.value)]
      ensures r.Fail? ==> log == old(log)
    {
      r := SuppliedGuard(args);
      if r.Pass? {
        log := log + [Delivered(args.value)];
      }
    }

    /** InvokeMissing(): runs the missing-action when one was given, and does nothing otherwise. */
    method InvokeMissing()
      modifies this`log
      ensures log == if hasMissingAction then old(log) + [ReceivedMissing] else old(log)
    {
      if hasMissingAction {
        log := log + [ReceivedMissing];
      }
    }
  }

  /** A single-value argument's callback receives the one supplied value itself. */
  lemma SingleReceivesTheValue(m: ManualArgument, args: seq<string>)
    requires m.callback == SingleAction && m.argumentCount == 1
    requires m.SuppliedGuard(Some(args)) == Pass
    ensures m.Delivered(args) == ReceivedSingle(Some(args[0]))
  {
  }
}
