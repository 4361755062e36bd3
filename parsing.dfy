/** setArgumentValues as a function of the registry and the command line,
    together with the messages it builds (makeString, makeUsageMessage, help)
    and its value check (checkAndSet, legitimateValue). The imperative
    ArgumentParser.SetArgumentValues is proved to compute exactly ParseSpec. */
module Parsing {
  import opened Errors
  import opened JavaStrings
  import opened Arguments
  import opened Registries

  // ------------------------------------------------------------- messages

  /** The string makeString builds before trimming: every item followed by
      one space. */
  function SpaceAfterEach(items: seq<string>): string
  {
    if items == [] then "" else SpaceAfterEach(items[..|items| - 1]) + (items[|items| - 1] + " ")
  }

  /** makeString */
  function MakeString(items: seq<string>): string
  {
    Trim(SpaceAfterEach(items))
  }

  /** The items separated by single spaces. */
  function Join(items: seq<string>): string
  {
    if items == [] then ""
    else if |items| == 1 then items[0]
    else Join(items[..|items| - 1]) + " " + items[|items| - 1]
  }

  /** makeUsageMessage */
  function Usage(reg: Registry): string
  {
    "usage: java " + reg.programName + " " + MakeString(reg.positional) + "\n"
  }

  /** Every error message of setArgumentValues and checkAndSet: the usage
      line, then "<program>.java: error: " and the detail. */
  function ErrorMessage(reg: Registry, detail: string): string
  {
    Usage(reg) + reg.programName + ".java: error: " + detail
  }

  /** The lines help() builds for the positional arguments: the name, a space
      and the description, each line ending in a newline. */
  function DescriptionLines(reg: Registry, names: seq<string>): string
    requires forall i :: 0 <= i < |names| ==> names[i] in reg.args
  {
    if names == [] then ""
    else
      var last := names[|names| - 1];
      DescriptionLines(reg, names[..|names| - 1]) + (last + " " + reg.args[last].description + "\n")
  }

  /** The message of the HelpException that help() throws. */
  function HelpMessage(reg: Registry): string
    requires WellFormed(reg)
  {
    Usage(reg) + reg.programDescription + "\n"
      + Trim("positional arguments:\n" + DescriptionLines(reg, reg.positional))
  }

  // ------------------------------------------------------------- checkAndSet

  /** legitimateValue: only "int" and "float" can reject a value; "boolean",
      "string" and any other type name accept every string. */
  predicate LegitimateValue(typeName: string, value: string)
  {
    if typeName == "int" then ParseInt(value).Some?
    else if typeName == "float" then IsJavaFloat(value)
    else true
  }

  /** checkAndSet's verdict on assigning value to arg: None when it assigns,
      otherwise the exception it throws. The accepted-value test comes first. */
  function CheckValue(reg: Registry, arg: ArgInfo, value: string): (r: Option<ArgError>)
    ensures r == None <==> (arg.accepted == {} || value in arg.accepted) && LegitimateValue(arg.typ, value)
    ensures r.Some? ==> r.value.UnacceptedValue? || r.value.InvalidType?
    ensures r.Some? && r.value.InvalidType? ==> arg.typ == "int" || arg.typ == "float"
  {
    if arg.accepted != {} && value !in arg.accepted then
      Some(UnacceptedValue(ErrorMessage(reg, "argument " + arg.name + ": unaccepted value: " + value)))
    else if !LegitimateValue(arg.typ, value) then
      Some(InvalidType(ErrorMessage(reg, "argument " + arg.name + ": invalid " + arg.typ + " value: " + value)))
    else None
  }

  // ------------------------------------------------------- setArgumentValues

  /** The values setArgumentValues has assigned so far, by registered name;
      an argument it has not assigned keeps the value it had before. */
  type Assigned = map<string, string>

  /** The current value of a registered argument. */
  function Current(reg: Registry, vals: Assigned, name: string): string
    requires name in reg.args
  {
    if name in vals then vals[name] else reg.args[name].value
  }

  /** The registry with the assigned values written into its arguments:
      only values differ, so the declarations, lists and short forms are
      those of reg. */
  function WithValues(reg: Registry, vals: Assigned): (r: Registry)
    ensures r.args.Keys == reg.args.Keys
    ensures forall k :: k in reg.args ==> r.args[k] == reg.args[k].(value := Current(reg, vals, k))
    ensures SameShape(reg, r) && (WellFormed(reg) ==> WellFormed(r))
  {
    reg.(args := map k | k in reg.args :: reg.args[k].(value := Current(reg, vals, k)))
  }

  /** How the parse ends, and the values it has assigned by then (values
      assigned before a throw stay assigned). */
  datatype ParseResult = ParseResult(vals: Assigned, outcome: Outcome)

  /** What the list of encountered mutually exclusive arguments always holds:
      names of registered NamedArguments that start with "--". */
  ghost predicate EncounteredOk(reg: Registry, enc: seq<string>)
  {
    forall i :: 0 <= i < |enc| ==> StartsWith(enc[i], "--") && enc[i] in reg.args && reg.args[enc[i]].kind == Named
  }

  /** A value an option takes, and the queue left after taking it. */
  datatype Taken = Taken(value: string, rest: seq<string>)

  /** The value step of an option: a boolean takes "true" and consumes no
      token; any other type removes the next token from the queue (which
      throws NoSuchElementException on an empty queue) and passes it through
      checkAndSet. */
  function OptionValue(reg: Registry, arg: ArgInfo, rest: seq<string>): (r: Result<Taken>)
    ensures r.Ok? ==> |r.value.rest| <= |rest|
    ensures r.Ok? && arg.typ != "boolean" ==>
              rest != [] && r.value == Taken(rest[0], rest[1..]) && CheckValue(reg, arg, rest[0]) == None
  {
    if arg.typ == "boolean" then Ok(Taken("true", rest))
    else if rest == [] then Err(NoSuchElement)
    else match CheckValue(reg, arg, rest[0])
      case Some(e) => Err(e)
      case None => Ok(Taken(rest[0], rest[1..]))
  }

  /** After a "--" option is set: an argument listed as named is cast to
      NamedArgument (a plain Argument fails the cast) and, when it excludes
      other arguments, its name is recorded. */
  function RecordMutex(reg: Registry, key: string, enc: seq<string>): (r: Result<seq<string>>)
    requires WellFormed(reg) && key in reg.args && StartsWith(key, "--") && EncounteredOk(reg, enc)
    ensures r.Ok? ==> EncounteredOk(reg, r.value)
    ensures r.Ok? ==> r.value == enc || r.value == enc + [key]
    ensures r.Err? <==> key in reg.named && reg.args[key].kind == Plain
  {
    var cur := reg.args[key];
    if cur.name in reg.named then
      if cur.kind == Plain then Err(ClassCast)
      else if cur.HasMutualExclusiveArgs() then Ok(enc + [cur.name])
      else Ok(enc)
    else Ok(enc)
  }

  /** Whether "-c" is a flag or a short form. */
  predicate Resolvable(reg: Registry, c: char)
  {
    ['-', c] in reg.args || ['-', c] in reg.shortForms
  }

  /** The argument a clustered letter sets: the flag "-c" itself when there is
      one, otherwise the long name "-c" stands for. */
  function ClusterTarget(reg: Registry, c: char): (r: string)
    requires Resolvable(reg, c)
    ensures WellFormed(reg) ==> r in reg.args
  {
    if ['-', c] in reg.args then ['-', c] else reg.shortForms[['-', c]]
  }

  /** A token "-abc" longer than two characters: each letter from index i on
      sets its target to "true"; the first letter that is neither a flag nor a
      short form throws, leaving the earlier letters set. */
  function SetCluster(reg: Registry, vals: Assigned, tok: string, i: nat): ParseResult
    requires 1 <= i <= |tok|
    decreases |tok| - i
  {
    if i == |tok| then ParseResult(vals, Success)
    else if Resolvable(reg, tok[i]) then
      SetCluster(reg, vals[ClusterTarget(reg, tok[i]) := "true"], tok, i + 1)
    else
      ParseResult(vals, Failure(UnrecognizedArgument(ErrorMessage(reg, "unrecognized flag: " + ['-', tok[i]]))))
  }

  /** Where one turn of setArgumentValues's loop leaves it: it threw, leaving
      the values assigned so far, or it goes on with the next values, queue,
      positional index and list of encountered arguments. */
  datatype Step =
    | Threw(vals: Assigned, error: ArgError)
    | Next(vals: Assigned, queue: seq<string>, posIndex: nat, enc: seq<string>)

  /** One turn of the loop: remove the head of the queue and act on it. */
  function ParseStep(reg: Registry, vals: Assigned, queue: seq<string>, posIndex: nat, enc: seq<string>): (s: Step)
    requires WellFormed(reg) && EncounteredOk(reg, enc) && queue != []
    ensures s.Next? ==> |s.queue| < |queue| && EncounteredOk(reg, s.enc)
  {
    var tok, rest := queue[0], queue[1..];
    if tok == "-h" || tok == "--help" then Threw(vals, Help(HelpMessage(reg)))
    else if StartsWith(tok, "--") then LongOptionStep(reg, vals, tok, rest, posIndex, enc)
    else if StartsWith(tok, "-") then ShortOptionStep(reg, vals, tok, rest, posIndex, enc)
    else PositionalStep(reg, vals, tok, rest, posIndex, enc)
  }

  /** A token "--name" that is not "--help": an undeclared one is skipped;
      a declared one takes its value, then the cast and the bookkeeping of
      RecordMutex follow. */
  function LongOptionStep(reg: Registry, vals: Assigned, tok: string, rest: seq<string>, posIndex: nat, enc: seq<string>): (s: Step)
    requires WellFormed(reg) && EncounteredOk(reg, enc) && StartsWith(tok, "--")
    ensures s.Next? ==> |s.queue| <= |rest| && EncounteredOk(reg, s.enc)
  {
    if tok !in reg.args then Next(vals, rest, posIndex, enc)
    else
      match OptionValue(reg, reg.args[tok], rest)
      case Err(e) => Threw(vals, e)
      case Ok(taken) =>
        match RecordMutex(reg, tok, enc)
        case Err(e) => Threw(vals[tok := taken.value], e)
        case Ok(enc1) => Next(vals[tok := taken.value], taken.rest, posIndex, enc1)
  }

  /** A token starting with a single '-' that is not "-h": a cluster when it
      is longer than two characters, otherwise a single option. Characters
      are whole code points here, where Java counts UTF-16 units. */
  function ShortOptionStep(reg: Registry, vals: Assigned, tok: string, rest: seq<string>, posIndex: nat, enc: seq<string>): (s: Step)
    requires WellFormed(reg) && StartsWith(tok, "-")
    ensures s.Next? ==> |s.queue| <= |rest| && s.enc == enc
  {
    if |tok| > 2 then
      var c := SetCluster(reg, vals, tok, 1);
      if c.outcome.Failure? then Threw(c.vals, c.outcome.error) else Next(c.vals, rest, posIndex, enc)
    else SingleShortStep(reg, vals, tok, rest, posIndex, enc)
  }

  /** A "-x" token of at most two characters: a flag is set to "true", a
      short form takes a value for its long name, and an unknown option is
      skipped. */
  function SingleShortStep(reg: Registry, vals: Assigned, tok: string, rest: seq<string>, posIndex: nat, enc: seq<string>): (s: Step)
    requires WellFormed(reg)
    ensures s.Next? ==> |s.queue| <= |rest| && s.enc == enc
  {
    if tok in reg.args then Next(vals[tok := "true"], rest, posIndex, enc)
    else if tok in reg.shortForms then
      var long := reg.shortForms[tok];
      match OptionValue(reg, reg.args[long], rest)
      case Err(e) => Threw(vals, e)
      case Ok(taken) => Next(vals[long := taken.value], taken.rest, posIndex, enc)
    else Next(vals, rest, posIndex, enc)
  }

  /** A token that does not start with '-': it fills the next positional
      slot through checkAndSet, or is unrecognized when every slot is
      filled. */
  function PositionalStep(reg: Registry, vals: Assigned, tok: string, rest: seq<string>, posIndex: nat, enc: seq<string>): (s: Step)
    requires WellFormed(reg)
    ensures s.Next? ==> s.queue == rest && s.posIndex == posIndex + 1 && s.enc == enc
  {
    if posIndex >= |reg.positional| then
      Threw(vals, UnrecognizedArgument(ErrorMessage(reg, "unrecognized arguments: " + tok)))
    else
      var name := reg.positional[posIndex];
      match CheckValue(reg, reg.args[name], tok)
      case Some(e) => Threw(vals, e)
      case None => Next(vals[name := tok], rest, posIndex + 1, enc)
  }

  /** The rest of setArgumentValues when the queue holds `queue`, the next
      positional slot is posIndex and enc lists the encountered mutually
      exclusive arguments. */
  function ParseLoop(reg: Registry, vals: Assigned, queue: seq<string>, posIndex: nat, enc: seq<string>): ParseResult
    requires WellFormed(reg) && EncounteredOk(reg, enc)
    decreases |queue|
  {
    if queue == [] then ParseResult(vals, Finish(reg, vals, posIndex, enc))
    else
      match ParseStep(reg, vals, queue, posIndex, enc)
      case Threw(vals1, e) => ParseResult(vals1, Failure(e))
      case Next(vals1, queue1, posIndex1, enc1) => ParseLoop(reg, vals1, queue1, posIndex1, enc1)
  }

  /** After the queue is empty: an unfilled positional slot is missing,
      otherwise the post-pass over the encountered arguments decides. */
  function Finish(reg: Registry, vals: Assigned, posIndex: nat, enc: seq<string>): Outcome
    requires WellFormed(reg) && EncounteredOk(reg, enc)
  {
    if posIndex < |reg.positional| then
      Failure(MissingRequiredArgument(ErrorMessage(reg, "the following arguments are required: " + reg.positional[posIndex])))
    else PostPass(reg, vals, enc, [])
  }

  /** Whether arg and the registered `other` exclude each other, in either
      direction. */
  predicate Conflicting(reg: Registry, arg: ArgInfo, other: string)
    requires other in reg.args
  {
    arg.IsMutuallyExclusive(other) || reg.args[other].IsMutuallyExclusive(arg.name)
  }

  /** checkMutuallyExclusiveNamedArgs: the first listed name in conflict with
      arg, or "" when there is none. */
  function CheckMutuallyExclusive(reg: Registry, list: seq<string>, arg: ArgInfo): (r: string)
    requires forall i :: 0 <= i < |list| ==> list[i] in reg.args
    ensures r != "" ==> r in list && Conflicting(reg, arg, r)
    ensures (forall i :: 0 <= i < |list| ==> list[i] != "") ==>
              (r == "" <==> forall i :: 0 <= i < |list| ==> !Conflicting(reg, arg, list[i]))
  {
    if list == [] then ""
    else if Conflicting(reg, arg, list[0]) then list[0]
    else CheckMutuallyExclusive(reg, list[1..], arg)
  }

  /** The loop after the queue is empty, over the encountered arguments from
      enc on, with `list` the mutually exclusive arguments kept so far: a
      required argument left empty throws, then the exclusion step runs. */
  function PostPass(reg: Registry, vals: Assigned, enc: seq<string>, list: seq<string>): Outcome
    requires EncounteredOk(reg, enc) && EncounteredOk(reg, list)
    decreases |enc|
  {
    if enc == [] then Success
    else
      var name := enc[0];
      if reg.args[name].IsRequired() && Current(reg, vals, name) == "" then
        Failure(MissingRequiredArgument(ErrorMessage(reg, "the following arguments are required: " + name)))
      else
        match ExclusionStep(reg, name, list)
        case Err(e) => Failure(e)
        case Ok(list1) => PostPass(reg, vals, enc[1..], list1)
  }

  /** One turn of the post-pass for the first encountered argument. */
  lemma PostPassTurn(reg: Registry, vals: Assigned, enc: seq<string>, list: seq<string>)
    requires EncounteredOk(reg, enc) && EncounteredOk(reg, list) && enc != []
    ensures EncounteredOk(reg, enc[1..]) && EncounteredOk(reg, [enc[0]])
    ensures PostPass(reg, vals, enc, list) ==
              if reg.args[enc[0]].IsRequired() && Current(reg, vals, enc[0]) == "" then
                Failure(MissingRequiredArgument(ErrorMessage(reg, "the following arguments are required: " + enc[0])))
              else if ExclusionStep(reg, enc[0], list).Err? then
                Failure(ExclusionStep(reg, enc[0], list).error)
              else
                PostPass(reg, vals, enc[1..], ExclusionStep(reg, enc[0], list).value)
  {
    forall j | 0 <= j < |enc[1..]| ensures enc[1..][j] == enc[j + 1] { }
    assert [enc[0]][0] == enc[0];
  }

  /** The exclusion step of the post-pass for the encountered argument name:
      only the first exclusive argument is ever kept, so each later one is
      compared with it. The name kept is the argument's own name, which in a
      well-formed registry is the key it was found under. */
  function ExclusionStep(reg: Registry, name: string, list: seq<string>): (r: Result<seq<string>>)
    requires EncounteredOk(reg, [name]) && EncounteredOk(reg, list)
    ensures r.Ok? ==> EncounteredOk(reg, r.value)
  {
    assert [name][0] == name;
    var arg := reg.args[name];
    if !arg.HasMutualExclusiveArgs() then Ok(list)
    else if list == [] then Ok([name])
    else
      var conflict := CheckMutuallyExclusive(reg, list, arg);
      if conflict != "" then
        Err(MutuallyExclusiveArgument(ErrorMessage(reg,
          "the following arguments are mutually exclusive: " + name + " and " + conflict)))
      else Ok(list)
  }

  /** setArgumentValues(tokens) on a parser whose state is reg: how it ends
      and the values it assigns. */
  function ParseSpec(reg: Registry, tokens: seq<string>): ParseResult
    requires WellFormed(reg)
  {
    ParseLoop(reg, map[], tokens, 0, [])
  }

  /** The parser's state after setArgumentValues(tokens). */
  function Parsed(reg: Registry, tokens: seq<string>): Registry
    requires WellFormed(reg)
  {
    WithValues(reg, ParseSpec(reg, tokens).vals)
  }
}
