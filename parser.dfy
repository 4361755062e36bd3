/** The ArgumentParser class: the registry as mutable fields holding Argument
    objects, the declaration methods that fill it, the getters, and
    setArgumentValues, which drains the command line through a loop and sets
    the values of the registered argument objects. Every method is proved to
    do exactly what the matching function over Registry values specifies. */
module Parser {
  import opened Errors
  import opened JavaStrings
  import opened Arguments
  import opened Registries
  import opened Parsing

  class ArgumentParser {
    var positionalArgs: seq<string>
    var namedArgs: seq<string>
    var argumentMap: map<string, Argument>
    var shortFormMap: map<string, string>
    var programName: string
    var programDescription: string

    /** The registry as a value: each argument object read through Info(). */
    function Snapshot(): Registry
      reads this, argumentMap.Values
    {
      Registry(positionalArgs, namedArgs, map k | k in argumentMap :: argumentMap[k].Info(),
               shortFormMap, programName, programDescription)
    }

    /** Each object is registered under its own name, so two keys never share
        an object, and every listed or short-form name is registered. */
    ghost predicate Valid()
      reads this, argumentMap.Values
    {
      WellFormed(Snapshot())
    }

    /** The fields and the argument objects read as reg, key by key; stated
        through Agrees so that a contract naming it is checked as one fact. */
    ghost predicate Represents(reg: Registry)
      reads this, argumentMap.Values
    {
      Agrees(reg) == true
    }

    ghost predicate Agrees(reg: Registry)
      reads this, argumentMap.Values
    {
      && positionalArgs == reg.positional && namedArgs == reg.named
      && shortFormMap == reg.shortForms
      && programName == reg.programName && programDescription == reg.programDescription
      && argumentMap.Keys == reg.args.Keys
      && forall k :: k in argumentMap ==> argumentMap[k].Info() == reg.args[k]
    }

    /** A valid parser represents its snapshot, and keeps each argument
        under the argument's own name. */
    lemma ValidRepresents()
      requires Valid()
      ensures Represents(Snapshot())
      ensures forall k :: k in argumentMap ==> argumentMap[k].name == k
    {
      forall k | k in argumentMap
        ensures argumentMap[k].name == k
      {
        assert Snapshot().args[k].name == k;
      }
    }

    lemma RepresentsSnapshot(reg: Registry)
      requires Represents(reg)
      ensures Snapshot() == reg
    {
      assert Snapshot().args == reg.args;
    }

    /** ArgumentParser(programName): no arguments, an empty description. */
    constructor (programName: string)
      ensures Valid() && Snapshot() == EmptyRegistry(programName)
    {
      positionalArgs, namedArgs := [], [];
      argumentMap, shortFormMap := map[], map[];
      this.programName := programName;
      programDescription := "";
    }

    // ------------------------------------------------------------ declaring

    method SetProgramName(name: string)
      requires Valid()
      modifies this
      ensures Valid() && Snapshot() == old(Snapshot()).(programName := name)
    {
      ghost var reg := Snapshot();
      programName := name;
      RepresentsSnapshot(reg.(programName := name));
    }

    method SetProgramDescription(description: string)
      requires Valid()
      modifies this
      ensures Valid() && Snapshot() == old(Snapshot()).(programDescription := description)
    {
      ghost var reg := Snapshot();
      programDescription := description;
      RepresentsSnapshot(reg.(programDescription := description));
    }

    /** setArgument(String name) */
    method SetArgument(name: string)
      requires Valid()
      modifies this
      ensures Valid() && Snapshot() == DeclarePositional(old(Snapshot()), name)
    {
      ghost var reg := Snapshot();
      if name != "-h" {
        positionalArgs := positionalArgs + [name];
        var arg := new Argument(name);
        argumentMap := argumentMap[name := arg];
        RepresentsSnapshot(DeclarePositional(reg, name));
      }
    }

    /** setArguments(String[] names): the body of setArgument(name) for each
        name in turn. */
    method SetArguments(names: seq<string>)
      requires Valid()
      modifies this
      ensures Valid() && Snapshot() == DeclarePositionals(old(Snapshot()), names)
    {
      ghost var reg := Snapshot();
      for i := 0 to |names|
        invariant Valid() && Snapshot() == DeclarePositionals(reg, names[..i])
      {
        assert names[..i + 1][..i] == names[..i];
        SetArgument(names[i]);
      }
      assert names[..|names|] == names;
    }

    /** setArgument(Argument arg): the object itself is registered, so later
        changes made through arg are seen by the parser. */
    method SetArgumentObject(arg: Argument)
      requires Valid()
      modifies this
      ensures Valid() && Snapshot() == DeclareArgument(old(Snapshot()), arg.Info())
      ensures arg.name != "-h" ==> arg.name in argumentMap && argumentMap[arg.name] == arg
    {
      ghost var reg := Snapshot();
      var name := arg.name;
      if name != "-h" {
        if !StartsWith(name, "--") {
          positionalArgs := positionalArgs + [name];
        } else {
          namedArgs := namedArgs + [name];
        }
        argumentMap := argumentMap[name := arg];
        ghost var r := DeclareArgument(reg, arg.Info());
        assert r.args == reg.args[name := arg.Info()];
        forall k | k in argumentMap
          ensures argumentMap[k].Info() == r.args[k]
        {
          if k != name {
            assert argumentMap[k].Info() == reg.args[k];
          }
        }
        RepresentsSnapshot(r);
      }
    }

    /** setNickname(arg, shortFormNames): arg itself is registered and listed
        as named, then each letter after the first but 'h' becomes a short form
        of it and is appended to its nicknames. */
    method SetNickname(arg: Argument, shortFormNames: string)
      requires Valid() && arg.kind == Named
      modifies this, arg
      ensures Valid() && Snapshot() == DeclareNickname(old(Snapshot()), old(arg.Info()), shortFormNames)
      ensures arg.name in argumentMap && argumentMap[arg.name] == arg
    {
      ghost var reg := Snapshot();
      ghost var info := arg.Info();
      RegisterNamed(arg, reg);
      NicknameStart(reg, info, shortFormNames);
      if shortFormNames != [] {
        AddNicknames(arg, shortFormNames, reg, info);
      }
      RepresentsSnapshot(DeclareNickname(reg, info, shortFormNames));
    }

    /** The first two steps of setNickname: arg is put under its name and
        its name is appended to the named list. */
    method RegisterNamed(arg: Argument, ghost reg: Registry)
      requires Valid() && reg == Snapshot()
      modifies this
      ensures arg.name in argumentMap && argumentMap[arg.name] == arg
      ensures Represents(reg.(args := reg.args[arg.name := arg.Info()], named := reg.named + [arg.name]))
    {
      argumentMap := argumentMap[arg.name := arg];
      namedArgs := namedArgs + [arg.name];
      forall k | k in argumentMap && k != arg.name
        ensures argumentMap[k].Info() == reg.args[k]
      {
      }
    }

    /** setNickname's loop over the letters after the first. */
    method AddNicknames(arg: Argument, s: string, ghost reg: Registry, ghost info: ArgInfo)
      requires 1 <= |s| && WellFormed(reg) && arg.kind == Named && info.name == arg.name
      requires arg.name in argumentMap && argumentMap[arg.name] == arg
      requires Represents(DeclareNickname(reg, info, Prefix(s, 1)))
      modifies this, arg
      ensures arg.name in argumentMap && argumentMap[arg.name] == arg
      ensures Represents(DeclareNickname(reg, info, s))
    {
      for i := 1 to |s|
        invariant arg.name in argumentMap && argumentMap[arg.name] == arg
        invariant Represents(DeclareNickname(reg, info, Prefix(s, i)))
      {
        NicknameStep(s, i, reg, info);
        NicknameLetter(arg, s[i], DeclareNickname(reg, info, Prefix(s, i)));
      }
      assert Prefix(s, |s|) == s;
    }

    /** One letter c of setNickname's loop: unless "-c" is "-h", it maps "-c"
        to arg's name and appends c to arg's nicknames. */
    method NicknameLetter(arg: Argument, c: char, ghost r0: Registry)
      requires Represents(r0) && WellFormed(r0) && arg.kind == Named
      requires arg.name in argumentMap && argumentMap[arg.name] == arg
      modifies this, arg
      ensures arg.name in argumentMap && argumentMap[arg.name] == arg
      ensures Represents(
                if c == 'h' then r0
                else r0.(args := r0.args[arg.name := r0.args[arg.name].(nicknames := r0.args[arg.name].nicknames + [c])],
                         shortForms := r0.shortForms[['-', c] := arg.name]))
    {
      var name := ['-', c];
      assert name == "-h" <==> c == 'h';
      if name != "-h" {
        shortFormMap := shortFormMap[name := arg.name];
        arg.AddNickname([c]);
        ghost var r1 := r0.(args := r0.args[arg.name := r0.args[arg.name].(nicknames := r0.args[arg.name].nicknames + [c])],
                            shortForms := r0.shortForms[name := arg.name]);
        forall k | k in argumentMap
          ensures argumentMap[k].Info() == r1.args[k]
        {
          if k != arg.name {
            assert argumentMap[k].name == k;
          }
        }
        assert Agrees(r1);
      }
    }

    /** setFlags(flag): for a string with one leading '-', each letter after
        it but 'h' becomes a boolean flag "false" under "-c". */
    method SetFlags(flag: string)
      requires Valid()
      modifies this
      ensures Valid() && Snapshot() == DeclareFlags(old(Snapshot()), flag)
    {
      ghost var reg := Snapshot();
      if StartsWith(flag, "-") && !StartsWith(flag, "--") {
        ValidRepresents();
        AddFlags(flag, reg);
        RepresentsSnapshot(DeclareFlags(reg, flag));
      }
    }

    /** setFlags' loop over the letters after the dash. */
    method AddFlags(flag: string, ghost reg: Registry)
      requires StartsWith(flag, "-") && !StartsWith(flag, "--")
      requires Represents(reg) && WellFormed(reg) == true
      modifies this
      ensures Represents(DeclareFlags(reg, flag))
    {
      FlagsStart(reg, flag);
      for i := 1 to |flag|
        invariant Represents(DeclareFlags(reg, Prefix(flag, i)))
      {
        FlagsStep(flag, i, reg);
        FlagLetter(flag[i], DeclareFlags(reg, Prefix(flag, i)));
      }
      assert Prefix(flag, |flag|) == flag;
    }

    /** One letter c of setFlags' loop: unless "-c" is "-h", a new boolean
        flag "false" is put under "-c". */
    method FlagLetter(c: char, ghost r0: Registry)
      requires Represents(r0)
      modifies this
      ensures Represents(if c == 'h' then r0 else r0.(args := r0.args[['-', c] := FlagInfo(['-', c])]))
    {
      var name := ['-', c];
      assert name == "-h" <==> c == 'h';
      if name != "-h" {
        var shortFormFlag := new Argument.Named(name, "false");
        shortFormFlag.SetType("boolean");
        argumentMap := argumentMap[name := shortFormFlag];
      }
    }

    /** setArgumentDescription; a name that is not registered makes Java
        dereference null. */
    method SetArgumentDescription(name: string, description: string) returns (r: Outcome)
      requires Valid()
      modifies this, argumentMap.Values
      ensures Valid()
      ensures if name in old(Snapshot()).args
              then r == Success && Snapshot() == WithDescription(old(Snapshot()), name, description)
              else r == Failure(NullPointer) && Snapshot() == old(Snapshot())
    {
      ghost var reg := Snapshot();
      if name !in argumentMap {
        return Failure(NullPointer);
      }
      ValidRepresents();
      var arg := argumentMap[name];
      arg.SetDescription(description);
      forall k | k in argumentMap && k != name
        ensures argumentMap[k].Info() == reg.args[k]
      {
      }
      assert Snapshot().args == WithDescription(reg, name, description).args;
      r := Success;
    }

    /** setArgumentType; a name that is not registered makes Java
        dereference null. */
    method SetArgumentType(name: string, typeName: string) returns (r: Outcome)
      requires Valid()
      modifies this, argumentMap.Values
      ensures Valid()
      ensures if name in old(Snapshot()).args
              then r == Success && Snapshot() == WithType(old(Snapshot()), name, typeName)
              else r == Failure(NullPointer) && Snapshot() == old(Snapshot())
    {
      ghost var reg := Snapshot();
      if name !in argumentMap {
        return Failure(NullPointer);
      }
      ValidRepresents();
      var arg := argumentMap[name];
      arg.SetType(typeName);
      forall k | k in argumentMap && k != name
        ensures argumentMap[k].Info() == reg.args[k]
      {
      }
      assert Snapshot().args == WithType(reg, name, typeName).args;
      r := Success;
    }

    // ------------------------------------------------------------ getters

    /** getProgramName */
    method GetProgramName() returns (r: string)
      ensures r == Snapshot().programName
    {
      r := programName;
    }

    /** getValue: a name starting with '-' that is a short form is first
        replaced by the argument it stands for. */
    method GetValue(name: string) returns (r: Option<string>)
      ensures r == ValueOf(Snapshot(), name)
    {
      var key := name;
      if StartsWith(name, "-") {
        if name in shortFormMap {
          key := shortFormMap[name];
        }
      }
      if key !in argumentMap {
        return None;
      }
      r := Some(argumentMap[key].value);
    }

    /** getDescription */
    method GetDescription(name: string) returns (r: Option<string>)
      ensures r == DescriptionOf(Snapshot(), name)
    {
      if name !in argumentMap {
        return None;
      }
      r := Some(argumentMap[name].description);
    }

    /** getType */
    method GetType(name: string) returns (r: Option<string>)
      ensures r == TypeOf(Snapshot(), name)
    {
      if name !in argumentMap {
        return None;
      }
      r := Some(argumentMap[name].typ);
    }

    // --------------------------------------------------------- messages

    /** makeString: every item followed by a space, then trimmed. */
    method MakeString(list: seq<string>) returns (s: string)
      ensures s == Parsing.MakeString(list)
    {
      var result := "";
      for i := 0 to |list|
        invariant result == SpaceAfterEach(list[..i])
      {
        assert list[..i + 1][..i] == list[..i];
        result := result + (list[i] + " ");
      }
      assert list[..|list|] == list;
      s := Trim(result);
    }

    /** makeUsageMessage */
    method MakeUsageMessage() returns (s: string)
      ensures s == Usage(Snapshot())
    {
      var names := MakeString(positionalArgs);
      s := "usage: java " + programName + " " + names + "\n";
    }

    /** The message help() throws: the usage line, the description, and one
        line per positional argument, trimmed. */
    method MakeHelpMessage() returns (message: string)
      requires Valid()
      ensures message == HelpMessage(Snapshot())
    {
      message := MakeUsageMessage();
      var decrArgs := "positional arguments:\n";
      message := message + programDescription + "\n";
      ghost var reg := Snapshot();
      for i := 0 to |positionalArgs|
        invariant decrArgs == "positional arguments:\n" + DescriptionLines(reg, positionalArgs[..i])
      {
        var name := positionalArgs[i];
        var arg := argumentMap[name];
        assert positionalArgs[..i + 1][..i] == positionalArgs[..i];
        assert reg.args[name].description == arg.description;
        decrArgs := decrArgs + (name + " " + arg.description + "\n");
      }
      assert positionalArgs[..|positionalArgs|] == positionalArgs;
      message := message + Trim(decrArgs);
    }

    // ---------------------------------------------------- setArgumentValues

    /** The parser holds the registry reg0 with the values vals assigned:
        the same lists, maps and names, and each argument object reads as
        reg0's declaration with its current value. */
    ghost predicate Holds(reg0: Registry, vals: Assigned)
      reads this, argumentMap.Values
    {
      Mirrors(reg0, vals) == true
    }

    /** The body of Holds, kept behind it so that a contract naming Holds is
        checked as one fact rather than conjunct by conjunct. */
    ghost predicate Mirrors(reg0: Registry, vals: Assigned)
      reads this, argumentMap.Values
    {
      && WellFormed(reg0)
      && positionalArgs == reg0.positional && namedArgs == reg0.named
      && shortFormMap == reg0.shortForms
      && programName == reg0.programName && programDescription == reg0.programDescription
      && argumentMap.Keys == reg0.args.Keys
      && forall k :: k in argumentMap ==> argumentMap[k].Info() == reg0.args[k].(value := Current(reg0, vals, k))
    }

    /** A parser that is reg0 holds reg0 with nothing assigned. */
    lemma HoldsInitially(reg0: Registry)
      requires Valid() && Snapshot() == reg0
      ensures Holds(reg0, map[])
    {
      forall k | k in argumentMap
        ensures argumentMap[k].Info() == reg0.args[k].(value := Current(reg0, map[], k))
      {
        assert reg0.args[k] == argumentMap[k].Info();
      }
    }

    /** What Holds means for the registry as a value. */
    lemma HoldsSnapshot(reg0: Registry, vals: Assigned)
      requires Holds(reg0, vals)
      ensures Snapshot() == WithValues(reg0, vals) && Valid()
    {
      var r := WithValues(reg0, vals);
      assert Snapshot().args == r.args;
    }

    /** current.setValue(v) on a registered argument object. */
    method SetValueOf(current: Argument, v: string, ghost reg0: Registry, ghost vals: Assigned)
      requires Holds(reg0, vals) && current.name in argumentMap && argumentMap[current.name] == current
      modifies current
      ensures Holds(reg0, vals[current.name := v])
    {
      ghost var key := current.name;
      assert forall k :: k in argumentMap ==> argumentMap[k].name == reg0.args[k].name == k;
      current.SetValue(v);
      forall k | k in argumentMap
        ensures argumentMap[k].Info() == reg0.args[k].(value := Current(reg0, vals[key := v], k))
      {
        if k != key {
          assert argumentMap[k].name != key;
        }
      }
    }

    /** checkAndSet(current, value): the accepted-value test, then the type
        test; the value is set only when both pass. */
    method CheckAndSet(current: Argument, value: string, ghost reg0: Registry, ghost vals: Assigned)
      returns (e: Option<ArgError>)
      requires Holds(reg0, vals) && current.name in argumentMap && argumentMap[current.name] == current
      modifies current
      ensures e == CheckValue(reg0, reg0.args[current.name], value)
      ensures Holds(reg0, if e == None then vals[current.name := value] else vals)
    {
      var msg := MakeUsageMessage();
      if current.accepted != {} && value !in current.accepted {
        e := Some(UnacceptedValue(msg + programName + ".java: error: "
               + ("argument " + current.name + ": unaccepted value: " + value)));
      } else if !LegitimateValue(current.typ, value) {
        e := Some(InvalidType(msg + programName + ".java: error: "
               + ("argument " + current.name + ": invalid " + current.typ + " value: " + value)));
      } else {
        SetValueOf(current, value, reg0, vals);
        e := None;
      }
    }

    /** The value step shared by a "--name" option and a short form: a
        boolean is set to "true"; any other type removes the next token from
        the queue and passes it through checkAndSet. */
    method TakeValue(current: Argument, rest: seq<string>, ghost reg0: Registry, ghost vals: Assigned)
      returns (taken: Result<Taken>)
      requires Holds(reg0, vals) && current.name in argumentMap && argumentMap[current.name] == current
      modifies current
      ensures taken == OptionValue(reg0, reg0.args[current.name], rest)
      ensures Holds(reg0, if taken.Ok? then vals[current.name := taken.value.value] else vals)
    {
      assert current.Info() == reg0.args[current.name].(value := Current(reg0, vals, current.name));
      if current.typ == "boolean" {
        SetValueOf(current, "true", reg0, vals);
        return Ok(Taken("true", rest));
      }
      if rest == [] {
        return Err(NoSuchElement);
      }
      var e := CheckAndSet(current, rest[0], reg0, vals);
      if e.Some? {
        return Err(e.value);
      }
      return Ok(Taken(rest[0], rest[1..]));
    }

    /** The "--name" branch of the loop, for a token that is not "--help":
        an undeclared name is skipped; a declared one takes its value, then
        an argument listed as named is cast to NamedArgument and recorded
        when it excludes others. */
    method LongOption(tok: string, rest: seq<string>, enc: seq<string>,
                      ghost posIndex: nat, ghost reg0: Registry, ghost vals: Assigned)
      returns (error: Option<ArgError>, queue: seq<string>, enc1: seq<string>, ghost vals1: Assigned)
      requires Holds(reg0, vals) && EncounteredOk(reg0, enc) && StartsWith(tok, "--")
      modifies argumentMap.Values
      ensures Holds(reg0, vals1)
      ensures LongOptionStep(reg0, vals, tok, rest, posIndex, enc) ==
                if error.Some? then Threw(vals1, error.value) else Next(vals1, queue, posIndex, enc1)
    {
      queue, enc1, vals1, error := rest, enc, vals, None;
      if tok !in argumentMap {
        return;
      }
      var current := argumentMap[tok];
      assert current.Info() == reg0.args[tok].(value := Current(reg0, vals, tok));
      var taken := TakeValue(current, rest, reg0, vals);
      if taken.Err? {
        error := Some(taken.error);
        return;
      }
      queue, vals1 := taken.value.rest, vals[tok := taken.value.value];
      if current.name in namedArgs {
        if current.kind == Plain {
          error := Some(ClassCast);
          return;
        }
        if current.mutex != {} {
          enc1 := enc + [current.name];
        }
      }
    }

    /** One letter c of a cluster: a flag "-c" or the argument "-c" is a
        short form of is set to "true"; found tells whether there was one. */
    method SetClusterLetter(c: char, ghost reg0: Registry, ghost vals: Assigned)
      returns (found: bool, ghost vals1: Assigned)
      requires Holds(reg0, vals)
      modifies argumentMap.Values
      ensures Holds(reg0, vals1)
      ensures found == Resolvable(reg0, c)
      ensures vals1 == if found then vals[ClusterTarget(reg0, c) := "true"] else vals
    {
      var name := ['-', c];
      vals1, found := vals, true;
      if name in argumentMap {
        var flag := argumentMap[name];
        assert flag.Info() == reg0.args[name].(value := Current(reg0, vals, name));
        SetValueOf(flag, "true", reg0, vals);
        vals1 := vals[name := "true"];
      } else if name in shortFormMap {
        var long := shortFormMap[name];
        var longForm := argumentMap[long];
        assert longForm.Info() == reg0.args[long].(value := Current(reg0, vals, long));
        SetValueOf(longForm, "true", reg0, vals);
        vals1 := vals[long := "true"];
      } else {
        found := false;
      }
    }

    /** The letters of a cluster "-abc" from index 1 on: each flag or short
        form is set to "true"; the first other letter throws, leaving the
        earlier ones set. */
    method SetClusterFlags(tok: string, msg: string, ghost reg0: Registry, ghost vals: Assigned)
      returns (error: Option<ArgError>, ghost vals1: Assigned)
      requires Holds(reg0, vals) && |tok| >= 1 && msg == Usage(reg0)
      modifies argumentMap.Values
      ensures Holds(reg0, vals1)
      ensures SetCluster(reg0, vals, tok, 1) == ParseResult(vals1, if error.Some? then Failure(error.value) else Success)
    {
      vals1, error := vals, None;
      ghost var target := SetCluster(reg0, vals, tok, 1);
      for i := 1 to |tok|
        invariant Holds(reg0, vals1)
        invariant target == SetCluster(reg0, vals1, tok, i)
      {
        var found;
        found, vals1 := SetClusterLetter(tok[i], reg0, vals1);
        if !found {
          error := Some(UnrecognizedArgument(msg + programName + ".java: error: " + ("unrecognized flag: " + ['-', tok[i]])));
          return;
        }
      }
    }

    /** The branch for a token starting with a single '-' other than "-h". */
    method ShortOption(tok: string, rest: seq<string>, msg: string,
                       ghost posIndex: nat, ghost enc: seq<string>, ghost reg0: Registry, ghost vals: Assigned)
      returns (error: Option<ArgError>, queue: seq<string>, ghost vals1: Assigned)
      requires Holds(reg0, vals) && StartsWith(tok, "-") && msg == Usage(reg0)
      modifies argumentMap.Values
      ensures Holds(reg0, vals1)
      ensures ShortOptionStep(reg0, vals, tok, rest, posIndex, enc) ==
                if error.Some? then Threw(vals1, error.value) else Next(vals1, queue, posIndex, enc)
    {
      if |tok| > 2 {
        queue := rest;
        error, vals1 := SetClusterFlags(tok, msg, reg0, vals);
      } else {
        error, queue, vals1 := SingleShort(tok, rest, posIndex, enc, reg0, vals);
      }
    }

    /** A "-x" token: a flag, a short form, or an unknown option. */
    method SingleShort(tok: string, rest: seq<string>, ghost posIndex: nat, ghost enc: seq<string>,
                       ghost reg0: Registry, ghost vals: Assigned)
      returns (error: Option<ArgError>, queue: seq<string>, ghost vals1: Assigned)
      requires Holds(reg0, vals)
      modifies argumentMap.Values
      ensures Holds(reg0, vals1)
      ensures SingleShortStep(reg0, vals, tok, rest, posIndex, enc) ==
                if error.Some? then Threw(vals1, error.value) else Next(vals1, queue, posIndex, enc)
    {
      queue, vals1, error := rest, vals, None;
      if tok in argumentMap {
        var flag := argumentMap[tok];
        assert flag.name == tok;
        SetValueOf(flag, "true", reg0, vals);
        vals1 := vals[tok := "true"];
      } else if tok in shortFormMap {
        var longForm := argumentMap[shortFormMap[tok]];
        assert longForm.name == shortFormMap[tok];
        var taken := TakeValue(longForm, rest, reg0, vals);
        if taken.Err? {
          error := Some(taken.error);
        } else {
          queue, vals1 := taken.value.rest, vals[longForm.name := taken.value.value];
        }
      }
    }

    /** The branch for a token that does not start with '-': it fills the next
        positional slot through checkAndSet. */
    method Positional(tok: string, posIndex: nat, msg: string, ghost rest: seq<string>,
                      ghost enc: seq<string>, ghost reg0: Registry, ghost vals: Assigned)
      returns (error: Option<ArgError>, posIndex1: nat, ghost vals1: Assigned)
      requires Holds(reg0, vals) && msg == Usage(reg0)
      modifies argumentMap.Values
      ensures Holds(reg0, vals1)
      ensures PositionalStep(reg0, vals, tok, rest, posIndex, enc) ==
                if error.Some? then Threw(vals1, error.value) else Next(vals1, rest, posIndex1, enc)
    {
      vals1, error, posIndex1 := vals, None, posIndex;
      if posIndex >= |positionalArgs| {
        error := Some(UnrecognizedArgument(msg + programName + ".java: error: " + ("unrecognized arguments: " + tok)));
        return;
      }
      var posName := positionalArgs[posIndex];
      posIndex1 := posIndex + 1;
      var current := argumentMap[posName];
      assert current.name == posName;
      error := CheckAndSet(current, tok, reg0, vals);
      if error.None? {
        vals1 := vals[posName := tok];
      }
    }

    /** checkMutuallyExclusiveNamedArgs(list, arg): the first listed name in
        conflict with arg, or "". */
    method CheckMutuallyExclusiveNamedArgs(list: seq<string>, arg: Argument, ghost reg0: Registry, ghost vals: Assigned)
      returns (conflict: string)
      requires Holds(reg0, vals) && EncounteredOk(reg0, list)
      requires arg.name in argumentMap && argumentMap[arg.name] == arg
      ensures conflict == CheckMutuallyExclusive(reg0, list, reg0.args[arg.name])
      ensures Holds(reg0, vals)
    {
      ghost var info := reg0.args[arg.name];
      assert arg.Info() == info.(value := Current(reg0, vals, arg.name));
      for i := 0 to |list|
        invariant CheckMutuallyExclusive(reg0, list, info) == CheckMutuallyExclusive(reg0, list[i..], info)
      {
        var other := argumentMap[list[i]];
        assert other.Info() == reg0.args[list[i]].(value := Current(reg0, vals, list[i]));
        assert list[i..][1..] == list[i + 1..];
        if list[i] in arg.mutex || arg.name in other.mutex {
          return list[i];
        }
      }
      assert list[|list|..] == [];
      return "";
    }

    /** One turn of the post-pass, for the encountered argument enc[0] with
        `list` the exclusive arguments kept so far. */
    method CheckEncounteredArg(enc: seq<string>, list: seq<string>, msg: string, ghost reg0: Registry, ghost vals: Assigned)
      returns (error: Option<ArgError>, list1: seq<string>)
      requires Holds(reg0, vals) && EncounteredOk(reg0, enc) && EncounteredOk(reg0, list)
      requires enc != [] && msg == Usage(reg0)
      ensures Holds(reg0, vals) && EncounteredOk(reg0, list1) && EncounteredOk(reg0, enc[1..])
      ensures PostPass(reg0, vals, enc, list) ==
                if error.Some? then Failure(error.value) else PostPass(reg0, vals, enc[1..], list1)
    {
      PostPassTurn(reg0, vals, enc, list);
      var name := enc[0];
      var arg := argumentMap[name];
      assert arg.Info() == reg0.args[name].(value := Current(reg0, vals, name));
      error, list1 := None, list;
      if arg.required && arg.value == "" {
        error := Some(MissingRequiredArgument(msg + programName + ".java: error: "
                   + ("the following arguments are required: " + name)));
      } else {
        var step := CheckExclusion(arg, list, msg, reg0, vals);
        if step.Err? {
          error := Some(step.error);
        } else {
          list1 := step.value;
        }
      }
    }

    /** The exclusion part of the post-pass's loop body for the encountered
        argument arg: the first exclusive argument is kept; each later one is
        checked against the kept list through checkMutuallyExclusiveNamedArgs. */
    method CheckExclusion(arg: Argument, list: seq<string>, msg: string, ghost reg0: Registry, ghost vals: Assigned)
      returns (r: Result<seq<string>>)
      requires Holds(reg0, vals) && EncounteredOk(reg0, list) && msg == Usage(reg0)
      requires arg.name in argumentMap && argumentMap[arg.name] == arg && EncounteredOk(reg0, [arg.name])
      ensures Holds(reg0, vals)
      ensures r == ExclusionStep(reg0, arg.name, list)
    {
      assert arg.Info() == reg0.args[arg.name].(value := Current(reg0, vals, arg.name));
      if arg.mutex == {} {
        return Ok(list);
      }
      if |list| == 0 {
        assert list + [arg.name] == [arg.name];
        return Ok(list + [arg.name]);
      }
      var conflict := CheckMutuallyExclusiveNamedArgs(list, arg, reg0, vals);
      if conflict != "" {
        return Err(MutuallyExclusiveArgument(msg + programName + ".java: error: "
                     + ("the following arguments are mutually exclusive: " + arg.name + " and " + conflict)));
      }
      return Ok(list);
    }

    /** The post-pass over the encountered arguments: a required one with an
        empty value throws; the first exclusive one is kept and each later
        exclusive one is checked against it. */
    method CheckEncountered(encountered: seq<string>, msg: string, ghost reg0: Registry, ghost vals: Assigned)
      returns (r: Outcome)
      requires Holds(reg0, vals) && EncounteredOk(reg0, encountered) && msg == Usage(reg0)
      ensures Holds(reg0, vals) && r == PostPass(reg0, vals, encountered, [])
    {
      var mutuallyExclusiveNamedArgs: seq<string> := [];
      var rest := encountered;
      ghost var target := PostPass(reg0, vals, encountered, []);
      while rest != []
        invariant Holds(reg0, vals) && EncounteredOk(reg0, mutuallyExclusiveNamedArgs) && EncounteredOk(reg0, rest)
        invariant target == PostPass(reg0, vals, rest, mutuallyExclusiveNamedArgs)
      {
        var error;
        error, mutuallyExclusiveNamedArgs := CheckEncounteredArg(rest, mutuallyExclusiveNamedArgs, msg, reg0, vals);
        if error.Some? {
          return Failure(error.value);
        }
        rest := rest[1..];
      }
      return Success;
    }

    /** help(): the exception a help token throws. */
    method HelpToken(ghost reg0: Registry, ghost vals: Assigned) returns (e: ArgError)
      requires Holds(reg0, vals)
      ensures Holds(reg0, vals) && e == Help(HelpMessage(reg0))
    {
      HoldsSnapshot(reg0, vals);
      var message := MakeHelpMessage();
      HoldsSnapshot(reg0, vals);
      HelpMessageIgnoresValues(reg0, vals);
      e := Help(message);
    }

    /** One turn of setArgumentValues's loop: remove the head of the queue
        and act on it. */
    method ParseToken(queue: seq<string>, posIndex: nat, enc: seq<string>, msg: string,
                      ghost reg0: Registry, ghost vals: Assigned)
      returns (error: Option<ArgError>, queue1: seq<string>, posIndex1: nat, enc1: seq<string>, ghost vals1: Assigned)
      requires Holds(reg0, vals) && EncounteredOk(reg0, enc) && queue != [] && msg == Usage(reg0)
      modifies argumentMap.Values
      ensures Holds(reg0, vals1)
      ensures ParseStep(reg0, vals, queue, posIndex, enc) ==
                if error.Some? then Threw(vals1, error.value) else Next(vals1, queue1, posIndex1, enc1)
    {
      var arg := queue[0];
      var rest := queue[1..];
      queue1, posIndex1, enc1, vals1 := rest, posIndex, enc, vals;
      if arg == "-h" || arg == "--help" {
        var e := HelpToken(reg0, vals);
        error := Some(e);
      } else if StartsWith(arg, "--") {
        error, queue1, enc1, vals1 := LongOption(arg, rest, enc, posIndex, reg0, vals);
      } else if StartsWith(arg, "-") {
        error, queue1, vals1 := ShortOption(arg, rest, msg, posIndex, enc, reg0, vals);
      } else {
        error, posIndex1, vals1 := Positional(arg, posIndex, msg, rest, enc, reg0, vals);
      }
    }

    /** setArgumentValues(values): how it ends is ParseSpec's outcome, and
        the argument objects end with exactly the values ParseSpec assigns,
        also when it throws part-way. */
    method SetArgumentValues(values: seq<string>) returns (r: Outcome)
      requires Valid()
      modifies argumentMap.Values
      ensures Valid()
      ensures r == ParseSpec(old(Snapshot()), values).outcome
      ensures Snapshot() == Parsed(old(Snapshot()), values)
    {
      var msg := MakeUsageMessage();
      ghost var reg0 := Snapshot();
      HoldsInitially(reg0);
      ghost var vals;
      r, vals := ParseQueue(values, msg, reg0);
      HoldsSnapshot(reg0, vals);
    }

    /** The loop of setArgumentValues over the queue of tokens, then the
        checks after it. */
    method ParseQueue(values: seq<string>, msg: string, ghost reg0: Registry)
      returns (r: Outcome, ghost vals: Assigned)
      requires Holds(reg0, map[]) && msg == Usage(reg0)
      modifies argumentMap.Values
      ensures Holds(reg0, vals) && ParseSpec(reg0, values) == ParseResult(vals, r)
    {
      vals := map[];
      var encountered: seq<string> := [];
      var queue := values;
      var positionalIndex: nat := 0;
      while queue != []
        invariant Holds(reg0, vals) && Resumes(reg0, values, vals, queue, positionalIndex, encountered)
        decreases |queue|
      {
        var error, q, p, enc1, vals1 := ParseToken(queue, positionalIndex, encountered, msg, reg0, vals);
        vals := vals1;
        if error.Some? {
          return Failure(error.value), vals;
        }
        queue, positionalIndex, encountered := q, p, enc1;
      }
      r := FinishParse(positionalIndex, encountered, msg, reg0, vals);
    }

    /** After the queue is empty: an unfilled positional slot is missing,
        otherwise the post-pass decides. */
    method FinishParse(positionalIndex: nat, encountered: seq<string>, msg: string,
                       ghost reg0: Registry, ghost vals: Assigned)
      returns (r: Outcome)
      requires Holds(reg0, vals) && EncounteredOk(reg0, encountered) && msg == Usage(reg0)
      ensures Holds(reg0, vals) && r == Finish(reg0, vals, positionalIndex, encountered)
    {
      if positionalIndex < |positionalArgs| {
        return Failure(MissingRequiredArgument(msg + programName + ".java: error: "
                 + ("the following arguments are required: " + positionalArgs[positionalIndex])));
      }
      r := CheckEncountered(encountered, msg, reg0, vals);
    }
  }

  /** The loop of setArgumentValues resumed with these values, queue,
      positional index and encountered list ends as it does from the start. */
  ghost predicate Resumes(reg0: Registry, values: seq<string>, vals: Assigned, queue: seq<string>,
                          posIndex: nat, enc: seq<string>)
  {
    && WellFormed(reg0) && EncounteredOk(reg0, enc)
    && ParseSpec(reg0, values) == ParseLoop(reg0, vals, queue, posIndex, enc)
  }

  /** The help message depends only on the declarations, not on the values. */
  lemma HelpMessageIgnoresValues(reg: Registry, vals: Assigned)
    requires WellFormed(reg)
    ensures HelpMessage(WithValues(reg, vals)) == HelpMessage(reg)
  {
    DescriptionLinesIgnoreValues(reg, vals, reg.positional);
  }

  lemma {:induction false} DescriptionLinesIgnoreValues(reg: Registry, vals: Assigned, names: seq<string>)
    requires forall i :: 0 <= i < |names| ==> names[i] in reg.args
    ensures DescriptionLines(WithValues(reg, vals), names) == DescriptionLines(reg, names)
  {
    if names != [] {
      DescriptionLinesIgnoreValues(reg, vals, names[..|names| - 1]);
    }
  }
}
