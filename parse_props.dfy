/** What setArgumentValues and its messages promise, proved about ParseSpec. */
module ParseProperties {
  import opened Errors
  import opened JavaStrings
  import opened Arguments
  import opened Registries
  import opened Parsing

  // ------------------------------------------------------------- messages

  lemma {:induction false} SpaceAfterEachIsJoin(items: seq<string>)
    requires items != []
    ensures SpaceAfterEach(items) == Join(items) + " "
  {
    if |items| > 1 {
      SpaceAfterEachIsJoin(items[..|items| - 1]);
    }
  }

  /** Joining clean items gives a clean string. */
  lemma {:induction false} JoinClean(items: seq<string>)
    requires items != [] && forall i :: 0 <= i < |items| ==> Clean(items[i])
    ensures Clean(Join(items))
  {
    if |items| > 1 {
      var init := items[..|items| - 1];
      JoinClean(init);
      var a, b := Join(init), items[|items| - 1];
      assert Clean(b);
      var j := a + " " + b;
      assert j[0] == a[0];
      assert j[|j| - 1] == b[|b| - 1];
    }
  }

  /** makeString separates names by single spaces, with no space at either
      end, as long as no name starts or ends with a blank. */
  lemma MakeStringJoins(items: seq<string>)
    requires forall i :: 0 <= i < |items| ==> Clean(items[i])
    ensures MakeString(items) == Join(items)
  {
    if items == [] {
      assert MakeString(items) == Trim("");
    } else {
      var j := Join(items);
      SpaceAfterEachIsJoin(items);
      JoinClean(items);
      TrimDropsLastBlank(j, ' ');
    }
  }

  /** The help message: the usage line, the program description, then
      "positional arguments:" and one "name description" line per positional
      argument. Java's trim reaches into the last line only: it drops that
      line's newline and whatever blanks end it, as long as the line holds a
      visible character. */
  lemma HelpMessageLists(reg: Registry)
    requires WellFormed(reg) && reg.positional != []
    requires var last := reg.positional[|reg.positional| - 1];
             TrimEnd(last + " " + reg.args[last].description) != []
    ensures var p := reg.positional;
            var last := p[|p| - 1];
            HelpMessage(reg) == Usage(reg) + reg.programDescription + "\n"
              + ("positional arguments:\n" + DescriptionLines(reg, p[..|p| - 1])
                 + TrimEnd(last + " " + reg.args[last].description))
  {
    var p := reg.positional;
    var last := p[|p| - 1];
    var line := last + " " + reg.args[last].description;
    var head := "positional arguments:\n" + DescriptionLines(reg, p[..|p| - 1]);
    var body := "positional arguments:\n" + DescriptionLines(reg, p);
    assert body == head + (line + "\n");
    assert body[0] == 'p';
    assert TrimStart(body) == body;
    assert (line + "\n")[..|line|] == line;
    assert TrimEnd(line + "\n") == TrimEnd(line);
    TrimEndAppend(head, line + "\n");
  }

  /** With the default empty description, the last line is the bare name:
      the blank after it is trimmed away with the newline. */
  lemma HelpMessageUndescribed(reg: Registry)
    requires WellFormed(reg) && reg.positional != []
    requires var last := reg.positional[|reg.positional| - 1];
             Clean(last) && reg.args[last].description == ""
    ensures var p := reg.positional;
            HelpMessage(reg) == Usage(reg) + reg.programDescription + "\n"
              + ("positional arguments:\n" + DescriptionLines(reg, p[..|p| - 1]) + p[|p| - 1])
  {
    var p := reg.positional;
    var last := p[|p| - 1];
    assert last + " " + "" == last + [' '];
    TrimDropsLastBlank(last, ' ');
    assert TrimStart(last + [' ']) == last + [' '];
    HelpMessageLists(reg);
  }

  /** Without positional arguments the help message ends in the bare header. */
  lemma HelpMessageWithoutPositionals(reg: Registry)
    requires WellFormed(reg) && reg.positional == []
    ensures HelpMessage(reg) == Usage(reg) + reg.programDescription + "\n" + "positional arguments:"
  {
    var body := "positional arguments:";
    assert "positional arguments:\n" + DescriptionLines(reg, []) == body + "\n";
    assert body[0] == 'p' && body[|body| - 1] == ':';
    TrimDropsLastBlank(body, '\n');
  }

  // ------------------------------------------------------------- checkAndSet

  /** An int argument without accepted values takes the decimal form of any
      non-negative int. */
  lemma IntArgumentTakesNumerals(reg: Registry, arg: ArgInfo, n: nat)
    requires arg.typ == "int" && arg.accepted == {} && n <= IntMax
    ensures CheckValue(reg, arg, NatToString(n)) == None
  {
    ParseIntOfNatToString(n);
  }

  /** A value outside a non-empty accepted set is refused before its type is
      looked at. */
  lemma UnacceptedBeforeType(reg: Registry, arg: ArgInfo, v: string)
    requires arg.accepted != {} && v !in arg.accepted
    ensures CheckValue(reg, arg, v) ==
      Some(UnacceptedValue(ErrorMessage(reg, "argument " + arg.name + ": unaccepted value: " + v)))
  {
  }

  /** An accepted value of the wrong type is an InvalidType naming the type. */
  lemma InvalidTypeMessage(reg: Registry, arg: ArgInfo, v: string)
    requires arg.accepted == {} || v in arg.accepted
    requires !LegitimateValue(arg.typ, v)
    ensures CheckValue(reg, arg, v) ==
      Some(InvalidType(ErrorMessage(reg, "argument " + arg.name + ": invalid " + arg.typ + " value: " + v)))
  {
  }

  // ------------------------------------------------------------ token kinds

  /** A token that is neither help nor an option. */
  predicate PlainToken(t: string)
  {
    !StartsWith(t, "-")
  }

  /** A plain token is neither help nor a long option. */
  lemma PlainTokenIsPositional(t: string)
    requires PlainToken(t)
    ensures t != "-h" && t != "--help" && !StartsWith(t, "--")
  {
    assert StartsWith("-h", "-") by { assert "-h"[..1] == "-"; }
    assert StartsWith("--help", "-") by { assert "--help"[..1] == "-"; }
    DoubleDashIsDash(t);
  }

  lemma DoubleDashIsDash(t: string)
    ensures StartsWith(t, "--") ==> StartsWith(t, "-")
  {
    if StartsWith(t, "--") {
      assert t[..1] == t[..2][..1];
    }
  }

  /** A long option is not the short help token. */
  lemma LongOptionIsNotShortHelp(t: string)
    requires StartsWith(t, "--")
    ensures t != "-h"
  {
    assert t[1] == t[..2][1] == '-';
    assert "-h"[1] == 'h';
  }

  /** A two-character token "-c" with c not '-' is a single-dash option. */
  lemma ShortTokenIsSingleDash(t: string)
    requires |t| == 2 && t[0] == '-' && t[1] != '-'
    ensures StartsWith(t, "-") && !StartsWith(t, "--")
  {
    assert t[..1] == "-";
    assert t[..2] == t && "--"[1] == '-';
  }

  // ------------------------------------------------------- positional values

  /** The values after the first |tokens| positional slots took the tokens in
      order. */
  function FillSlots(reg: Registry, tokens: seq<string>): Assigned
    requires WellFormed(reg) && |tokens| <= |reg.positional|
  {
    if tokens == [] then map[]
    else FillSlots(reg, tokens[..|tokens| - 1])[reg.positional[|tokens| - 1] := tokens[|tokens| - 1]]
  }

  /** Every slot accepts its token. */
  ghost predicate SlotsAccept(reg: Registry, tokens: seq<string>)
    requires WellFormed(reg) && |tokens| <= |reg.positional|
  {
    forall k :: 0 <= k < |tokens| ==> CheckValue(reg, reg.args[reg.positional[k]], tokens[k]) == None
  }

  /** With distinct positional names, slot k holds token k. */
  lemma {:induction false} FillSlotsSets(reg: Registry, tokens: seq<string>, k: nat)
    requires WellFormed(reg) && k < |tokens| <= |reg.positional|
    requires forall i, j :: 0 <= i < j < |reg.positional| ==> reg.positional[i] != reg.positional[j]
    ensures reg.positional[k] in FillSlots(reg, tokens)
    ensures FillSlots(reg, tokens)[reg.positional[k]] == tokens[k]
  {
    var n := |tokens| - 1;
    if k < n {
      FillSlotsSets(reg, tokens[..n], k);
      assert tokens[..n][k] == tokens[k];
      assert reg.positional[k] != reg.positional[n];
    }
  }

  /** Nothing but the filled positional names is assigned. */
  lemma {:induction false} FillSlotsOnly(reg: Registry, tokens: seq<string>, name: string)
    requires WellFormed(reg) && |tokens| <= |reg.positional|
    requires name !in reg.positional[..|tokens|]
    ensures name !in FillSlots(reg, tokens)
  {
    if tokens != [] {
      var n := |tokens| - 1;
      assert reg.positional[..|tokens|] == reg.positional[..n] + [reg.positional[n]];
      FillSlotsOnly(reg, tokens[..n], name);
    }
  }

  /** A plain token at position i, the slots before it filled: checkAndSet
      decides, and on success the token fills slot i. */
  lemma SlotStep(reg: Registry, tokens: seq<string>, i: nat)
    requires WellFormed(reg)
    requires i < |tokens| && i < |reg.positional| && PlainToken(tokens[i])
    ensures ParseStep(reg, FillSlots(reg, tokens[..i]), tokens[i..], i, []) ==
              match CheckValue(reg, reg.args[reg.positional[i]], tokens[i])
              case Some(e) => Threw(FillSlots(reg, tokens[..i]), e)
              case None => Next(FillSlots(reg, tokens[..i + 1]), tokens[i + 1..], i + 1, [])
  {
    var q := tokens[i..];
    assert q[0] == tokens[i] && q[1..] == tokens[i + 1..];
    PlainTokenIsPositional(tokens[i]);
    assert tokens[..i + 1][..i] == tokens[..i];
    assert tokens[..i + 1][i] == tokens[i];
  }

  /** The plain tokens at the front of a command line fill the positional
      slots in order. */
  lemma {:induction false} PositionalRun(reg: Registry, tokens: seq<string>, i: nat)
    requires WellFormed(reg)
    requires i <= |tokens| && i <= |reg.positional|
    requires forall k :: 0 <= k < i ==> PlainToken(tokens[k])
    requires SlotsAccept(reg, tokens[..i])
    ensures ParseSpec(reg, tokens) == ParseLoop(reg, FillSlots(reg, tokens[..i]), tokens[i..], i, [])
  {
    if i == 0 {
      assert tokens[..0] == [] && tokens[0..] == tokens;
    } else {
      var j := i - 1;
      assert SlotsAccept(reg, tokens[..j]) by {
        forall k | 0 <= k < j
          ensures CheckValue(reg, reg.args[reg.positional[k]], tokens[..j][k]) == None
        {
          assert tokens[..i][k] == tokens[..j][k];
        }
      }
      PositionalRun(reg, tokens, j);
      assert tokens[..i][j] == tokens[j];
      assert CheckValue(reg, reg.args[reg.positional[j]], tokens[..i][j]) == None;
      SlotStep(reg, tokens, j);
    }
  }

  /** A plain command line with one accepted token per positional slot
      succeeds, assigning exactly the slots. */
  lemma ParseFillsPositionals(reg: Registry, tokens: seq<string>)
    requires WellFormed(reg)
    requires forall k :: 0 <= k < |tokens| ==> PlainToken(tokens[k])
    requires |tokens| == |reg.positional| && SlotsAccept(reg, tokens)
    ensures ParseSpec(reg, tokens) == ParseResult(FillSlots(reg, tokens), Success)
  {
    assert tokens[..|tokens|] == tokens;
    PositionalRun(reg, tokens, |tokens|);
    assert tokens[|tokens|..] == [];
  }

  /** After such a parse, with distinct positional names, positional k
      holds token k and every other argument is as it was. */
  lemma ParseSetsSlots(reg: Registry, tokens: seq<string>, k: nat, other: string)
    requires WellFormed(reg)
    requires forall k :: 0 <= k < |tokens| ==> PlainToken(tokens[k])
    requires |tokens| == |reg.positional| && SlotsAccept(reg, tokens)
    requires forall i, j :: 0 <= i < j < |reg.positional| ==> reg.positional[i] != reg.positional[j]
    requires k < |tokens| && other in reg.args && other !in reg.positional
    ensures ParseSpec(reg, tokens).outcome == Success
    ensures reg.positional[k] in Parsed(reg, tokens).args
    ensures Parsed(reg, tokens).args[reg.positional[k]].value == tokens[k]
    ensures other in Parsed(reg, tokens).args && Parsed(reg, tokens).args[other] == reg.args[other]
  {
    ParseFillsPositionals(reg, tokens);
    FillSlotsSets(reg, tokens, k);
    assert reg.positional[..|tokens|] == reg.positional;
    FillSlotsOnly(reg, tokens, other);
  }

  /** A plain token beyond the last positional slot is unrecognized; the
      slots before it keep their tokens. */
  lemma ParseRejectsExtraPositional(reg: Registry, tokens: seq<string>)
    requires WellFormed(reg)
    requires |tokens| > |reg.positional|
    requires forall k :: 0 <= k <= |reg.positional| ==> PlainToken(tokens[k])
    requires SlotsAccept(reg, tokens[..|reg.positional|])
    ensures var n := |reg.positional|;
            ParseSpec(reg, tokens) == ParseResult(FillSlots(reg, tokens[..n]),
              Failure(UnrecognizedArgument(ErrorMessage(reg, "unrecognized arguments: " + tokens[n]))))
  {
    var n := |reg.positional|;
    PositionalRun(reg, tokens, n);
    assert tokens[n..][0] == tokens[n];
    PlainTokenIsPositional(tokens[n]);
  }

  /** A plain command line shorter than the positional list names the first
      unfilled slot as missing. */
  lemma ParseReportsMissingPositional(reg: Registry, tokens: seq<string>)
    requires WellFormed(reg)
    requires forall k :: 0 <= k < |tokens| ==> PlainToken(tokens[k])
    requires |tokens| < |reg.positional| && SlotsAccept(reg, tokens)
    ensures ParseSpec(reg, tokens) == ParseResult(FillSlots(reg, tokens),
              Failure(MissingRequiredArgument(ErrorMessage(reg,
                "the following arguments are required: " + reg.positional[|tokens|]))))
  {
    assert tokens[..|tokens|] == tokens;
    PositionalRun(reg, tokens, |tokens|);
    assert tokens[|tokens|..] == [];
  }

  /** The first positional token its slot refuses ends the parse with
      checkAndSet's exception; the slots before it keep their tokens. */
  lemma ParseStopsAtRefusedPositional(reg: Registry, tokens: seq<string>, i: nat)
    requires WellFormed(reg)
    requires i < |tokens| && i < |reg.positional|
    requires forall k :: 0 <= k <= i ==> PlainToken(tokens[k])
    requires SlotsAccept(reg, tokens[..i])
    requires CheckValue(reg, reg.args[reg.positional[i]], tokens[i]).Some?
    ensures ParseSpec(reg, tokens) == ParseResult(FillSlots(reg, tokens[..i]),
              Failure(CheckValue(reg, reg.args[reg.positional[i]], tokens[i]).value))
  {
    PositionalRun(reg, tokens, i);
    SlotStep(reg, tokens, i);
  }

  /** PlainCommandLine from slot i on. */
  lemma {:induction false} PlainCommandLineFrom(reg: Registry, tokens: seq<string>, i: nat)
    requires WellFormed(reg)
    requires forall k :: 0 <= k < |tokens| ==> PlainToken(tokens[k])
    requires i <= |tokens| && i <= |reg.positional| && SlotsAccept(reg, tokens[..i])
    ensures ParseLoop(reg, FillSlots(reg, tokens[..i]), tokens[i..], i, []).outcome == Success <==>
              |tokens| == |reg.positional| && SlotsAccept(reg, tokens)
    decreases |tokens| - i
  {
    if i == |tokens| {
      assert tokens[..i] == tokens && tokens[i..] == [];
    } else if i == |reg.positional| {
      assert tokens[i..][0] == tokens[i];
      PlainTokenIsPositional(tokens[i]);
    } else {
      SlotStep(reg, tokens, i);
      if CheckValue(reg, reg.args[reg.positional[i]], tokens[i]).None? {
        assert SlotsAccept(reg, tokens[..i + 1]) by {
          forall k | 0 <= k < i + 1
            ensures CheckValue(reg, reg.args[reg.positional[k]], tokens[..i + 1][k]) == None
          {
            if k < i {
              assert tokens[..i][k] == tokens[..i + 1][k];
            }
          }
        }
        PlainCommandLineFrom(reg, tokens, i + 1);
      }
    }
  }

  /** A plain command line succeeds exactly when it has one token per
      positional slot and every slot accepts its token. */
  lemma PlainCommandLine(reg: Registry, tokens: seq<string>)
    requires WellFormed(reg)
    requires forall k :: 0 <= k < |tokens| ==> PlainToken(tokens[k])
    ensures ParseSpec(reg, tokens).outcome == Success <==>
              |tokens| == |reg.positional| && SlotsAccept(reg, tokens)
  {
    assert tokens[..0] == [] && tokens[0..] == tokens;
    PlainCommandLineFrom(reg, tokens, 0);
  }

  // ------------------------------------------------------------ help token

  /** "-h" or "--help" at the head of the queue throws the help message,
      whatever follows it and whatever was assigned before. */
  lemma HelpTokenStops(reg: Registry, vals: Assigned, queue: seq<string>, posIndex: nat, enc: seq<string>)
    requires WellFormed(reg) && EncounteredOk(reg, enc)
    requires queue != [] && (queue[0] == "-h" || queue[0] == "--help")
    ensures ParseLoop(reg, vals, queue, posIndex, enc) == ParseResult(vals, Failure(Help(HelpMessage(reg))))
  {
  }

  /** Help after some positional tokens: the values they set stay set. */
  lemma HelpAfterPositionals(reg: Registry, prefix: seq<string>, rest: seq<string>)
    requires WellFormed(reg)
    requires forall k :: 0 <= k < |prefix| ==> PlainToken(prefix[k])
    requires |prefix| <= |reg.positional| && SlotsAccept(reg, prefix)
    ensures ParseSpec(reg, prefix + ["--help"] + rest) ==
              ParseResult(FillSlots(reg, prefix), Failure(Help(HelpMessage(reg))))
  {
    var tokens := prefix + ["--help"] + rest;
    var n := |prefix|;
    assert tokens[..n] == prefix;
    forall k | 0 <= k < n ensures PlainToken(tokens[k]) {
      assert tokens[k] == prefix[k];
    }
    PositionalRun(reg, tokens, n);
    assert tokens[n..][0] == "--help";
  }

  // ---------------------------------------------------------- long options

  /** The name a "--" option is recorded under for the mutual-exclusion
      check, if any. */
  function Recorded(reg: Registry, key: string, enc: seq<string>): seq<string>
    requires key in reg.args
  {
    if key in reg.named && reg.args[key].mutex != {} then enc + [key] else enc
  }

  /** An undeclared "--" option is skipped. */
  lemma LongOptionSkipped(reg: Registry, vals: Assigned, queue: seq<string>, posIndex: nat, enc: seq<string>)
    requires WellFormed(reg) && EncounteredOk(reg, enc)
    requires queue != [] && StartsWith(queue[0], "--") && queue[0] != "--help"
    requires queue[0] !in reg.args
    ensures ParseStep(reg, vals, queue, posIndex, enc) == Next(vals, queue[1..], posIndex, enc)
  {
    LongOptionIsNotShortHelp(queue[0]);
  }

  /** A declared boolean "--" option becomes "true" and consumes no token. */
  lemma LongOptionFlag(reg: Registry, vals: Assigned, queue: seq<string>, posIndex: nat, enc: seq<string>)
    requires WellFormed(reg) && EncounteredOk(reg, enc)
    requires queue != [] && StartsWith(queue[0], "--") && queue[0] != "--help"
    requires queue[0] in reg.args && reg.args[queue[0]].kind == Named && reg.args[queue[0]].typ == "boolean"
    ensures ParseStep(reg, vals, queue, posIndex, enc) ==
              Next(vals[queue[0] := "true"], queue[1..], posIndex, Recorded(reg, queue[0], enc))
  {
    LongOptionIsNotShortHelp(queue[0]);
    assert reg.args[queue[0]].name == queue[0];
  }

  /** Any other declared "--" option takes the next token when checkAndSet
      accepts it. */
  lemma LongOptionTakesValue(reg: Registry, vals: Assigned, queue: seq<string>, posIndex: nat, enc: seq<string>)
    requires WellFormed(reg) && EncounteredOk(reg, enc)
    requires |queue| >= 2 && StartsWith(queue[0], "--") && queue[0] != "--help"
    requires queue[0] in reg.args && reg.args[queue[0]].kind == Named && reg.args[queue[0]].typ != "boolean"
    requires CheckValue(reg, reg.args[queue[0]], queue[1]) == None
    ensures ParseStep(reg, vals, queue, posIndex, enc) ==
              Next(vals[queue[0] := queue[1]], queue[2..], posIndex, Recorded(reg, queue[0], enc))
  {
    LongOptionIsNotShortHelp(queue[0]);
    assert reg.args[queue[0]].name == queue[0];
    assert queue[1..][0] == queue[1] && queue[1..][1..] == queue[2..];
  }

  /** A value checkAndSet refuses ends the parse with its exception, and no
      value is assigned. */
  lemma LongOptionRefusesValue(reg: Registry, vals: Assigned, queue: seq<string>, posIndex: nat, enc: seq<string>)
    requires WellFormed(reg) && EncounteredOk(reg, enc)
    requires |queue| >= 2 && StartsWith(queue[0], "--") && queue[0] != "--help"
    requires queue[0] in reg.args && reg.args[queue[0]].typ != "boolean"
    requires CheckValue(reg, reg.args[queue[0]], queue[1]).Some?
    ensures ParseStep(reg, vals, queue, posIndex, enc) == Threw(vals, CheckValue(reg, reg.args[queue[0]], queue[1]).value)
  {
    LongOptionIsNotShortHelp(queue[0]);
    assert queue[1..][0] == queue[1];
  }

  /** A value-taking "--" option as the last token removes from an empty
      queue. */
  lemma LongOptionMissingValue(reg: Registry, vals: Assigned, queue: seq<string>, posIndex: nat, enc: seq<string>)
    requires WellFormed(reg) && EncounteredOk(reg, enc)
    requires |queue| == 1 && StartsWith(queue[0], "--") && queue[0] != "--help"
    requires queue[0] in reg.args && reg.args[queue[0]].typ != "boolean"
    ensures ParseStep(reg, vals, queue, posIndex, enc) == Threw(vals, NoSuchElement)
  {
    LongOptionIsNotShortHelp(queue[0]);
  }

  /** A plain Argument listed as named (registered through setArgument under a
      "--" name) cannot be given on the command line: the cast fails after its
      value is set. */
  lemma PlainLongOptionFailsCast(reg: Registry, vals: Assigned, queue: seq<string>, posIndex: nat, enc: seq<string>)
    requires WellFormed(reg) && EncounteredOk(reg, enc)
    requires queue != [] && StartsWith(queue[0], "--") && queue[0] != "--help"
    requires queue[0] in reg.args && queue[0] in reg.named && reg.args[queue[0]].kind == Plain
    requires reg.args[queue[0]].typ == "boolean"
    ensures ParseStep(reg, vals, queue, posIndex, enc) == Threw(vals[queue[0] := "true"], ClassCast)
  {
    LongOptionIsNotShortHelp(queue[0]);
  }

  // --------------------------------------------------------- short options

  /** A two-character "-c" token: a flag "-c" becomes "true" whatever its
      type; a short form of a boolean becomes "true"; an unknown one is
      skipped. None of them is recorded for the mutual-exclusion check. */
  lemma ShortOptionCases(reg: Registry, vals: Assigned, queue: seq<string>, posIndex: nat, enc: seq<string>)
    requires WellFormed(reg) && EncounteredOk(reg, enc)
    requires queue != [] && |queue[0]| == 2 && queue[0][0] == '-' && queue[0][1] != '-' && queue[0] != "-h"
    ensures var tok := queue[0];
            tok in reg.args ==>
              ParseStep(reg, vals, queue, posIndex, enc) == Next(vals[tok := "true"], queue[1..], posIndex, enc)
    ensures var tok := queue[0];
            tok !in reg.args && tok !in reg.shortForms ==>
              ParseStep(reg, vals, queue, posIndex, enc) == Next(vals, queue[1..], posIndex, enc)
    ensures var tok := queue[0];
            tok !in reg.args && tok in reg.shortForms && reg.args[reg.shortForms[tok]].typ == "boolean" ==>
              ParseStep(reg, vals, queue, posIndex, enc) ==
                Next(vals[reg.shortForms[tok] := "true"], queue[1..], posIndex, enc)
  {
    ShortTokenIsSingleDash(queue[0]);
  }

  /** A short form of a value-taking argument takes the next token through
      checkAndSet, like the long form but without the mutual-exclusion
      bookkeeping; a missing or refused value ends the parse with nothing
      assigned. */
  lemma ShortFormTakesValue(reg: Registry, vals: Assigned, queue: seq<string>, posIndex: nat, enc: seq<string>)
    requires WellFormed(reg) && EncounteredOk(reg, enc)
    requires queue != [] && |queue[0]| == 2 && queue[0][0] == '-' && queue[0][1] != '-' && queue[0] != "-h"
    requires queue[0] !in reg.args && queue[0] in reg.shortForms
    requires reg.args[reg.shortForms[queue[0]]].typ != "boolean"
    ensures |queue| == 1 ==> ParseStep(reg, vals, queue, posIndex, enc) == Threw(vals, NoSuchElement)
    ensures var long := reg.shortForms[queue[0]];
            |queue| >= 2 ==>
              ParseStep(reg, vals, queue, posIndex, enc) ==
                match CheckValue(reg, reg.args[long], queue[1])
                case Some(e) => Threw(vals, e)
                case None => Next(vals[long := queue[1]], queue[2..], posIndex, enc)
  {
    ShortTokenIsSingleDash(queue[0]);
    if |queue| >= 2 {
      assert queue[1..][0] == queue[1] && queue[1..][1..] == queue[2..];
    }
  }

  // --------------------------------------------------------------- clusters

  /** A cluster succeeds exactly when every letter from i on is a flag or a
      short form. */
  lemma {:induction false} ClusterSucceeds(reg: Registry, vals: Assigned, tok: string, i: nat)
    requires WellFormed(reg) && 1 <= i <= |tok|
    ensures SetCluster(reg, vals, tok, i).outcome == Success <==> forall k :: i <= k < |tok| ==> Resolvable(reg, tok[k])
    decreases |tok| - i
  {
    if i < |tok| && Resolvable(reg, tok[i]) {
      ClusterSucceeds(reg, vals[ClusterTarget(reg, tok[i]) := "true"], tok, i + 1);
    }
  }

  /** The first letter that is neither a flag nor a short form is reported as
      an unrecognized flag. */
  lemma {:induction false} ClusterReportsFirstUnknown(reg: Registry, vals: Assigned, tok: string, i: nat, k: nat)
    requires WellFormed(reg) && 1 <= i <= k < |tok|
    requires !Resolvable(reg, tok[k]) && forall j :: i <= j < k ==> Resolvable(reg, tok[j])
    ensures SetCluster(reg, vals, tok, i).outcome ==
              Failure(UnrecognizedArgument(ErrorMessage(reg, "unrecognized flag: " + ['-', tok[k]])))
    decreases k - i
  {
    if i < k {
      ClusterReportsFirstUnknown(reg, vals[ClusterTarget(reg, tok[i]) := "true"], tok, i + 1, k);
    }
  }

  /** A cluster only ever assigns "true": every argument ends with the value
      it had or with "true". */
  lemma {:induction false} ClusterOnlySetsTrue(reg: Registry, vals: Assigned, tok: string, i: nat, n: string)
    requires WellFormed(reg) && 1 <= i <= |tok| && n in reg.args
    ensures var v := Current(reg, SetCluster(reg, vals, tok, i).vals, n);
            v == Current(reg, vals, n) || v == "true"
    decreases |tok| - i
  {
    if i < |tok| && Resolvable(reg, tok[i]) {
      var t := ClusterTarget(reg, tok[i]);
      var vals1 := vals[t := "true"];
      assert Current(reg, vals1, n) == if n == t then "true" else Current(reg, vals, n);
      ClusterOnlySetsTrue(reg, vals1, tok, i + 1, n);
    }
  }

  /** Every letter up to the first unknown one has its target set to "true",
      whatever the target's type; the values stay set when a later letter
      throws. */
  lemma {:induction false} ClusterSetsTarget(reg: Registry, vals: Assigned, tok: string, i: nat, k: nat)
    requires WellFormed(reg) && 1 <= i <= k < |tok|
    requires forall j :: i <= j <= k ==> Resolvable(reg, tok[j])
    ensures Current(reg, SetCluster(reg, vals, tok, i).vals, ClusterTarget(reg, tok[k])) == "true"
    decreases k - i
  {
    var t := ClusterTarget(reg, tok[i]);
    var vals1 := vals[t := "true"];
    if i < k {
      ClusterSetsTarget(reg, vals1, tok, i + 1, k);
    } else {
      ClusterOnlySetsTrue(reg, vals1, tok, i + 1, t);
    }
  }

  // -------------------------------------------------------------- post-pass

  /** What the post-pass asks of an encountered argument once `first` is
      kept: it is not required with an empty value, and, when it excludes
      others, it does not conflict with `first`. */
  predicate PassesAfter(reg: Registry, vals: Assigned, name: string, first: string)
    requires name in reg.args && first in reg.args
  {
    && !(reg.args[name].required && Current(reg, vals, name) == "")
    && (reg.args[name].mutex != {} ==> !Conflicting(reg, reg.args[name], first))
  }

  lemma EncounteredTail(reg: Registry, enc: seq<string>)
    requires EncounteredOk(reg, enc) && enc != []
    ensures EncounteredOk(reg, enc[1..])
  {
    forall i | 0 <= i < |enc[1..]| ensures enc[1..][i] == enc[i + 1] { }
  }

  /** The exclusion step once `first` is kept: it keeps the list as it is,
      unless the argument excludes others and conflicts with `first`. */
  lemma ExclusionAfterFirst(reg: Registry, name: string, first: string)
    requires EncounteredOk(reg, [name]) && EncounteredOk(reg, [first])
    ensures name in reg.args && first in reg.args
    ensures ExclusionStep(reg, name, [first]) ==
              if reg.args[name].mutex != {} && Conflicting(reg, reg.args[name], first)
              then Err(MutuallyExclusiveArgument(ErrorMessage(reg,
                     "the following arguments are mutually exclusive: " + name + " and " + first)))
              else Ok([first])
  {
    assert [name][0] == name && [first][0] == first;
    assert [first][1..] == [];
  }

  /** One round of the post-pass once `first` is kept. */
  lemma PostPassAfterFirstStep(reg: Registry, vals: Assigned, enc: seq<string>, first: string)
    requires WellFormed(reg) && EncounteredOk(reg, enc) && EncounteredOk(reg, [first]) && enc != []
    ensures first in reg.args && EncounteredOk(reg, enc[1..])
    ensures PostPass(reg, vals, enc, [first]) == Success <==>
              PassesAfter(reg, vals, enc[0], first) && PostPass(reg, vals, enc[1..], [first]) == Success
  {
    EncounteredTail(reg, enc);
    assert EncounteredOk(reg, [enc[0]]);
    ExclusionAfterFirst(reg, enc[0], first);
  }

  /** The post-pass with the first exclusive argument already kept. */
  lemma {:induction false} PostPassAfterFirst(reg: Registry, vals: Assigned, enc: seq<string>, first: string)
    requires WellFormed(reg) && EncounteredOk(reg, enc) && EncounteredOk(reg, [first])
    ensures first in reg.args
    ensures PostPass(reg, vals, enc, [first]) == Success <==>
              forall i :: 0 <= i < |enc| ==> PassesAfter(reg, vals, enc[i], first)
    decreases |enc|
  {
    assert [first][0] == first;
    if enc != [] {
      PostPassAfterFirstStep(reg, vals, enc, first);
      PostPassAfterFirst(reg, vals, enc[1..], first);
      assert forall i :: 1 <= i < |enc| ==> enc[i] == enc[1..][i - 1];
    }
  }

  /** The post-pass only ever compares an encountered exclusive argument with
      the FIRST one: it succeeds exactly when no encountered argument is
      required with an empty value and no later exclusive argument conflicts
      with the first. Two later ones that exclude each other are not caught. */
  lemma PostPassOutcome(reg: Registry, vals: Assigned, enc: seq<string>)
    requires WellFormed(reg) && EncounteredOk(reg, enc)
    requires forall i :: 0 <= i < |enc| ==> enc[i] in reg.args && reg.args[enc[i]].mutex != {}
    ensures PostPass(reg, vals, enc, []) == Success <==>
              && (enc != [] ==> !(reg.args[enc[0]].required && Current(reg, vals, enc[0]) == ""))
              && (forall i :: 1 <= i < |enc| ==> PassesAfter(reg, vals, enc[i], enc[0]))
  {
    if enc != [] {
      assert reg.args[enc[0]].name == enc[0];
      EncounteredTail(reg, enc);
      assert EncounteredOk(reg, [enc[0]]);
      assert ExclusionStep(reg, enc[0], []) == Ok([enc[0]]);
      PostPassAfterFirst(reg, vals, enc[1..], enc[0]);
      assert forall i :: 1 <= i < |enc| ==> enc[i] == enc[1..][i - 1];
    }
  }
}
