/** XML.parseXML, handleCharacters, setPositionalFromXML and setNamedFromXML:
    reading an argument specification from a stream of reader events into a
    parser. The file is the input: None stands for a file that cannot be
    opened, which parseXML reports on the console and otherwise ignores. */
module XmlImport {
  import opened Errors
  import opened JavaStrings
  import opened Arguments
  import opened Registries
  import opened XmlEvents
  import opened Parser

  /** The element names whose text parseXML reads. */
  const Fields: set<string> := {"name", "shortname", "type", "position", "default", "accepted"}

  /** attMap as parseXML seeds it: every field but "accepted", mapped to "".
      It is never reset, so an element that lacks a field sees the value the
      previous element gave it. */
  const Seed: map<string, string> := map["name" := "", "shortname" := "", "type" := "", "position" := "", "default" := ""]

  /** What parseXML's attMap holds throughout: every seeded field, and
      never a "required" or "mutex" entry, since no field tag writes one. */
  ghost predicate Seeded(att: map<string, string>)
  {
    forall k :: (k in Seed ==> k in att) && (k == "required" || k == "mutex" ==> k !in att)
  }

  lemma SeedIsSeeded()
    ensures Seeded(Seed)
  { }

  /** parseXML's local state between two events: attMap, the accepted set,
      posMap (as the declarations of its Argument objects), positionalCount,
      and the parser it has written to so far. */
  datatype Reading = Reading(
    att: map<string, string>,
    accepted: set<string>,
    posMap: map<int, ArgInfo>,
    positionalCount: nat,
    reg: Registry)

  /** After some events: still reading, with the index of the next event, or
      stopped by an exception, with the parser as the exception left it. */
  datatype Progress = Going(st: Reading, next: nat) | Stopped(reg: Registry, error: ArgError)

  /** The parser in p is well formed. */
  ghost predicate Sound(p: Progress)
  {
    match p
    case Going(st, _) => WellFormed(st.reg)
    case Stopped(reg, _) => WellFormed(reg)
  }

  /** After the whole stream: the reader's state, or the exception that
      stopped it with the parser as the exception left it. */
  datatype ReadResult = Read(st: Reading) | Thrown(reg: Registry, error: ArgError)

  ghost predicate SoundResult(r: ReadResult)
  {
    match r
    case Read(st) => WellFormed(st.reg)
    case Thrown(reg, _) => WellFormed(reg)
  }

  /** How parseXML ends: the parser, and whether it threw. */
  datatype Imported = Imported(reg: Registry, outcome: Outcome)

  function Initial(reg: Registry): Reading
  {
    Reading(Seed, {}, map[], 0, reg)
  }

  /** handleCharacters: an accepted value joins the set; any other field
      overwrites its entry. */
  function HandleCharacters(st: Reading, name: string, text: string): (r: Reading)
    ensures name in Fields && Seeded(st.att) ==> Seeded(r.att)
  {
    if name == "accepted" then st.(accepted := st.accepted + {text})
    else st.(att := st.att[name := text])
  }

  /** setPositionalFromXML's Argument: name, type and accepted values. */
  function PositionalFromXml(att: map<string, string>, accepted: set<string>): ArgInfo
    requires "name" in att && "type" in att
  {
    PlainInfo(att["name"]).(typ := att["type"], accepted := accepted)
  }

  /** setNamedFromXML's NamedArgument: "--" before the name, required when a
      "required" entry exists and otherwise with the default, then type,
      accepted values and a mutex partner when a non-empty "mutex" entry
      exists. */
  function NamedFromXml(att: map<string, string>, accepted: set<string>): ArgInfo
    requires "name" in att && "type" in att && "default" in att
  {
    var name := "--" + att["name"];
    var arg := if "required" in att then RequiredInfo(name) else NamedInfo(name, att["default"]);
    var typed := arg.(typ := att["type"], accepted := accepted);
    match Get(att, "mutex")
    case Some(m) => if m != "" then typed.(mutex := typed.mutex + {m}) else typed
    case None => typed
  }

  /** The NamedArgument setNamedFromXML builds from a seeded attMap: "--"
      before the name, the default as its value, the type and the accepted
      values. */
  function ImportedNamed(name: string, default: string, typ: string, accepted: set<string>): ArgInfo
  {
    NamedInfo("--" + name, default).(typ := typ, accepted := accepted)
  }

  /** Since attMap never holds "required" or "mutex", every NamedArgument
      parseXML builds carries its default, is not required and has no
      partners. */
  lemma NamedFromSeeded(att: map<string, string>, accepted: set<string>)
    requires Seeded(att)
    ensures NamedFromXml(att, accepted) == ImportedNamed(att["name"], att["default"], att["type"], accepted)
    ensures var a := NamedFromXml(att, accepted);
            a.kind == Named && !a.IsRequired() && a.mutex == {} && a.nicknames == "-"
  {
    assert "required" !in att && "mutex" !in att;
  }

  function Get(att: map<string, string>, key: string): Option<string>
  {
    if key in att then Some(att[key]) else None
  }

  /** setNamedFromXML's effect on the parser: setNickname with "-" and the
      shortname when one is recorded, setArgument otherwise. */
  function DeclareNamedFromXml(reg: Registry, att: map<string, string>, accepted: set<string>): (r: Registry)
    requires "name" in att && "type" in att && "default" in att
    ensures WellFormed(reg) ==> WellFormed(r)
  {
    var arg := NamedFromXml(att, accepted);
    match Get(att, "shortname")
    case Some(s) => if s != "" then DeclareNickname(reg, arg, "-" + s) else DeclareArgument(reg, arg)
    case None => reg
  }

  /** A start tag: positional and named clear the accepted set; a field tag
      takes the next event as its text. */
  function StartStep(st: Reading, ev: seq<XmlEvent>, i: nat, tag: string): (r: Progress)
    requires i < |ev| && Seeded(st.att)
    ensures r.Going? ==> i < r.next <= |ev| && Seeded(r.st.att)
  {
    var qName := ToLower(tag);
    var st1 := if qName == "positional" || qName == "named" then st.(accepted := {}) else st;
    if qName !in Fields then Going(st1, i + 1)
    else if i + 1 == |ev| then Stopped(st.reg, NoSuchElement)
    else
      match ev[i + 1]
      case Chars(text) => Going(HandleCharacters(st1, qName, text), i + 2)
      case Malformed => Stopped(st.reg, BadXML)
      case _ => Stopped(st.reg, ClassCast)
  }

  /** An end tag: positional buffers its Argument under the parsed position,
      named declares its argument on the parser at once. */
  function EndStep(st: Reading, i: nat, tag: string): (r: Progress)
    requires Seeded(st.att)
    ensures r.Going? ==> r.next == i + 1 && Seeded(r.st.att)
  {
    var qName := ToLower(tag);
    if qName == "positional" then
      match ParseInt(st.att["position"])
      case None => Stopped(st.reg, NumberFormat)
      case Some(p) =>
        Going(st.(positionalCount := st.positionalCount + 1,
                  posMap := st.posMap[p := PositionalFromXml(st.att, st.accepted)]), i + 1)
    else if qName == "named" then
      Going(st.(reg := DeclareNamedFromXml(st.reg, st.att, st.accepted)), i + 1)
    else Going(st, i + 1)
  }

  /** One turn of parseXML's event loop. */
  function Step(st: Reading, ev: seq<XmlEvent>, i: nat): (r: Progress)
    requires i < |ev| && Seeded(st.att)
    ensures r.Going? ==> i < r.next <= |ev| && Seeded(r.st.att)
  {
    match ev[i]
    case Start(tag) => StartStep(st, ev, i, tag)
    case End(tag) => EndStep(st, i, tag)
    case Malformed => Stopped(st.reg, BadXML)
    case _ => Going(st, i + 1)
  }

  /** The event loop from event i to the end of the stream. */
  function Run(st: Reading, ev: seq<XmlEvent>, i: nat): (r: ReadResult)
    requires i <= |ev| && Seeded(st.att)
    ensures r.Read? ==> Seeded(r.st.att)
    decreases |ev| - i
  {
    if i == |ev| then Read(st)
    else
      match Step(st, ev, i)
      case Stopped(reg, e) => Thrown(reg, e)
      case Going(st1, j) => Run(st1, ev, j)
  }

  /** The NamedArgument setNamedFromXML builds. */
  method NamedArgumentFromXml(attMap: map<string, string>, acc: set<string>) returns (arg: Argument)
    requires "name" in attMap && "type" in attMap && "default" in attMap
    ensures fresh(arg) && arg.kind == Named && arg.Info() == NamedFromXml(attMap, acc)
  {
    if "required" in attMap {
      arg := new Argument.Required("--" + attMap["name"]);
    } else {
      arg := new Argument.Named("--" + attMap["name"], attMap["default"]);
    }
    arg.SetType(attMap["type"]);
    var values := ToArray(acc);
    arg.AddAcceptedValues(values);
    assert {} + acc == acc;
    if "mutex" in attMap {
      if attMap["mutex"] != "" {
        arg.AddMutuallyExclusiveArg(attMap["mutex"]);
      }
    }
  }

  /** No event leaves the parser ill formed. */
  lemma StepKeepsWellFormed(st: Reading, ev: seq<XmlEvent>, i: nat)
    requires i < |ev| && Seeded(st.att)
    ensures WellFormed(st.reg) ==> Sound(Step(st, ev, i))
  {
  }

  lemma {:induction false} RunKeepsWellFormed(st: Reading, ev: seq<XmlEvent>, i: nat)
    requires i <= |ev| && Seeded(st.att)
    ensures WellFormed(st.reg) ==> SoundResult(Run(st, ev, i))
    decreases |ev| - i
  {
    if i < |ev| {
      StepKeepsWellFormed(st, ev, i);
      match Step(st, ev, i)
      case Stopped(_, _) =>
      case Going(st1, j) => RunKeepsWellFormed(st1, ev, j);
    }
  }

  /** parseXML's last loop: setArgument for positions i..count in turn; a
      missing position hands null to setArgument. */
  function Flush(reg: Registry, posMap: map<int, ArgInfo>, i: nat, count: nat): (r: Imported)
    ensures WellFormed(reg) ==> WellFormed(r.reg)
    decreases count + 1 - i
  {
    if i > count then Imported(reg, Success)
    else if i !in posMap then Imported(reg, Failure(NullPointer))
    else Flush(DeclareArgument(reg, posMap[i]), posMap, i + 1, count)
  }

  /** parseXML */
  function ImportXml(reg: Registry, input: Option<seq<XmlEvent>>): (r: Imported)
    ensures WellFormed(reg) ==> WellFormed(r.reg)
  {
    match input
    case None => Imported(reg, Success)
    case Some(ev) =>
      SeedIsSeeded();
      RunKeepsWellFormed(Initial(reg), ev, 0);
      match Run(Initial(reg), ev, 0)
      case Thrown(r, e) => Imported(r, Failure(e))
      case Read(st) => Flush(st.reg, st.posMap, 1, st.positionalCount)
  }

  // ------------------------------------------------------------ the reader

  /** posMap's Argument objects, read as their declarations. */
  function PosInfos(posMap: map<int, Argument>): map<int, ArgInfo>
    reads posMap.Values
  {
    map k | k in posMap :: posMap[k].Info()
  }

  /** acc.toArray: the members of a set, in some order. */
  method ToArray(acc: set<string>) returns (r: seq<string>)
    ensures (set x | x in r) == acc
  {
    r := [];
    var rest := acc;
    while rest != {}
      invariant (set x | x in r) + rest == acc
      decreases rest
    {
      var x :| x in rest;
      r := r + [x];
      rest := rest - {x};
    }
  }

  /** parseXML */
  method ParseXml(input: Option<seq<XmlEvent>>, parser: ArgumentParser) returns (r: Outcome)
    requires parser.Valid()
    modifies parser
    ensures parser.Valid() && Imported(parser.Snapshot(), r) == ImportXml(old(parser.Snapshot()), input)
  {
    if input.None? {
      return Success;
    }
    var ev := input.value;
    ghost var reg0 := parser.Snapshot();
    var positionalCount := 0;
    var accepted: set<string> := {};
    var posMap: map<int, Argument> := map[];
    var attMap := Seed;
    SeedIsSeeded();
    var i := 0;
    while i < |ev|
      invariant i <= |ev| && Seeded(attMap) && parser.Valid()
      invariant Run(Initial(reg0), ev, 0) ==
                Run(Reading(attMap, accepted, PosInfos(posMap), positionalCount, parser.Snapshot()), ev, i)
      decreases |ev| - i
    {
      var err;
      attMap, accepted, posMap, positionalCount, i, err :=
        ReadEvent(ev, i, attMap, accepted, posMap, positionalCount, parser);
      if err.Some? {
        return Failure(err.value);
      }
    }
    r := FlushPositionals(posMap, positionalCount, parser);
  }

  /** One turn of parseXML's event loop. */
  method ReadEvent(ev: seq<XmlEvent>, i: nat, attMap: map<string, string>, accepted: set<string>,
                   posMap: map<int, Argument>, positionalCount: nat, parser: ArgumentParser)
    returns (attMap': map<string, string>, accepted': set<string>, posMap': map<int, Argument>,
             positionalCount': nat, next: nat, err: Option<ArgError>)
    requires i < |ev| && Seeded(attMap) && parser.Valid()
    modifies parser
    ensures parser.Valid()
    ensures var p := Step(Reading(attMap, accepted, PosInfos(posMap), positionalCount, old(parser.Snapshot())), ev, i);
            if p.Stopped? then err == Some(p.error) && parser.Snapshot() == p.reg
            else err == None && p == Going(Reading(attMap', accepted', PosInfos(posMap'), positionalCount', parser.Snapshot()), next)
  {
    ghost var st := Reading(attMap, accepted, PosInfos(posMap), positionalCount, parser.Snapshot());
    attMap', accepted', posMap', positionalCount', next, err := attMap, accepted, posMap, positionalCount, i + 1, None;
    match ev[i]
    case Start(tag) =>
      attMap', accepted', next, err := StartElement(ev, i, tag, attMap, accepted, st);
    case End(tag) =>
      posMap', positionalCount', err := EndElement(tag, attMap, accepted, posMap, positionalCount, parser, st);
    case Malformed =>
      err := Some(BadXML);
    case _ =>
  }

  /** A START_ELEMENT event. */
  method StartElement(ev: seq<XmlEvent>, i: nat, tag: string, attMap: map<string, string>,
                      accepted: set<string>, ghost st: Reading)
    returns (attMap': map<string, string>, accepted': set<string>, next: nat, err: Option<ArgError>)
    requires i < |ev| && Seeded(attMap) && st.att == attMap && st.accepted == accepted
    ensures var p := StartStep(st, ev, i, tag);
            if p.Stopped? then err == Some(p.error) && p.reg == st.reg
            else err == None && p == Going(st.(att := attMap', accepted := accepted'), next)
  {
    var qName := ToLower(tag);
    attMap', accepted', next, err := attMap, accepted, i + 1, None;
    if qName == "positional" || qName == "named" {
      accepted' := {};
    }
    if qName in Fields {
      if i + 1 == |ev| {
        err := Some(NoSuchElement);
      } else {
        match ev[i + 1]
        case Chars(text) =>
          if qName == "accepted" {
            accepted' := accepted' + {text};
          } else {
            attMap' := attMap'[qName := text];
          }
          next := i + 2;
        case Malformed =>
          err := Some(BadXML);
        case _ =>
          err := Some(ClassCast);
      }
    }
  }

  /** An END_ELEMENT event. */
  method EndElement(tag: string, attMap: map<string, string>, accepted: set<string>,
                    posMap: map<int, Argument>, positionalCount: nat, parser: ArgumentParser, ghost st: Reading)
    returns (posMap': map<int, Argument>, positionalCount': nat, err: Option<ArgError>)
    requires Seeded(attMap) && parser.Valid()
    requires st == Reading(attMap, accepted, PosInfos(posMap), positionalCount, parser.Snapshot())
    modifies parser
    ensures parser.Valid()
    ensures var p := EndStep(st, 0, tag);
            if p.Stopped? then err == Some(p.error) && parser.Snapshot() == p.reg
            else err == None && p.st == Reading(attMap, accepted, PosInfos(posMap'), positionalCount', parser.Snapshot())
  {
    posMap', positionalCount', err := posMap, positionalCount, None;
    var qName := ToLower(tag);
    if qName == "positional" || qName == "named" {
      if qName == "positional" {
        positionalCount' := positionalCount + 1;
        posMap', err := SetPositionalFromXml(attMap, posMap, accepted);
      } else if qName == "named" {
        SetNamedFromXml(attMap, accepted, parser);
      }
    }
  }

  /** setPositionalFromXML: the Argument is buffered under its position. */
  method SetPositionalFromXml(attMap: map<string, string>, posMap: map<int, Argument>, acc: set<string>)
    returns (posMap': map<int, Argument>, err: Option<ArgError>)
    requires "name" in attMap && "type" in attMap && "position" in attMap
    ensures match ParseInt(attMap["position"])
            case None => err == Some(NumberFormat)
            case Some(p) => err == None && PosInfos(posMap') == PosInfos(posMap)[p := PositionalFromXml(attMap, acc)]
  {
    var arg := new Argument(attMap["name"]);
    arg.SetType(attMap["type"]);
    var values := ToArray(acc);
    arg.AddAcceptedValues(values);
    assert {} + acc == acc;
    posMap' := posMap;
    var position := ParseInt(attMap["position"]);
    if position.None? {
      return posMap, Some(NumberFormat);
    }
    posMap' := posMap[position.value := arg];
    err := None;
  }

  /** setNamedFromXML: the NamedArgument is declared on the parser at once,
      with setNickname when a shortname is recorded. */
  method SetNamedFromXml(attMap: map<string, string>, acc: set<string>, parser: ArgumentParser)
    requires "name" in attMap && "type" in attMap && "default" in attMap
    requires parser.Valid()
    modifies parser
    ensures parser.Valid() && parser.Snapshot() == DeclareNamedFromXml(old(parser.Snapshot()), attMap, acc)
  {
    var arg := NamedArgumentFromXml(attMap, acc);
    if "shortname" in attMap {
      if attMap["shortname"] != "" {
        parser.SetNickname(arg, "-" + attMap["shortname"]);
      } else {
        parser.SetArgumentObject(arg);
      }
    }
  }

  /** parseXML's last loop: the buffered positionals in position order. */
  method FlushPositionals(posMap: map<int, Argument>, positionalCount: nat, parser: ArgumentParser)
    returns (r: Outcome)
    requires parser.Valid()
    modifies parser
    ensures parser.Valid()
    ensures Imported(parser.Snapshot(), r) == Flush(old(parser.Snapshot()), PosInfos(posMap), 1, positionalCount)
  {
    for i := 1 to positionalCount + 1
      invariant parser.Valid()
      invariant Flush(old(parser.Snapshot()), PosInfos(posMap), 1, positionalCount) ==
                Flush(parser.Snapshot(), PosInfos(posMap), i, positionalCount)
    {
      if i !in posMap {
        return Failure(NullPointer);
      }
      parser.SetArgumentObject(posMap[i]);
    }
    r := Success;
  }
}
