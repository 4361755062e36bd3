/** XML.createXML, writePositionalXML and writeNamedXML: the writer calls the
    export makes for a registry, and the text they produce. The document
    prolog the writer emits is removed again by createXML, so it is left out
    here. */
module XmlExport {
  import opened Errors
  import opened JavaStrings
  import opened Arguments
  import opened Registries
  import opened XmlEvents

  /** The order in which a HashSet, or a HashMap's key set, is iterated: some
      order of its members, the same one each time for the same set. */
  ghost function Enumerate(s: set<string>): (r: seq<string>)
    ensures |r| == |s|
    ensures forall x :: x in r <==> x in s
  {
    if s == {} then []
    else
      var x :| x in s;
      [x] + Enumerate(s - {x})
  }

  /** One <accepted> element per accepted value; none for the empty set. */
  ghost function AcceptedEvents(accepted: set<string>): seq<XmlEvent>
  {
    if accepted == {} then [] else TextElements("accepted", Enumerate(accepted))
  }

  /** writePositionalXML: name, type and 1-based position, then the accepted
      values; a name that is not registered makes Java dereference null. */
  ghost function PositionalEvents(reg: Registry, name: string, position: nat): Result<seq<XmlEvent>>
  {
    if name !in reg.args then Err(NullPointer)
    else
      var arg := reg.args[name];
      Ok([Start("positional")] + TextElement("name", arg.name) + TextElement("type", arg.typ)
         + TextElement("position", NatToString(position)) + AcceptedEvents(arg.accepted)
         + [End("positional")])
  }

  /** createXML's first loop, numbering the positionals from position. */
  ghost function PositionalsEvents(reg: Registry, names: seq<string>, position: nat): Result<seq<XmlEvent>>
  {
    if names == [] then Ok([])
    else
      match PositionalEvents(reg, names[0], position)
      case Err(e) => Err(e)
      case Ok(head) =>
        match PositionalsEvents(reg, names[1..], position + 1)
        case Err(e) => Err(e)
        case Ok(tail) => Ok(head + tail)
  }

  /** Each nickname letter after the leading '-' as a one-letter string. */
  function NicknameLetters(nicknames: string): (r: seq<string>)
    ensures |r| == if nicknames == [] then 0 else |nicknames| - 1
    ensures forall i :: 0 <= i < |r| ==> r[i] == [nicknames[i + 1]]
  {
    if |nicknames| <= 1 then [] else [[nicknames[1]]] + NicknameLetters(nicknames[1..])
  }

  /** One <shortname> per nickname letter, none when the nicknames are "-". */
  function ShortnameEvents(nicknames: string): seq<XmlEvent>
  {
    if nicknames == "-" then [] else TextElements("shortname", NicknameLetters(nicknames))
  }

  /** A required argument exports an empty default; any other its current
      value, which is not necessarily the one it was declared with. */
  function RequiredEvents(arg: ArgInfo): seq<XmlEvent>
  {
    if arg.IsRequired() then TextElement("required", "true") + TextElement("default", "")
    else TextElement("required", "false") + TextElement("default", arg.value)
  }

  /** The mutex scan over the entries of the argument map, in iteration
      order: every other "--" key whose argument lists arg back. A "--" key
      holding a plain Argument fails the cast to NamedArgument. */
  ghost function MutexEvents(reg: Registry, arg: ArgInfo, keys: seq<string>): Result<seq<XmlEvent>>
    requires forall k :: k in keys ==> k in reg.args
  {
    if keys == [] then Ok([])
    else
      var k := keys[0];
      var head: Result<seq<XmlEvent>> :=
        if StartsWith(k, "--") && k != arg.name then
          if reg.args[k].kind == Plain then Err(ClassCast)
          else if reg.args[k].HasMutualExclusiveArgs() && reg.args[k].IsMutuallyExclusive(arg.name)
          then Ok(TextElement("mutex", reg.args[k].name))
          else Ok([])
        else Ok([]);
      match head
      case Err(e) => Err(e)
      case Ok(h) =>
        match MutexEvents(reg, arg, keys[1..])
        case Err(e) => Err(e)
        case Ok(t) => Ok(h + t)
  }

  /** writeNamedXML: the name without its first two characters, the
      shortnames, required and default, type, mutex partners (only when the
      argument has some of its own) and accepted values. */
  ghost function NamedEvents(reg: Registry, name: string): Result<seq<XmlEvent>>
  {
    if name !in reg.args then Err(NullPointer)
    else
      var arg := reg.args[name];
      if arg.kind == Plain then Err(ClassCast)
      else if |arg.name| < 2 then Err(IndexOutOfBounds)
      else
        var mutex := if arg.HasMutualExclusiveArgs() then MutexEvents(reg, arg, Enumerate(reg.args.Keys)) else Ok([]);
        match mutex
        case Err(e) => Err(e)
        case Ok(m) =>
          Ok([Start("named")] + TextElement("name", arg.name[2..]) + ShortnameEvents(arg.nicknames)
             + RequiredEvents(arg) + TextElement("type", arg.typ) + m + AcceptedEvents(arg.accepted)
             + [End("named")])
  }

  /** createXML's second loop. */
  ghost function NamedsEvents(reg: Registry, names: seq<string>): Result<seq<XmlEvent>>
  {
    if names == [] then Ok([])
    else
      match NamedEvents(reg, names[0])
      case Err(e) => Err(e)
      case Ok(head) =>
        match NamedsEvents(reg, names[1..])
        case Err(e) => Err(e)
        case Ok(tail) => Ok(head + tail)
  }

  /** createXML: the positionals in order, numbered from 1, then the named
      arguments in order, inside one <arguments> element. */
  ghost function ExportEvents(reg: Registry): Result<seq<XmlEvent>>
  {
    match PositionalsEvents(reg, reg.positional, 1)
    case Err(e) => Err(e)
    case Ok(p) =>
      match NamedsEvents(reg, reg.named)
      case Err(e) => Err(e)
      case Ok(n) => Ok([Start("arguments")] + p + n + [End("arguments")])
  }

  /** createXML's result. */
  ghost function CreateXml(reg: Registry): (r: Result<string>)
    ensures r.Ok? <==> ExportEvents(reg).Ok?
    ensures r.Ok? ==> StartsWith(r.value, "<arguments>")
  {
    match ExportEvents(reg)
    case Err(e) => Err(e)
    case Ok(es) =>
      RenderAppend([Start("arguments")], es[1..]);
      assert es == [Start("arguments")] + es[1..];
      Ok(Render(es))
  }

  // ---------------------------------------------------------- properties

  /** What writeNamedXML needs of one listed named argument to succeed: a
      NamedArgument with a name of at least two characters and, when it has
      mutex partners of its own, no plain Argument under another "--" key. */
  ghost predicate NamedExportable(reg: Registry, arg: ArgInfo)
  {
    && arg.kind == Named
    && |arg.name| >= 2
    && (arg.mutex != {} ==>
          forall k :: k in reg.args && StartsWith(k, "--") && k != arg.name ==> reg.args[k].kind == Named)
  }

  ghost predicate Exportable(reg: Registry)
    requires WellFormed(reg)
  {
    forall i :: 0 <= i < |reg.named| ==> NamedExportable(reg, reg.args[reg.named[i]])
  }

  lemma {:induction false} PositionalsSucceed(reg: Registry, names: seq<string>, position: nat)
    requires forall i :: 0 <= i < |names| ==> names[i] in reg.args
    ensures PositionalsEvents(reg, names, position).Ok?
  {
    if names != [] {
      PositionalsSucceed(reg, names[1..], position + 1);
    }
  }

  /** The mutex scan fails exactly when it meets a plain Argument under a
      "--" key other than the argument's own name. */
  lemma {:induction false} MutexSucceedsIff(reg: Registry, arg: ArgInfo, keys: seq<string>)
    requires forall k :: k in keys ==> k in reg.args
    ensures MutexEvents(reg, arg, keys).Ok? <==>
            forall k :: k in keys && StartsWith(k, "--") && k != arg.name ==> reg.args[k].kind == Named
  {
    if keys != [] {
      MutexSucceedsIff(reg, arg, keys[1..]);
      assert forall k :: k in keys <==> k == keys[0] || k in keys[1..];
    }
  }

  lemma NamedSucceedsIff(reg: Registry, name: string)
    requires name in reg.args
    ensures NamedEvents(reg, name).Ok? <==> NamedExportable(reg, reg.args[name])
  {
    var arg := reg.args[name];
    if arg.kind == Named && |arg.name| >= 2 && arg.mutex != {} {
      var keys := Enumerate(reg.args.Keys);
      MutexSucceedsIff(reg, arg, keys);
    }
  }

  lemma {:induction false} NamedsSucceedIff(reg: Registry, names: seq<string>)
    requires forall i :: 0 <= i < |names| ==> names[i] in reg.args
    ensures NamedsEvents(reg, names).Ok? <==>
            forall i :: 0 <= i < |names| ==> NamedExportable(reg, reg.args[names[i]])
  {
    if names != [] {
      NamedSucceedsIff(reg, names[0]);
      NamedsSucceedIff(reg, names[1..]);
      assert forall i :: 1 <= i < |names| ==> names[i] == names[1..][i - 1];
    }
  }

  /** createXML on a well-formed registry fails only in writeNamedXML, and
      exactly when some listed named argument is not exportable. */
  lemma ExportSucceedsIff(reg: Registry)
    requires WellFormed(reg)
    ensures ExportEvents(reg).Ok? <==> Exportable(reg)
  {
    PositionalsSucceed(reg, reg.positional, 1);
    NamedsSucceedIff(reg, reg.named);
  }

  /** The "--" keys other than name whose argument lists name back, in the
      order given. */
  function Partners(reg: Registry, name: string, keys: seq<string>): (r: seq<string>)
    requires forall k :: k in keys ==> k in reg.args
    ensures forall x :: x in r <==>
              x in keys && StartsWith(x, "--") && x != name && reg.args[x].mutex != {} && name in reg.args[x].mutex
  {
    if keys == [] then []
    else
      var k := keys[0];
      assert forall x :: x in keys <==> x == k || x in keys[1..];
      (if StartsWith(k, "--") && k != name && reg.args[k].mutex != {} && name in reg.args[k].mutex then [k] else [])
      + Partners(reg, name, keys[1..])
  }

  /** The <mutex> elements written for arg name exactly the partners that
      list it back, whether or not arg lists them. */
  lemma {:induction false} MutexListsPartners(reg: Registry, arg: ArgInfo, keys: seq<string>)
    requires WellFormed(reg)
    requires forall k :: k in keys ==> k in reg.args
    requires MutexEvents(reg, arg, keys).Ok?
    ensures MutexEvents(reg, arg, keys).value == TextElements("mutex", Partners(reg, arg.name, keys))
  {
    if keys != [] {
      MutexListsPartners(reg, arg, keys[1..]);
      var k := keys[0];
      var rest := Partners(reg, arg.name, keys[1..]);
      if StartsWith(k, "--") && k != arg.name && reg.args[k].mutex != {} && arg.name in reg.args[k].mutex {
        assert ([k] + rest)[1..] == rest;
        assert reg.args[k].name == k;
      } else {
        assert [] + rest == rest;
      }
    }
  }
}
