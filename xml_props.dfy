/** Properties of the XML codec: how the reader runs over a stream made of
    separate elements, and what reading back an exported registry gives. */
module XmlProperties {
  import opened Errors
  import opened JavaStrings
  import opened Arguments
  import opened Registries
  import opened XmlEvents
  import opened XmlExport
  import opened XmlImport

  // ------------------------------------------------- running over pieces

  /** A stream that does not end with the start tag of a field, whose text
      the reader would look for past the end. */
  predicate Closed(a: seq<XmlEvent>)
  {
    a == [] || !(a[|a| - 1].Start? && ToLower(a[|a| - 1].tag) in Fields)
  }

  /** The reader's result on a, then on b from the state a left. */
  function Then(r: ReadResult, b: seq<XmlEvent>): ReadResult
    requires r.Read? ==> Seeded(r.st.att)
  {
    match r
    case Read(st) => Run(st, b, 0)
    case Thrown(reg, e) => Thrown(reg, e)
  }

  function Shift(p: Progress, n: nat): Progress
  {
    match p
    case Going(st, k) => Going(st, k + n)
    case Stopped(reg, e) => Stopped(reg, e)
  }

  /** An event behind a prefix is read as it would be on its own. */
  lemma StepShift(st: Reading, a: seq<XmlEvent>, b: seq<XmlEvent>, j: nat)
    requires j < |b| && Seeded(st.att)
    ensures Step(st, a + b, |a| + j) == Shift(Step(st, b, j), |a|)
  {
    var ev := a + b;
    assert ev[|a| + j] == b[j];
    if j + 1 < |b| {
      assert ev[|a| + j + 1] == b[j + 1];
    }
  }

  lemma {:induction false} RunShift(st: Reading, a: seq<XmlEvent>, b: seq<XmlEvent>, j: nat)
    requires j <= |b| && Seeded(st.att)
    ensures Run(st, a + b, |a| + j) == Run(st, b, j)
    decreases |b| - j
  {
    if j < |b| {
      StepShift(st, a, b, j);
      match Step(st, b, j)
      case Stopped(_, _) =>
      case Going(st1, k) => RunShift(st1, a, b, k);
    }
  }

  /** An event that does not look past the end of a is read the same when
      more events follow. */
  lemma StepPrefix(st: Reading, a: seq<XmlEvent>, b: seq<XmlEvent>, i: nat)
    requires i < |a| && Seeded(st.att)
    requires i + 1 < |a| || !(a[i].Start? && ToLower(a[i].tag) in Fields)
    ensures Step(st, a + b, i) == Step(st, a, i)
  {
    var ev := a + b;
    assert ev[i] == a[i];
    if i + 1 < |a| {
      assert ev[i + 1] == a[i + 1];
    }
  }

  /** Reading a closed stream a followed by b is reading a, then b. */
  lemma {:induction false} RunAppendFrom(st: Reading, a: seq<XmlEvent>, b: seq<XmlEvent>, i: nat)
    requires i <= |a| && Seeded(st.att) && Closed(a)
    ensures Run(st, a + b, i) == Then(Run(st, a, i), b)
    decreases |a| - i
  {
    if i == |a| {
      RunShift(st, a, b, 0);
    } else {
      StepPrefix(st, a, b, i);
      match Step(st, a, i)
      case Stopped(_, _) =>
      case Going(st1, k) => RunAppendFrom(st1, a, b, k);
    }
  }

  lemma RunAppend(st: Reading, a: seq<XmlEvent>, b: seq<XmlEvent>)
    requires Seeded(st.att) && Closed(a)
    ensures Run(st, a + b, 0) == Then(Run(st, a, 0), b)
  {
    RunAppendFrom(st, a, b, 0);
  }

  // ------------------------------------------------- reading one element

  lemma Associative(a: seq<XmlEvent>, b: seq<XmlEvent>, c: seq<XmlEvent>)
    ensures (a + b) + c == a + (b + c)
  {
  }

  lemma LowerCaseTag(t: string)
    requires forall i :: 0 <= i < |t| ==> !('A' <= t[i] <= 'Z')
    ensures ToLower(t) == t
  {
  }

  /** A start or end tag the reader has nothing to do for is skipped. */
  lemma RunSkip(st: Reading, e: XmlEvent, rest: seq<XmlEvent>)
    requires Seeded(st.att)
    requires e == Start("arguments") || e == End("arguments")
    ensures Run(st, [e] + rest, 0) == Run(st, rest, 0)
  {
    LowerCaseTag("arguments");
    assert ([e] + rest)[0] == e;
    assert Step(st, [e] + rest, 0) == Going(st, 1);
    RunShift(st, [e], rest, 0);
  }

  /** <tag>x</tag> for a lower-case field tag records x. */
  lemma RunTextElement(st: Reading, tag: string, x: string, rest: seq<XmlEvent>)
    requires Seeded(st.att) && tag in Fields && ToLower(tag) == tag
    ensures Run(st, TextElement(tag, x) + rest, 0) == Run(HandleCharacters(st, tag, x), rest, 0)
  {
    var ev := TextElement(tag, x) + rest;
    var st1 := HandleCharacters(st, tag, x);
    assert ev[0] == Start(tag) && ev[1] == Chars(x) && ev[2] == End(tag);
    assert Step(st, ev, 0) == Going(st1, 2);
    assert Step(st1, ev, 2) == Going(st1, 3);
    RunShift(st1, TextElement(tag, x), rest, 0);
  }

  /** The <accepted> elements add their values to the accepted set. */
  lemma {:induction false} RunAccepted(st: Reading, items: seq<string>, rest: seq<XmlEvent>)
    requires Seeded(st.att)
    ensures Run(st, TextElements("accepted", items) + rest, 0) ==
            Run(st.(accepted := st.accepted + set x | x in items), rest, 0)
    decreases |items|
  {
    if items == [] {
      assert TextElements("accepted", items) + rest == rest;
      assert st.accepted + (set x | x in items) == st.accepted;
      assert st.(accepted := st.accepted + set x | x in items) == st;
    } else {
      LowerCaseTag("accepted");
      var tail := TextElements("accepted", items[1..]) + rest;
      assert TextElements("accepted", items) + rest == TextElement("accepted", items[0]) + tail;
      RunTextElement(st, "accepted", items[0], tail);
      var st1 := st.(accepted := st.accepted + {items[0]});
      RunAccepted(st1, items[1..], rest);
      assert st1.accepted + (set x | x in items[1..]) == st.accepted + set x | x in items;
    }
  }

  lemma RunAcceptedEvents(st: Reading, accepted: set<string>, rest: seq<XmlEvent>)
    requires Seeded(st.att) && st.accepted == {}
    ensures Run(st, AcceptedEvents(accepted) + rest, 0) == Run(st.(accepted := accepted), rest, 0)
  {
    if accepted == {} {
      assert AcceptedEvents(accepted) + rest == rest;
      assert st.(accepted := accepted) == st;
    } else {
      var items := Enumerate(accepted);
      RunAccepted(st, items, rest);
      assert {} + (set x | x in items) == accepted;
    }
  }

  /** What reading back a positional element rebuilds of its argument: the
      name, the type and the accepted values, as a plain Argument. */
  function Reimported(arg: ArgInfo): (r: ArgInfo)
    ensures r.kind == Plain && !r.IsRequired() && r.mutex == {}
    ensures r.name == arg.name && r.typ == arg.typ && r.accepted == arg.accepted
  {
    PlainInfo(arg.name).(typ := arg.typ, accepted := arg.accepted)
  }

  lemma RunOpenPositional(st: Reading, rest: seq<XmlEvent>)
    requires Seeded(st.att)
    ensures Run(st, [Start("positional")] + rest, 0) == Run(st.(accepted := {}), rest, 0)
  {
    LowerCaseTag("positional");
    var ev := [Start("positional")] + rest;
    assert ev[0] == Start("positional");
    assert Step(st, ev, 0) == Going(st.(accepted := {}), 1);
    RunShift(st.(accepted := {}), [Start("positional")], rest, 0);
  }

  lemma RunClosePositional(st: Reading, pos: nat, rest: seq<XmlEvent>)
    requires Seeded(st.att) && pos <= IntMax && st.att["position"] == NatToString(pos)
    ensures Run(st, [End("positional")] + rest, 0) ==
            Run(st.(positionalCount := st.positionalCount + 1,
                    posMap := st.posMap[pos := PositionalFromXml(st.att, st.accepted)]), rest, 0)
  {
    LowerCaseTag("positional");
    ParseIntOfNatToString(pos);
    var ev := [End("positional")] + rest;
    assert ev[0] == End("positional");
    var st1 := st.(positionalCount := st.positionalCount + 1,
                   posMap := st.posMap[pos := PositionalFromXml(st.att, st.accepted)]);
    assert Step(st, ev, 0) == Going(st1, 1);
    RunShift(st1, [End("positional")], rest, 0);
  }

  /** The reader's state once the name, type and position of the positional
      element written for arg at pos have been read. */
  function Recorded(st: Reading, arg: ArgInfo, pos: nat): (r: Reading)
    ensures Seeded(st.att) ==> Seeded(r.att)
  {
    st.(att := st.att["name" := arg.name]["type" := arg.typ]["position" := NatToString(pos)])
  }

  /** The reader's state after the positional element written for arg at pos. */
  function AfterPositional(st: Reading, arg: ArgInfo, pos: nat): (r: Reading)
    ensures Seeded(st.att) ==> Seeded(r.att)
    ensures r.reg == st.reg && r.positionalCount == st.positionalCount + 1
    ensures r.posMap == st.posMap[pos := Reimported(arg)]
  {
    Recorded(st, arg, pos).(accepted := arg.accepted,
                            posMap := st.posMap[pos := Reimported(arg)],
                            positionalCount := st.positionalCount + 1)
  }

  /** The name, type and position elements of a positional element. */
  lemma RunPositionalFields(st: Reading, arg: ArgInfo, pos: nat, rest: seq<XmlEvent>)
    requires Seeded(st.att)
    ensures Run(st, TextElement("name", arg.name) + (TextElement("type", arg.typ) + (TextElement("position", NatToString(pos)) + rest)), 0) ==
            Run(Recorded(st, arg, pos), rest, 0)
  {
    LowerCaseTag("name");
    LowerCaseTag("type");
    LowerCaseTag("position");
    var s2 := st.(att := st.att["name" := arg.name]);
    var s3 := s2.(att := s2.att["type" := arg.typ]);
    RunTextElement(st, "name", arg.name, TextElement("type", arg.typ) + (TextElement("position", NatToString(pos)) + rest));
    RunTextElement(s2, "type", arg.typ, TextElement("position", NatToString(pos)) + rest);
    RunTextElement(s3, "position", NatToString(pos), rest);
  }

  /** The accepted values and the end tag of a positional element whose
      name, type and position have been recorded. */
  lemma RunPositionalTail(st: Reading, arg: ArgInfo, pos: nat, rest: seq<XmlEvent>)
    requires Seeded(st.att) && st.accepted == {} && pos <= IntMax
    ensures Run(Recorded(st, arg, pos), AcceptedEvents(arg.accepted) + ([End("positional")] + rest), 0) ==
            Run(AfterPositional(st, arg, pos), rest, 0)
  {
    var s0 := Recorded(st, arg, pos);
    RunAcceptedEvents(s0, arg.accepted, [End("positional")] + rest);
    var s1 := s0.(accepted := arg.accepted);
    RunClosePositional(s1, pos, rest);
    assert PositionalFromXml(s1.att, s1.accepted) == Reimported(arg);
    assert s1.(positionalCount := s1.positionalCount + 1,
               posMap := s1.posMap[pos := PositionalFromXml(s1.att, s1.accepted)]) == AfterPositional(st, arg, pos);
  }

  /** A positional element after its start tag. */
  lemma RunPositionalBody(st: Reading, arg: ArgInfo, pos: nat, rest: seq<XmlEvent>)
    requires Seeded(st.att) && st.accepted == {} && pos <= IntMax
    ensures Run(st, TextElement("name", arg.name) + (TextElement("type", arg.typ) + (TextElement("position", NatToString(pos))
                      + (AcceptedEvents(arg.accepted) + ([End("positional")] + rest)))), 0) ==
            Run(AfterPositional(st, arg, pos), rest, 0)
  {
    RunPositionalFields(st, arg, pos, AcceptedEvents(arg.accepted) + ([End("positional")] + rest));
    RunPositionalTail(st, arg, pos, rest);
  }

  /** The positional element, followed by rest, as the reader meets it. */
  lemma PositionalShape(reg: Registry, name: string, pos: nat, rest: seq<XmlEvent>) returns (body: seq<XmlEvent>)
    requires name in reg.args
    ensures var arg := reg.args[name];
            body == TextElement("name", arg.name) + (TextElement("type", arg.typ) + (TextElement("position", NatToString(pos))
                      + (AcceptedEvents(arg.accepted) + ([End("positional")] + rest))))
    ensures PositionalEvents(reg, name, pos).Ok?
    ensures PositionalEvents(reg, name, pos).value + rest == [Start("positional")] + body
  {
    var arg := reg.args[name];
    var a, n, t, p, acc, e := [Start("positional")], TextElement("name", arg.name), TextElement("type", arg.typ),
                              TextElement("position", NatToString(pos)), AcceptedEvents(arg.accepted), [End("positional")];
    body := n + (t + (p + (acc + (e + rest))));
    assert PositionalEvents(reg, name, pos).value == ((((a + n) + t) + p) + acc) + e;
    Associative((((a + n) + t) + p) + acc, e, rest);
    Associative(((a + n) + t) + p, acc, e + rest);
    Associative((a + n) + t, p, acc + (e + rest));
    Associative(a + n, t, p + (acc + (e + rest)));
    Associative(a, n, t + (p + (acc + (e + rest))));
  }

  /** Reading the positional element export writes for name at pos records
      name, type and position, and buffers the rebuilt Argument under pos. */
  lemma RunPositional(st: Reading, reg: Registry, name: string, pos: nat, rest: seq<XmlEvent>)
    requires Seeded(st.att) && name in reg.args && 1 <= pos <= IntMax
    ensures PositionalEvents(reg, name, pos).Ok?
    ensures Run(st, PositionalEvents(reg, name, pos).value + rest, 0) ==
            Run(AfterPositional(st, reg.args[name], pos), rest, 0)
  {
    var arg := reg.args[name];
    var body := PositionalShape(reg, name, pos, rest);
    RunOpenPositional(st, body);
    RunPositionalBody(st.(accepted := {}), arg, pos, rest);
    assert AfterPositional(st.(accepted := {}), arg, pos) == AfterPositional(st, arg, pos);
  }

  // ---------------------------------------------- reading a named element

  /** A named element with the fields in the order writeNamedXML writes
      them: name, shortnames, required, default, type, mutex partners and
      accepted values. */
  function NamedElement(name: string, shorts: seq<string>, required: string, default: string, typ: string,
                        partners: seq<string>, items: seq<string>): seq<XmlEvent>
  {
    [Start("named")] + (TextElement("name", name) + (TextElements("shortname", shorts)
      + (TextElement("required", required) + (TextElement("default", default) + (TextElement("type", typ)
      + (TextElements("mutex", partners) + (TextElements("accepted", items) + [End("named")])))))))
  }

  /** The shortname attMap holds after the <shortname> elements shorts: the
      last of them, or, when there is none, the one an earlier element left. */
  function LastShortname(att: map<string, string>, shorts: seq<string>): string
    requires "shortname" in att
  {
    if shorts == [] then att["shortname"] else shorts[|shorts| - 1]
  }

  /** attMap after the fields of a named element. */
  function NamedFields(att: map<string, string>, name: string, shorts: seq<string>, default: string, typ: string): (r: map<string, string>)
    requires Seeded(att)
    ensures Seeded(r)
  {
    att["name" := name]["shortname" := LastShortname(att, shorts)]["default" := default]["type" := typ]
  }

  /** The reader's state after a named element: the fields recorded, the
      accepted set replaced by the element's values, and the argument
      declared on the parser. */
  function AfterNamed(st: Reading, name: string, shorts: seq<string>, default: string, typ: string,
                      items: seq<string>): (r: Reading)
    requires Seeded(st.att)
    ensures Seeded(r.att) && r.posMap == st.posMap && r.positionalCount == st.positionalCount
  {
    var att := NamedFields(st.att, name, shorts, default, typ);
    var acc := (set x | x in items);
    st.(att := att, accepted := acc, reg := DeclareNamedFromXml(st.reg, att, acc))
  }

  /** What the end of a named element declares: the imported argument,
      through setNickname with the last shortname when one is held, and
      through setArgument otherwise. */
  lemma AfterNamedDeclares(st: Reading, name: string, shorts: seq<string>, default: string, typ: string,
                           items: seq<string>)
    requires Seeded(st.att)
    ensures var s := LastShortname(st.att, shorts);
            var arg := ImportedNamed(name, default, typ, set x | x in items);
            AfterNamed(st, name, shorts, default, typ, items).reg ==
              if s != "" then DeclareNickname(st.reg, arg, "-" + s) else DeclareArgument(st.reg, arg)
  {
    var att := NamedFields(st.att, name, shorts, default, typ);
    NamedFromSeeded(att, set x | x in items);
    assert att["shortname"] == LastShortname(st.att, shorts);
  }

  /** The argument a named element leaves on the parser: under "--" + name,
      listed as named, with the default as its value, the type and the
      accepted values, the letter of the last shortname (unless it is 'h')
      as its only nickname, not required and without partners. No other
      argument changes. */
  lemma ReadNamedEntry(st: Reading, name: string, shorts: seq<string>, default: string, typ: string,
                       items: seq<string>)
    requires Seeded(st.att)
    ensures var r := AfterNamed(st, name, shorts, default, typ, items).reg;
            var s := LastShortname(st.att, shorts);
            && "--" + name in r.args
            && r.args["--" + name] == ImportedNamed(name, default, typ, set x | x in items)
                                      .(nicknames := "-" + if s != "" then ShortLetters("-" + s) else "")
            && r.named == st.reg.named + ["--" + name]
            && r.args.Keys == st.reg.args.Keys + {"--" + name}
            && (forall k :: k in st.reg.args && k != "--" + name ==> r.args[k] == st.reg.args[k])
  {
    var n := "--" + name;
    assert n[1] == '-' && "-h"[1] == 'h';
    assert StartsWith(n, "--") by { assert n[..2] == "--"; }
    AfterNamedDeclares(st, name, shorts, default, typ, items);
    var arg := ImportedNamed(name, default, typ, set x | x in items);
    var s := LastShortname(st.att, shorts);
    if s == "" {
      assert arg.(nicknames := "-" + "") == arg;
    }
  }

  lemma RunOpenNamed(st: Reading, rest: seq<XmlEvent>)
    requires Seeded(st.att)
    ensures Run(st, [Start("named")] + rest, 0) == Run(st.(accepted := {}), rest, 0)
  {
    LowerCaseTag("named");
    var ev := [Start("named")] + rest;
    assert ev[0] == Start("named");
    assert Step(st, ev, 0) == Going(st.(accepted := {}), 1);
    RunShift(st.(accepted := {}), [Start("named")], rest, 0);
  }

  lemma RunCloseNamed(st: Reading, rest: seq<XmlEvent>)
    requires Seeded(st.att)
    ensures Run(st, [End("named")] + rest, 0) ==
            Run(st.(reg := DeclareNamedFromXml(st.reg, st.att, st.accepted)), rest, 0)
  {
    LowerCaseTag("named");
    var ev := [End("named")] + rest;
    assert ev[0] == End("named");
    var st1 := st.(reg := DeclareNamedFromXml(st.reg, st.att, st.accepted));
    assert Step(st, ev, 0) == Going(st1, 1);
    RunShift(st1, [End("named")], rest, 0);
  }

  /** An element whose tag is not a field the reader records is skipped
      whole, text and all. */
  lemma RunIgnoredElement(st: Reading, tag: string, x: string, rest: seq<XmlEvent>)
    requires Seeded(st.att) && (tag == "required" || tag == "mutex")
    ensures Run(st, TextElement(tag, x) + rest, 0) == Run(st, rest, 0)
  {
    if tag == "required" {
      LowerCaseTag("required");
    } else {
      LowerCaseTag("mutex");
    }
    var ev := TextElement(tag, x) + rest;
    assert ev[0] == Start(tag) && ev[1] == Chars(x) && ev[2] == End(tag);
    assert Step(st, ev, 0) == Going(st, 1);
    assert Step(st, ev, 1) == Going(st, 2);
    assert Step(st, ev, 2) == Going(st, 3);
    assert Run(st, ev, 0) == Run(st, ev, 1);
    assert Run(st, ev, 1) == Run(st, ev, 2);
    assert Run(st, ev, 2) == Run(st, ev, 3);
    RunShift(st, TextElement(tag, x), rest, 0);
  }

  lemma {:induction false} RunIgnoredElements(st: Reading, tag: string, items: seq<string>, rest: seq<XmlEvent>)
    requires Seeded(st.att) && (tag == "required" || tag == "mutex")
    ensures Run(st, TextElements(tag, items) + rest, 0) == Run(st, rest, 0)
    decreases |items|
  {
    if items == [] {
      assert TextElements(tag, items) + rest == rest;
    } else {
      var tail := TextElements(tag, items[1..]) + rest;
      assert TextElements(tag, items) + rest == TextElement(tag, items[0]) + tail;
      RunIgnoredElement(st, tag, items[0], tail);
      RunIgnoredElements(st, tag, items[1..], rest);
    }
  }

  /** Each <shortname> overwrites the last: only the final one is kept. */
  lemma {:induction false} RunShortnames(st: Reading, shorts: seq<string>, rest: seq<XmlEvent>)
    requires Seeded(st.att)
    ensures Run(st, TextElements("shortname", shorts) + rest, 0) ==
            Run(st.(att := st.att["shortname" := LastShortname(st.att, shorts)]), rest, 0)
    decreases |shorts|
  {
    if shorts == [] {
      assert TextElements("shortname", shorts) + rest == rest;
      assert st.att["shortname" := st.att["shortname"]] == st.att;
      assert st.(att := st.att) == st;
    } else {
      LowerCaseTag("shortname");
      var tail := TextElements("shortname", shorts[1..]) + rest;
      assert TextElements("shortname", shorts) + rest == TextElement("shortname", shorts[0]) + tail;
      RunTextElement(st, "shortname", shorts[0], tail);
      var st1 := st.(att := st.att["shortname" := shorts[0]]);
      RunShortnames(st1, shorts[1..], rest);
      assert LastShortname(st1.att, shorts[1..]) == LastShortname(st.att, shorts);
      assert st1.att["shortname" := LastShortname(st.att, shorts)] == st.att["shortname" := LastShortname(st.att, shorts)];
    }
  }

  /** The name, shortname, required, default and type elements. */
  lemma RunNamedFields(st: Reading, name: string, shorts: seq<string>, required: string, default: string,
                       typ: string, rest: seq<XmlEvent>)
    requires Seeded(st.att)
    ensures Run(st, TextElement("name", name) + (TextElements("shortname", shorts) + (TextElement("required", required)
                      + (TextElement("default", default) + (TextElement("type", typ) + rest)))), 0) ==
            Run(st.(att := NamedFields(st.att, name, shorts, default, typ)), rest, 0)
  {
    LowerCaseTag("name");
    LowerCaseTag("default");
    LowerCaseTag("type");
    var s1 := st.(att := st.att["name" := name]);
    var s2 := s1.(att := s1.att["shortname" := LastShortname(s1.att, shorts)]);
    var s3 := s2.(att := s2.att["default" := default]);
    var r4 := TextElement("type", typ) + rest;
    var r3 := TextElement("default", default) + r4;
    var r2 := TextElement("required", required) + r3;
    RunTextElement(st, "name", name, TextElements("shortname", shorts) + r2);
    RunShortnames(s1, shorts, r2);
    RunIgnoredElement(s2, "required", required, r3);
    RunTextElement(s2, "default", default, r4);
    RunTextElement(s3, "type", typ, rest);
    assert LastShortname(s1.att, shorts) == LastShortname(st.att, shorts);
  }

  /** The mutex and accepted elements and the end tag. */
  lemma RunNamedTail(st: Reading, partners: seq<string>, items: seq<string>, rest: seq<XmlEvent>)
    requires Seeded(st.att) && st.accepted == {}
    ensures Run(st, TextElements("mutex", partners) + (TextElements("accepted", items) + ([End("named")] + rest)), 0) ==
            Run(st.(accepted := (set x | x in items),
                    reg := DeclareNamedFromXml(st.reg, st.att, set x | x in items)), rest, 0)
  {
    RunIgnoredElements(st, "mutex", partners, TextElements("accepted", items) + ([End("named")] + rest));
    RunAccepted(st, items, [End("named")] + rest);
    var s1 := st.(accepted := st.accepted + set x | x in items);
    assert st.accepted + (set x | x in items) == (set x | x in items);
    RunCloseNamed(s1, rest);
  }

  /** Appending rest to a right-nested element appends it to its last piece. */
  lemma NamedElementThen(a: seq<XmlEvent>, n: seq<XmlEvent>, sh: seq<XmlEvent>, q: seq<XmlEvent>, d: seq<XmlEvent>,
                         t: seq<XmlEvent>, m: seq<XmlEvent>, acc: seq<XmlEvent>, e: seq<XmlEvent>, rest: seq<XmlEvent>)
    ensures (a + (n + (sh + (q + (d + (t + (m + (acc + e)))))))) + rest ==
            a + (n + (sh + (q + (d + (t + (m + (acc + (e + rest))))))))
  {
    Associative(acc, e, rest);
    Associative(m, acc + e, rest);
    Associative(t, m + (acc + e), rest);
    Associative(d, t + (m + (acc + e)), rest);
    Associative(q, d + (t + (m + (acc + e))), rest);
    Associative(sh, q + (d + (t + (m + (acc + e)))), rest);
    Associative(n, sh + (q + (d + (t + (m + (acc + e))))), rest);
    Associative(a, n + (sh + (q + (d + (t + (m + (acc + e)))))), rest);
  }

  /** Reading a named element declares its argument at the end tag, as
      AfterNamed says; the required and mutex elements are skipped. */
  lemma RunNamed(st: Reading, name: string, shorts: seq<string>, required: string, default: string, typ: string,
                 partners: seq<string>, items: seq<string>, rest: seq<XmlEvent>)
    requires Seeded(st.att)
    ensures Run(st, NamedElement(name, shorts, required, default, typ, partners, items) + rest, 0) ==
            Run(AfterNamed(st, name, shorts, default, typ, items), rest, 0)
  {
    var tail := TextElements("mutex", partners) + (TextElements("accepted", items) + ([End("named")] + rest));
    var body := TextElement("name", name) + (TextElements("shortname", shorts) + (TextElement("required", required)
                  + (TextElement("default", default) + (TextElement("type", typ) + tail))));
    NamedElementThen([Start("named")], TextElement("name", name), TextElements("shortname", shorts),
                     TextElement("required", required), TextElement("default", default), TextElement("type", typ),
                     TextElements("mutex", partners), TextElements("accepted", items), [End("named")], rest);
    var s0 := st.(accepted := {});
    RunOpenNamed(st, body);
    RunNamedFields(s0, name, shorts, required, default, typ, tail);
    var s1 := s0.(att := NamedFields(s0.att, name, shorts, default, typ));
    RunNamedTail(s1, partners, items, rest);
  }

  /** The letters writeNamedXML writes as <shortname> elements. */
  function Shortnames(nicknames: string): seq<string>
  {
    if nicknames == "-" then [] else NicknameLetters(nicknames)
  }

  /** The values writeNamedXML and writePositionalXML write as <accepted>
      elements. */
  ghost function AcceptedItems(accepted: set<string>): (r: seq<string>)
    ensures (set x | x in r) == accepted
  {
    if accepted == {} then [] else Enumerate(accepted)
  }

  /** NamedElement, bracketed as writeNamedXML appends its pieces. */
  lemma NamedElementPieces(name: string, shorts: seq<string>, required: string, default: string, typ: string,
                           partners: seq<string>, items: seq<string>)
    ensures NamedElement(name, shorts, required, default, typ, partners, items) ==
            [Start("named")] + TextElement("name", name) + TextElements("shortname", shorts)
              + (TextElement("required", required) + TextElement("default", default)) + TextElement("type", typ)
              + TextElements("mutex", partners) + TextElements("accepted", items) + [End("named")]
  {
    Rebracket([Start("named")], TextElement("name", name), TextElements("shortname", shorts),
              TextElement("required", required), TextElement("default", default), TextElement("type", typ),
              TextElements("mutex", partners), TextElements("accepted", items), [End("named")]);
  }

  lemma Rebracket(a: seq<XmlEvent>, n: seq<XmlEvent>, sh: seq<XmlEvent>, q: seq<XmlEvent>, d: seq<XmlEvent>,
                  t: seq<XmlEvent>, m: seq<XmlEvent>, acc: seq<XmlEvent>, e: seq<XmlEvent>)
    ensures a + n + sh + (q + d) + t + m + acc + e == a + (n + (sh + (q + (d + (t + (m + (acc + e)))))))
  {
    var p3 := a + n + sh;
    var tail := t + (m + (acc + e));
    Associative(p3 + (q + d) + t + m, acc, e);
    Associative(p3 + (q + d) + t, m, acc + e);
    Associative(p3 + (q + d), t, m + (acc + e));
    Associative(p3, q + d, tail);
    Associative(q, d, tail);
    Associative(a + n, sh, q + (d + tail));
    Associative(a, n, sh + (q + (d + tail)));
  }

  /** The element writeNamedXML writes, as NamedElement sees it: the required
      mark with an empty default for a required argument, otherwise "false"
      and the current value, and the partners that list the argument back. */
  lemma NamedShape(reg: Registry, name: string) returns (partners: seq<string>)
    requires WellFormed(reg) && NamedEvents(reg, name).Ok?
    ensures var arg := reg.args[name];
            NamedEvents(reg, name).value ==
              NamedElement(arg.name[2..], Shortnames(arg.nicknames), if arg.IsRequired() then "true" else "false",
                           if arg.IsRequired() then "" else arg.value, arg.typ, partners, AcceptedItems(arg.accepted))
  {
    var arg := reg.args[name];
    partners := [];
    if arg.HasMutualExclusiveArgs() {
      var keys := Enumerate(reg.args.Keys);
      MutexListsPartners(reg, arg, keys);
      partners := Partners(reg, arg.name, keys);
    }
    var required, default := if arg.IsRequired() then "true" else "false", if arg.IsRequired() then "" else arg.value;
    assert NamedEvents(reg, name).value ==
           [Start("named")] + TextElement("name", arg.name[2..]) + ShortnameEvents(arg.nicknames)
             + RequiredEvents(arg) + TextElement("type", arg.typ) + TextElements("mutex", partners)
             + AcceptedEvents(arg.accepted) + [End("named")];
    assert ShortnameEvents(arg.nicknames) == TextElements("shortname", Shortnames(arg.nicknames));
    assert AcceptedEvents(arg.accepted) == TextElements("accepted", AcceptedItems(arg.accepted));
    assert RequiredEvents(arg) == TextElement("required", required) + TextElement("default", default);
    NamedElementPieces(arg.name[2..], Shortnames(arg.nicknames), required, default, arg.typ, partners,
                       AcceptedItems(arg.accepted));
  }

  /** Reading the element writeNamedXML writes, when the reader reports
      every text of it, declares the argument as AfterNamed says. */
  lemma ReadExportedNamed(st: Reading, reg: Registry, name: string, rest: seq<XmlEvent>)
    requires Seeded(st.att) && WellFormed(reg) && NamedEvents(reg, name).Ok?
    ensures var arg := reg.args[name];
            Run(st, NamedEvents(reg, name).value + rest, 0) ==
            Run(AfterNamed(st, arg.name[2..], Shortnames(arg.nicknames), if arg.IsRequired() then "" else arg.value,
                           arg.typ, AcceptedItems(arg.accepted)), rest, 0)
  {
    var arg := reg.args[name];
    var partners := NamedShape(reg, name);
    RunNamed(st, arg.name[2..], Shortnames(arg.nicknames), if arg.IsRequired() then "true" else "false",
             if arg.IsRequired() then "" else arg.value, arg.typ, partners, AcceptedItems(arg.accepted), rest);
  }

  /** A required argument's element holds an empty default, which a reader
      reports without text; an element free of empty texts is therefore
      never that of a required argument. */
  lemma RequiredWritesEmptyText(reg: Registry, name: string)
    requires WellFormed(reg) && NamedEvents(reg, name).Ok? && reg.args[name].IsRequired()
    ensures Chars("") in NamedEvents(reg, name).value
  {
    var arg := reg.args[name];
    var partners := NamedShape(reg, name);
    var tail := TextElement("type", arg.typ) + (TextElements("mutex", partners)
                  + (TextElements("accepted", AcceptedItems(arg.accepted)) + [End("named")]));
    var d := TextElement("default", "") + tail;
    assert d[1] == Chars("");
    var ev := NamedEvents(reg, name).value;
    assert ev == [Start("named")] + (TextElement("name", arg.name[2..]) + (TextElements("shortname", Shortnames(arg.nicknames))
                  + (TextElement("required", "true") + d)));
  }

  /** What comes back of a named argument whose element a reader sees whole:
      the same name, value, type and accepted values, but no description, no
      partners, not required, and as nicknames only the letter of the last
      shortname (or the shortname an earlier element left, when it has
      none). Everything else on the parser is kept. */
  lemma NamedComesBack(st: Reading, reg: Registry, name: string, rest: seq<XmlEvent>) returns (st': Reading)
    requires Seeded(st.att) && WellFormed(reg) && name in reg.args && StartsWith(name, "--")
    requires NamedEvents(reg, name).Ok? && Chars("") !in NamedEvents(reg, name).value
    ensures ReadBack(NamedEvents(reg, name).value) == NamedEvents(reg, name).value
    ensures Seeded(st'.att)
    ensures Run(st, NamedEvents(reg, name).value + rest, 0) == Run(st', rest, 0)
    ensures var arg := reg.args[name];
            var s := LastShortname(st.att, Shortnames(arg.nicknames));
            && !arg.IsRequired()
            && name in st'.reg.args
            && st'.reg.args[name] == arg.(description := "", mutex := {},
                                           nicknames := "-" + if s != "" then ShortLetters("-" + s) else "")
            && st'.reg.named == st.reg.named + [name]
            && (forall k :: k in st.reg.args && k != name ==> k in st'.reg.args && st'.reg.args[k] == st.reg.args[k])
  {
    var arg := reg.args[name];
    if arg.IsRequired() {
      RequiredWritesEmptyText(reg, name);
    }
    assert !arg.IsRequired();
    ReadExportedNamed(st, reg, name, rest);
    var n := arg.name[2..];
    assert "--" + n == name by {
      assert arg.name == name;
      assert name[..2] == "--";
    }
    st' := AfterNamed(st, n, Shortnames(arg.nicknames), arg.value, arg.typ, AcceptedItems(arg.accepted));
    ReadNamedEntry(st, n, Shortnames(arg.nicknames), arg.value, arg.typ, AcceptedItems(arg.accepted));
  }

  // ------------------------------------------ what an import can declare

  /** An argument that is neither required nor has partners. */
  predicate Unmarked(a: ArgInfo)
  {
    !a.IsRequired() && a.mutex == {}
  }

  /** Every argument of reg is the one reg0 held under its name, or is
      unmarked. */
  ghost predicate AddsOnlyUnmarked(reg0: Registry, reg: Registry)
  {
    forall k :: k in reg.args ==> (k in reg0.args && reg.args[k] == reg0.args[k]) || Unmarked(reg.args[k])
  }

  ghost predicate UnmarkedBuffer(posMap: map<int, ArgInfo>)
  {
    forall p :: p in posMap ==> Unmarked(posMap[p])
  }

  ghost predicate ProgressUnmarked(reg0: Registry, p: Progress)
  {
    if p.Going? then AddsOnlyUnmarked(reg0, p.st.reg) && UnmarkedBuffer(p.st.posMap)
    else AddsOnlyUnmarked(reg0, p.reg)
  }

  ghost predicate ResultUnmarked(reg0: Registry, r: ReadResult)
  {
    if r.Read? then AddsOnlyUnmarked(reg0, r.st.reg) && UnmarkedBuffer(r.st.posMap)
    else AddsOnlyUnmarked(reg0, r.reg)
  }

  /** setArgument and setNickname with an unmarked argument add nothing
      marked. */
  lemma DeclareUnmarked(reg0: Registry, reg: Registry, info: ArgInfo, shortFormNames: string)
    requires AddsOnlyUnmarked(reg0, reg) && Unmarked(info)
    ensures AddsOnlyUnmarked(reg0, DeclareArgument(reg, info))
    ensures AddsOnlyUnmarked(reg0, DeclareNickname(reg, info, shortFormNames))
  {
  }

  lemma StepUnmarked(reg0: Registry, st: Reading, ev: seq<XmlEvent>, i: nat)
    requires i < |ev| && Seeded(st.att) && AddsOnlyUnmarked(reg0, st.reg) && UnmarkedBuffer(st.posMap)
    ensures ProgressUnmarked(reg0, Step(st, ev, i))
  {
    if ev[i].End? && ToLower(ev[i].tag) == "named" {
      NamedFromSeeded(st.att, st.accepted);
      var s := if "shortname" in st.att then st.att["shortname"] else "";
      DeclareUnmarked(reg0, st.reg, NamedFromXml(st.att, st.accepted), "-" + s);
    }
  }

  lemma {:induction false} RunUnmarked(reg0: Registry, st: Reading, ev: seq<XmlEvent>, i: nat)
    requires i <= |ev| && Seeded(st.att) && AddsOnlyUnmarked(reg0, st.reg) && UnmarkedBuffer(st.posMap)
    ensures ResultUnmarked(reg0, Run(st, ev, i))
    decreases |ev| - i
  {
    if i < |ev| {
      StepUnmarked(reg0, st, ev, i);
      match Step(st, ev, i)
      case Stopped(_, _) =>
      case Going(st1, j) => RunUnmarked(reg0, st1, ev, j);
    }
  }

  lemma {:induction false} FlushUnmarked(reg0: Registry, reg: Registry, posMap: map<int, ArgInfo>, i: nat, count: nat)
    requires AddsOnlyUnmarked(reg0, reg) && UnmarkedBuffer(posMap)
    ensures AddsOnlyUnmarked(reg0, Flush(reg, posMap, i, count).reg)
    decreases count + 1 - i
  {
    if i <= count && i in posMap {
      DeclareUnmarked(reg0, reg, posMap[i], "");
      FlushUnmarked(reg0, DeclareArgument(reg, posMap[i]), posMap, i + 1, count);
    }
  }

  /** parseXML never declares a required argument or one with partners:
      every argument on the parser afterwards is the one it held before, or
      is unmarked, also when the import throws part-way. */
  lemma ImportAddsOnlyUnmarked(reg: Registry, input: Option<seq<XmlEvent>>)
    ensures AddsOnlyUnmarked(reg, ImportXml(reg, input).reg)
  {
    if input.Some? {
      SeedIsSeeded();
      RunUnmarked(reg, Initial(reg), input.value, 0);
      var r := Run(Initial(reg), input.value, 0);
      if r.Read? {
        FlushUnmarked(reg, r.st.reg, r.st.posMap, 1, r.st.positionalCount);
      }
    }
  }

  // ----------------------------------------------- reading the positionals

  /** posMap after the positional elements written for names, numbered from
      pos, have been read into m. */
  function Buffer(m: map<int, ArgInfo>, reg: Registry, names: seq<string>, pos: nat): map<int, ArgInfo>
    requires forall i :: 0 <= i < |names| ==> names[i] in reg.args
    decreases |names|
  {
    if names == [] then m else Buffer(m[pos := Reimported(reg.args[names[0]])], reg, names[1..], pos + 1)
  }

  /** The reader's state after the positional elements written for names,
      numbered from pos. */
  function AfterPositionals(st: Reading, reg: Registry, names: seq<string>, pos: nat): (r: Reading)
    requires forall i :: 0 <= i < |names| ==> names[i] in reg.args
    ensures Seeded(st.att) ==> Seeded(r.att)
    ensures r.reg == st.reg && r.positionalCount == st.positionalCount + |names|
    decreases |names|
  {
    if names == [] then st
    else AfterPositionals(AfterPositional(st, reg.args[names[0]], pos), reg, names[1..], pos + 1)
  }

  lemma {:induction false} AfterPositionalsBuffer(st: Reading, reg: Registry, names: seq<string>, pos: nat)
    requires forall i :: 0 <= i < |names| ==> names[i] in reg.args
    ensures AfterPositionals(st, reg, names, pos).posMap == Buffer(st.posMap, reg, names, pos)
    decreases |names|
  {
    if names != [] {
      AfterPositionalsBuffer(AfterPositional(st, reg.args[names[0]], pos), reg, names[1..], pos + 1);
    }
  }

  /** The positionals are buffered under consecutive positions from pos, each
      as the plain Argument rebuilt from its declaration; entries outside
      that range stay. */
  lemma {:induction false} BufferHolds(m: map<int, ArgInfo>, reg: Registry, names: seq<string>, pos: nat)
    requires forall i :: 0 <= i < |names| ==> names[i] in reg.args
    ensures var r := Buffer(m, reg, names, pos);
            && (forall k {:trigger names[k]} :: 0 <= k < |names| ==>
                  pos + k in r && r[pos + k] == Reimported(reg.args[names[k]]))
            && (forall j :: j in r ==> j in m || pos <= j < pos + |names|)
            && (forall j :: j in m && !(pos <= j < pos + |names|) ==> j in r && r[j] == m[j])
    decreases |names|
  {
    if names != [] {
      var m1 := m[pos := Reimported(reg.args[names[0]])];
      BufferHolds(m1, reg, names[1..], pos + 1);
      var r := Buffer(m, reg, names, pos);
      assert r == Buffer(m1, reg, names[1..], pos + 1);
      assert pos in r && r[pos] == m1[pos];
      forall k | 1 <= k < |names|
        ensures pos + k in r && r[pos + k] == Reimported(reg.args[names[k]])
      {
        assert names[k] == names[1..][k - 1];
        assert pos + k == (pos + 1) + (k - 1);
      }
    }
  }

  /** Reading the positional elements export writes for names, numbered
      from pos, buffers each in turn. */
  lemma {:induction false} RunPositionals(st: Reading, reg: Registry, names: seq<string>, pos: nat, rest: seq<XmlEvent>)
    requires Seeded(st.att) && 1 <= pos && pos + |names| <= IntMax + 1
    requires forall i :: 0 <= i < |names| ==> names[i] in reg.args
    ensures PositionalsEvents(reg, names, pos).Ok?
    ensures Run(st, PositionalsEvents(reg, names, pos).value + rest, 0) ==
            Run(AfterPositionals(st, reg, names, pos), rest, 0)
    decreases |names|
  {
    if names == [] {
      assert PositionalsEvents(reg, names, pos).value + rest == rest;
    } else {
      var st1 := AfterPositional(st, reg.args[names[0]], pos);
      RunPositionals(st1, reg, names[1..], pos + 1, rest);
      var tail := PositionalsEvents(reg, names[1..], pos + 1).value;
      RunPositional(st, reg, names[0], pos, tail + rest);
      var head := PositionalEvents(reg, names[0], pos).value;
      assert PositionalsEvents(reg, names, pos) == Ok(head + tail);
      Associative(head, tail, rest);
      assert AfterPositionals(st, reg, names, pos) == AfterPositionals(st1, reg, names[1..], pos + 1);
    }
  }

  // ------------------------------------------------ declaring the buffer

  /** setArgument(Argument) for each declaration in turn. */
  function DeclareArguments(reg: Registry, infos: seq<ArgInfo>): Registry
    decreases |infos|
  {
    if infos == [] then reg else DeclareArguments(DeclareArgument(reg, infos[0]), infos[1..])
  }

  /** The buffer holds info at position key. */
  ghost predicate At(posMap: map<int, ArgInfo>, key: int, info: ArgInfo)
  {
    key in posMap && posMap[key] == info
  }

  /** The buffer holds infos at consecutive positions from i. */
  ghost predicate Holds(posMap: map<int, ArgInfo>, i: int, infos: seq<ArgInfo>)
  {
    forall k :: 0 <= k < |infos| ==> At(posMap, i + k, infos[k])
  }

  lemma HoldsTail(posMap: map<int, ArgInfo>, i: int, infos: seq<ArgInfo>)
    requires Holds(posMap, i, infos) && infos != []
    ensures i in posMap && posMap[i] == infos[0]
    ensures Holds(posMap, i + 1, infos[1..])
  {
    assert At(posMap, i + 0, infos[0]);
    forall k | 0 <= k < |infos[1..]|
      ensures At(posMap, i + 1 + k, infos[1..][k])
    {
      assert infos[1..][k] == infos[1 + k];
    }
  }

  /** Flushing positions i..count, all buffered, declares them in position
      order and succeeds. */

  lemma {:induction false} FlushDeclares(reg: Registry, posMap: map<int, ArgInfo>, i: nat, count: nat, infos: seq<ArgInfo>)
    requires count + 1 == i + |infos|
    requires Holds(posMap, i, infos)
    ensures Flush(reg, posMap, i, count) == Imported(DeclareArguments(reg, infos), Success)
    decreases |infos|
  {
    if infos != [] {
      var first := infos[0];
      HoldsTail(posMap, i, infos);
      FlushDeclares(DeclareArgument(reg, first), posMap, i + 1, count, infos[1..]);
    }
  }

  /** Flushing fails exactly when a position in i..count was never buffered,
      and then with a NullPointerException. */
  lemma {:induction false} FlushFails(reg: Registry, posMap: map<int, ArgInfo>, i: nat, count: nat)
    ensures Flush(reg, posMap, i, count).outcome == Success <==> forall j :: i <= j <= count ==> j in posMap
    ensures Flush(reg, posMap, i, count).outcome in {Success, Failure(NullPointer)}
    decreases count + 1 - i
  {
    if i <= count && i in posMap {
      FlushFails(DeclareArgument(reg, posMap[i]), posMap, i + 1, count);
    }
  }

  /** The declarations reading back rebuilds for names. */
  function Reimports(src: Registry, names: seq<string>): (r: seq<ArgInfo>)
    requires forall k :: 0 <= k < |names| ==> names[k] in src.args
    ensures |r| == |names|
    ensures forall k :: 0 <= k < |names| ==> r[k] == Reimported(src.args[names[k]])
  {
    if names == [] then [] else [Reimported(src.args[names[0]])] + Reimports(src, names[1..])
  }

  /** A name that setArgument(Argument) files as a positional. */
  predicate PositionalName(name: string)
  {
    name != "-h" && !StartsWith(name, "--")
  }

  /** Declaring the rebuilt positionals appends their names to the positional
      list and registers each under its name. */
  lemma {:induction false} DeclareReimports(r: Registry, src: Registry, names: seq<string>)
    requires forall k :: 0 <= k < |names| ==> names[k] in src.args && src.args[names[k]].name == names[k]
    requires forall k :: 0 <= k < |names| ==> PositionalName(names[k])
    ensures var out := DeclareArguments(r, Reimports(src, names));
            && out.positional == r.positional + names
            && out.named == r.named && out.shortForms == r.shortForms
            && out.programName == r.programName && out.programDescription == r.programDescription
            && (forall k :: k in out.args <==> k in r.args || k in names)
            && (forall k :: k in names ==> out.args[k] == Reimported(src.args[k]))
            && (forall k :: k in r.args && k !in names ==> out.args[k] == r.args[k])
    decreases |names|
  {
    if names != [] {
      var n := names[0];
      var r1 := DeclareArgument(r, Reimported(src.args[n]));
      assert PositionalName(names[0]);
      assert r1.positional == r.positional + [n] && r1.args == r.args[n := Reimported(src.args[n])];
      DeclareReimports(r1, src, names[1..]);
      assert Reimports(src, names)[1..] == Reimports(src, names[1..]);
      assert DeclareArguments(r, Reimports(src, names)) == DeclareArguments(r1, Reimports(src, names[1..]));
      assert names == [n] + names[1..];
      assert forall k :: k in names <==> k == n || k in names[1..];
    }
  }

  // -------------------------------------------------------- the round trip

  /** A positional whose exported elements all carry text: a non-empty name
      and type, and no empty accepted value. */
  predicate FullyWritten(arg: ArgInfo)
  {
    arg.name != "" && arg.typ != "" && "" !in arg.accepted
  }

  lemma {:induction false} TextElementsTexts(tag: string, items: seq<string>)
    ensures forall e :: e in TextElements(tag, items) ==> e == Start(tag) || e == End(tag) || (e.Chars? && e.text in items)
    decreases |items|
  {
    if items != [] {
      TextElementsTexts(tag, items[1..]);
      assert TextElement(tag, items[0]) == [Start(tag), Chars(items[0]), End(tag)];
    }
  }

  lemma PositionalTexts(reg: Registry, name: string, pos: nat)
    requires name in reg.args && FullyWritten(reg.args[name])
    ensures PositionalEvents(reg, name, pos).Ok? && Chars("") !in PositionalEvents(reg, name, pos).value
  {
    var arg := reg.args[name];
    if arg.accepted != {} {
      TextElementsTexts("accepted", Enumerate(arg.accepted));
    }
    var a, n, t, p, acc, e := [Start("positional")], TextElement("name", arg.name), TextElement("type", arg.typ),
                              TextElement("position", NatToString(pos)), AcceptedEvents(arg.accepted), [End("positional")];
    assert Chars("") !in acc;
    assert Chars("") !in n && Chars("") !in t && Chars("") !in p;
    assert PositionalEvents(reg, name, pos).value == ((((a + n) + t) + p) + acc) + e;
  }

  /** The elements export writes for positionals that are fully written
      carry no empty text, so a reader sees every one of them. */
  lemma {:induction false} PositionalsTexts(reg: Registry, names: seq<string>, pos: nat)
    requires forall k :: 0 <= k < |names| ==> names[k] in reg.args && FullyWritten(reg.args[names[k]])
    ensures PositionalsEvents(reg, names, pos).Ok? && Chars("") !in PositionalsEvents(reg, names, pos).value
    decreases |names|
  {
    if names != [] {
      PositionalsTexts(reg, names[1..], pos + 1);
      PositionalTexts(reg, names[0], pos);
      var head := PositionalEvents(reg, names[0], pos).value;
      var tail := PositionalsEvents(reg, names[1..], pos + 1).value;
      assert PositionalsEvents(reg, names, pos).value == head + tail;
    }
  }

  /** What export writes for a registry with positionals only. */
  lemma ExportPositionalsOnly(reg: Registry) returns (p: seq<XmlEvent>)
    requires WellFormed(reg) && reg.named == []
    ensures PositionalsEvents(reg, reg.positional, 1) == Ok(p)
    ensures ExportEvents(reg) == Ok([Start("arguments")] + (p + [End("arguments")]))
  {
    PositionalsSucceed(reg, reg.positional, 1);
    p := PositionalsEvents(reg, reg.positional, 1).value;
    assert NamedsEvents(reg, reg.named) == Ok([]);
    assert [Start("arguments")] + p + [] == [Start("arguments")] + p;
    Associative([Start("arguments")], p, [End("arguments")]);
  }

  /** Reading back what export wrote for positionals only buffers every
      positional under its position, on a parser that is left untouched. */
  lemma ReadExport(reg: Registry, st: Reading)
    requires WellFormed(reg) && reg.named == [] && |reg.positional| <= IntMax && Seeded(st.att)
    ensures ExportEvents(reg).Ok?
    ensures Run(st, ExportEvents(reg).value, 0) == Read(AfterPositionals(st, reg, reg.positional, 1))
  {
    var p := ExportPositionalsOnly(reg);
    RunSkip(st, Start("arguments"), p + [End("arguments")]);
    RunPositionals(st, reg, reg.positional, 1, [End("arguments")]);
    var a := AfterPositionals(st, reg, reg.positional, 1);
    RunSkip(a, End("arguments"), []);
    assert [End("arguments")] + [] == [End("arguments")];
  }

  /** The registry a fresh parser ends with after importing the positionals
      names of src: the names in order, each rebuilt from its declaration. */
  function ReimportedRegistry(src: Registry, names: seq<string>, programName: string): Registry
    requires forall k :: 0 <= k < |names| ==> names[k] in src.args
  {
    Registry(names, [], map k | k in names :: Reimported(src.args[k]), map[], programName, "")
  }

  /** Declaring the rebuilt positionals on a fresh parser gives exactly the
      rebuilt registry. */
  lemma DeclaredReimports(reg: Registry, names: seq<string>, programName: string)
    requires forall k :: 0 <= k < |names| ==> names[k] in reg.args && reg.args[names[k]].name == names[k]
    requires forall k :: 0 <= k < |names| ==> PositionalName(names[k])
    ensures DeclareArguments(EmptyRegistry(programName), Reimports(reg, names)) == ReimportedRegistry(reg, names, programName)
  {
    var e := EmptyRegistry(programName);
    DeclareReimports(e, reg, names);
    var out := DeclareArguments(e, Reimports(reg, names));
    var want := map k | k in names :: Reimported(reg.args[k]);
    assert out.args.Keys == want.Keys;
    forall k | k in want
      ensures out.args[k] == want[k]
    {
    }
    assert out.args == want;
  }

  /** After reading, position j holds the declaration rebuilt from the j-th
      positional, so flushing declares them all in order. */
  lemma FlushBuffered(reg: Registry, st: Reading) returns (a: Reading)
    requires WellFormed(reg) && st.posMap == map[]
    ensures a == AfterPositionals(st, reg, reg.positional, 1)
    ensures Flush(a.reg, a.posMap, 1, |reg.positional|) ==
            Imported(DeclareArguments(a.reg, Reimports(reg, reg.positional)), Success)
  {
    a := AfterPositionals(st, reg, reg.positional, 1);
    AfterPositionalsBuffer(st, reg, reg.positional, 1);
    BufferHolds(map[], reg, reg.positional, 1);
    var infos := Reimports(reg, reg.positional);
    forall k | 0 <= k < |infos|
      ensures At(a.posMap, 1 + k, infos[k])
    {
      var n := reg.positional[k];
    }
    FlushDeclares(a.reg, a.posMap, 1, |reg.positional|, infos);
  }

  /** Flushing the buffer reading back leaves declares the positionals in
      their export order. */
  lemma FlushReimports(reg: Registry, st: Reading, programName: string)
    requires WellFormed(reg) && st == Initial(EmptyRegistry(programName))
    requires forall k :: 0 <= k < |reg.positional| ==> PositionalName(reg.positional[k])
    ensures var a := AfterPositionals(st, reg, reg.positional, 1);
            Flush(a.reg, a.posMap, 1, a.positionalCount) ==
            Imported(ReimportedRegistry(reg, reg.positional, programName), Success)
  {
    var a := FlushBuffered(reg, st);
    DeclaredReimports(reg, reg.positional, programName);
  }

  /** Exporting a registry of fully written positionals and importing the
      text into a fresh parser declares the same positionals, in the same
      order, each with its name, type and accepted values. */
  lemma PositionalRoundTrip(reg: Registry, programName: string)
    requires WellFormed(reg) && reg.named == [] && |reg.positional| <= IntMax
    requires forall k :: 0 <= k < |reg.positional| ==>
               PositionalName(reg.positional[k]) && FullyWritten(reg.args[reg.positional[k]])
    ensures ExportEvents(reg).Ok?
    ensures ImportXml(EmptyRegistry(programName), Some(ReadBack(ExportEvents(reg).value))) ==
            Imported(ReimportedRegistry(reg, reg.positional, programName), Success)
  {
    var p := ExportPositionalsOnly(reg);
    PositionalsTexts(reg, reg.positional, 1);
    var ev := ExportEvents(reg).value;
    assert Chars("") !in ev;
    var st := Initial(EmptyRegistry(programName));
    SeedIsSeeded();
    ReadExport(reg, st);
    FlushReimports(reg, st, programName);
  }
}
