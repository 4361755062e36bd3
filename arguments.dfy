/** Argument and NamedArgument. Java's subclass becomes a `kind` tag on one
    class: a Named argument has the nickname string, the required flag and the
    mutual-exclusion set; on a Plain argument those fields are never used. */
module Arguments {

  datatype Kind = Plain | Named

  /** The value-level view of one argument object. */
  datatype ArgInfo = ArgInfo(
    name: string,
    kind: Kind,
    value: string,
    description: string,
    typ: string,
    accepted: set<string>,   // empty: any value is accepted
    nicknames: string,       // "-" followed by every nickname added, in order
    required: bool,          // built by the one-argument NamedArgument constructor
    mutex: set<string>)      // names of the arguments this one excludes
  {
    /** NamedArgument.isRequired */
    predicate IsRequired()
    {
      required
    }

    /** NamedArgument.hasMutualExclusiveArgs */
    predicate HasMutualExclusiveArgs()
    {
      mutex != {}
    }

    /** NamedArgument.isMutuallyExclusive(other) */
    predicate IsMutuallyExclusive(other: string)
    {
      other in mutex
    }
  }

  /** What `new Argument(name)` holds. */
  function PlainInfo(name: string): ArgInfo
  {
    ArgInfo(name, Plain, "", "", "", {}, "", false, {})
  }

  /** What `new NamedArgument(name, value)` holds. */
  function NamedInfo(name: string, value: string): ArgInfo
  {
    ArgInfo(name, Named, value, "", "", {}, "-", false, {})
  }

  /** What `new NamedArgument(name)` holds: a required argument with no value. */
  function RequiredInfo(name: string): ArgInfo
  {
    ArgInfo(name, Named, "", "", "", {}, "-", true, {})
  }

  class Argument {
    const name: string
    const kind: Kind
    var value: string
    var description: string
    var typ: string
    var accepted: set<string>
    var nicknames: string
    var required: bool
    var mutex: set<string>

    function Info(): ArgInfo
      reads this
    {
      ArgInfo(name, kind, value, description, typ, accepted, nicknames, required, mutex)
    }

    /** Argument(name): the given name, and value, description and type all "". */
    constructor (name: string)
      ensures Info() == PlainInfo(name)
    {
      this.name := name;
      kind := Plain;
      value, description, typ := "", "", "";
      accepted, nicknames, required, mutex := {}, "", false, {};
    }

    /** NamedArgument(name, value): nicknames start as "-". */
    constructor Named(name: string, value: string)
      ensures Info() == NamedInfo(name, value)
    {
      this.name := name;
      kind := Kind.Named;
      this.value := value;
      description, typ := "", "";
      accepted, nicknames, required, mutex := {}, "-", false, {};
    }

    /** NamedArgument(name): required, with the empty value. */
    constructor Required(name: string)
      ensures Info() == RequiredInfo(name)
    {
      this.name := name;
      kind := Kind.Named;
      value, description, typ := "", "", "";
      accepted, nicknames, required, mutex := {}, "-", true, {};
    }

    method SetValue(v: string)
      modifies this
      ensures Info() == old(Info()).(value := v)
    {
      value := v;
    }

    method SetDescription(d: string)
      modifies this
      ensures Info() == old(Info()).(description := d)
    {
      description := d;
    }

    /** Any string is taken as a type. */
    method SetType(t: string)
      modifies this
      ensures Info() == old(Info()).(typ := t)
    {
      typ := t;
    }

    method AddAcceptedValue(v: string)
      modifies this
      ensures Info() == old(Info()).(accepted := old(accepted) + {v})
    {
      accepted := accepted + {v};
    }

    method AddAcceptedValues(vs: seq<string>)
      modifies this
      ensures Info() == old(Info()).(accepted := old(accepted) + set v | v in vs)
    {
      accepted := accepted + set v | v in vs;
    }

    /** NamedArgument.addNickname appends to the nickname string. */
    method AddNickname(s: string)
      requires kind == Kind.Named
      modifies this
      ensures Info() == old(Info()).(nicknames := old(nicknames) + s)
    {
      nicknames := nicknames + s;
    }

    /** NamedArgument.addMutuallyExclusiveArg, given the other argument's name. */
    method AddMutuallyExclusiveArg(other: string)
      requires kind == Kind.Named
      modifies this
      ensures Info() == old(Info()).(mutex := old(mutex) + {other})
    {
      mutex := mutex + {other};
    }
  }

  /** The nickname string after a series of addNickname calls on a fresh
      NamedArgument: "-" and then every added piece in order. */
  function NicknamesAfter(added: seq<string>): (r: string)
    ensures |r| >= 1 && r[0] == '-'
    ensures |r| == 1 + TotalLength(added)
  {
    if added == [] then "-" else NicknamesAfter(added[..|added| - 1]) + added[|added| - 1]
  }

  function TotalLength(pieces: seq<string>): nat
  {
    if pieces == [] then 0 else TotalLength(pieces[..|pieces| - 1]) + |pieces[|pieces| - 1]|
  }

  /** A fresh NamedArgument and the nickname additions that follow it. */
  method NicknamesOfFresh(name: string, value: string, added: seq<string>) returns (arg: Argument)
    ensures arg.kind == Named && arg.nicknames == NicknamesAfter(added)
    ensures arg.Info() == NamedInfo(name, value).(nicknames := NicknamesAfter(added))
  {
    arg := new Argument.Named(name, value);
    var i := 0;
    while i < |added|
      invariant 0 <= i <= |added|
      invariant arg.Info() == NamedInfo(name, value).(nicknames := NicknamesAfter(added[..i]))
    {
      arg.AddNickname(added[i]);
      assert added[..i + 1][..i] == added[..i];
      i := i + 1;
    }
    assert added[..|added|] == added;
  }
}
