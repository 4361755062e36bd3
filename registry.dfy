/** The parser's registry as a value: the ordered positional names, the named
    names, the name-to-argument map, the short-form map and the program's name
    and description. The declaration methods of ArgumentParser are specified
    here as functions from one registry to the next. */
module Registries {
  import opened Errors
  import opened JavaStrings
  import opened Arguments

  datatype Registry = Registry(
    positional: seq<string>,          // positionalArgs
    named: seq<string>,               // namedArgs
    args: map<string, ArgInfo>,       // argumentMap
    shortForms: map<string, string>,  // shortFormMap: "-c" to a long name
    programName: string,
    programDescription: string)
  {
    /** The registry after `setValue(v)` on the argument registered as key. */
    function WithValue(key: string, v: string): (r: Registry)
      requires key in args
      ensures r.args.Keys == args.Keys
      ensures r.args[key] == args[key].(value := v)
      ensures forall k :: k in args && k != key ==> r.args[k] == args[k]
      ensures SameShape(this, r)
      ensures WellFormed(this) ==> WellFormed(r)
    {
      this.(args := args[key := args[key].(value := v)])
    }
  }

  /** What every declaration keeps true: each argument is registered under its
      own name, every listed or short-form name leads to a registered
      argument, and "-h" is never a positional name. */
  ghost predicate WellFormed(reg: Registry)
  {
    && (forall k :: k in reg.args ==> reg.args[k].name == k)
    && (forall i :: 0 <= i < |reg.positional| ==> reg.positional[i] in reg.args)
    && (forall i :: 0 <= i < |reg.named| ==> reg.named[i] in reg.args)
    && (forall s :: s in reg.shortForms ==> reg.shortForms[s] in reg.args)
    && "-h" !in reg.positional
  }

  /** An argument's declaration: everything but its value. */
  function Declaration(a: ArgInfo): ArgInfo
  {
    a.(value := "")
  }

  /** Two registries that differ at most in the values of their arguments. */
  ghost predicate SameShape(a: Registry, b: Registry)
  {
    && a.args.Keys == b.args.Keys
    && a.positional == b.positional
    && a.named == b.named
    && a.shortForms == b.shortForms
    && a.programName == b.programName
    && a.programDescription == b.programDescription
    && forall k :: k in a.args ==> Declaration(a.args[k]) == Declaration(b.args[k])
  }

  /** In registries of the same shape an argument differs at most in value. */
  lemma SameShapeAgrees(a: Registry, b: Registry, k: string)
    requires SameShape(a, b) && k in a.args
    ensures a.args[k].(value := b.args[k].value) == b.args[k]
  {
    assert Declaration(a.args[k]) == Declaration(b.args[k]);
  }

  /** The constructor ArgumentParser(programName). */
  function EmptyRegistry(programName: string): (r: Registry)
    ensures WellFormed(r)
  {
    Registry([], [], map[], map[], programName, "")
  }

  // ------------------------------------------------------------ declaring

  /** setArgument(String name): a positional, unless the name is "-h". */
  function DeclarePositional(reg: Registry, name: string): (r: Registry)
    ensures WellFormed(reg) ==> WellFormed(r)
  {
    if name == "-h" then reg
    else reg.(positional := reg.positional + [name], args := reg.args[name := PlainInfo(name)])
  }

  /** setArguments(String[] names): setArgument(name) for each name in turn. */
  function DeclarePositionals(reg: Registry, names: seq<string>): (r: Registry)
    ensures WellFormed(reg) ==> WellFormed(r)
  {
    if names == [] then reg
    else DeclarePositional(DeclarePositionals(reg, names[..|names| - 1]), names[|names| - 1])
  }

  /** The names in order, every "-h" left out. */
  function WithoutHelp(names: seq<string>): (r: seq<string>)
    ensures "-h" !in r
    ensures forall n :: n in r <==> n in names && n != "-h"
  {
    if names == [] then []
    else WithoutHelp(names[..|names| - 1]) + (if names[|names| - 1] == "-h" then [] else [names[|names| - 1]])
  }

  /** setArguments appends every name but "-h" to the positional list, in
      call order, registers exactly those names, and leaves the named list,
      the short forms and the program's name and description alone. */
  lemma {:induction false} DeclarePositionalsAppends(reg: Registry, names: seq<string>)
    ensures var r := DeclarePositionals(reg, names);
            && r.positional == reg.positional + WithoutHelp(names)
            && r.named == reg.named && r.shortForms == reg.shortForms
            && r.programName == reg.programName && r.programDescription == reg.programDescription
  {
    if names != [] {
      DeclarePositionalsAppends(reg, names[..|names| - 1]);
    }
  }

  /** setArguments registers exactly the names but "-h". */
  lemma {:induction false} DeclarePositionalsKeys(reg: Registry, names: seq<string>)
    ensures DeclarePositionals(reg, names).args.Keys == reg.args.Keys + (set n | n in names && n != "-h")
  {
    if names != [] {
      var init := names[..|names| - 1];
      DeclarePositionalsKeys(reg, init);
      assert names == init + [names[|names| - 1]];
    }
  }

  /** Each name but "-h" is registered as a fresh plain argument. */
  lemma {:induction false} DeclarePositionalsRegisters(reg: Registry, names: seq<string>, n: string)
    requires n in names && n != "-h"
    ensures n in DeclarePositionals(reg, names).args
    ensures DeclarePositionals(reg, names).args[n] == PlainInfo(n)
  {
    if n != names[|names| - 1] {
      var init := names[..|names| - 1];
      assert names == init + [names[|names| - 1]];
      DeclarePositionalsRegisters(reg, init, n);
    }
  }

  /** An argument none of the names refers to keeps its declaration. */
  lemma {:induction false} DeclarePositionalsKeeps(reg: Registry, names: seq<string>, k: string)
    requires k in reg.args && k !in names
    ensures k in DeclarePositionals(reg, names).args
    ensures DeclarePositionals(reg, names).args[k] == reg.args[k]
  {
    if names != [] {
      var init := names[..|names| - 1];
      assert k !in init;
      DeclarePositionalsKeeps(reg, init, k);
    }
  }

  /** setArgument(Argument arg): nothing for "-h"; otherwise the argument is
      registered under its name and listed as named when its name starts with
      "--", as positional otherwise. */
  function DeclareArgument(reg: Registry, info: ArgInfo): (r: Registry)
    ensures WellFormed(reg) ==> WellFormed(r)
    ensures info.name == "-h" ==> r == reg
    ensures info.name != "-h" ==> r.args == reg.args[info.name := info]
    ensures info.name != "-h" && StartsWith(info.name, "--") ==>
              r.named == reg.named + [info.name] && r.positional == reg.positional
    ensures info.name != "-h" && !StartsWith(info.name, "--") ==>
              r.positional == reg.positional + [info.name] && r.named == reg.named
    ensures r.shortForms == reg.shortForms
  {
    if info.name == "-h" then reg
    else if StartsWith(info.name, "--") then
      reg.(named := reg.named + [info.name], args := reg.args[info.name := info])
    else
      reg.(positional := reg.positional + [info.name], args := reg.args[info.name := info])
  }

  /** The characters after the first one, every 'h' left out, in order: the
      letters setNickname and setFlags turn into short forms. */
  function ShortLetters(s: string): (r: string)
    ensures 'h' !in r
    ensures forall c :: c in r <==> c != 'h' && exists i :: 1 <= i < |s| && s[i] == c
  {
    if |s| <= 1 then ""
    else
      var init := s[..|s| - 1];
      ShortLetters(init) + (if s[|s| - 1] == 'h' then "" else [s[|s| - 1]])
  }

  /** The short forms "-c" for the given letters. */
  function ShortNames(letters: string): set<string>
  {
    set i | 0 <= i < |letters| :: ['-', letters[i]]
  }

  lemma ShortNamesMembers(letters: string, c: char)
    ensures ['-', c] in ShortNames(letters) <==> c in letters
    ensures "-h" in ShortNames(letters) ==> 'h' in letters
  {
    if ['-', c] in ShortNames(letters) {
      var i :| 0 <= i < |letters| && ['-', letters[i]] == ['-', c];
      assert ['-', letters[i]][1] == letters[i];
    }
    if c in letters {
      var i :| 0 <= i < |letters| && letters[i] == c;
      assert ['-', letters[i]] in ShortNames(letters);
    }
    if "-h" in ShortNames(letters) {
      var i :| 0 <= i < |letters| && ['-', letters[i]] == "-h";
      assert ['-', letters[i]][1] == letters[i];
    }
  }

  /** setNickname(arg, shortFormNames): registers the argument under its name,
      lists it as named, maps "-c" to its name for each letter after the first
      (but 'h') and appends those letters to its nicknames. */
  function DeclareNickname(reg: Registry, info: ArgInfo, shortFormNames: string): (r: Registry)
    ensures WellFormed(reg) ==> WellFormed(r)
  {
    var letters := ShortLetters(shortFormNames);
    reg.(args := reg.args[info.name := info.(nicknames := info.nicknames + letters)],
         named := reg.named + [info.name],
         shortForms := reg.shortForms + map k | k in ShortNames(letters) :: info.name)
  }

  /** The flag setFlags creates for "-c". */
  function FlagInfo(name: string): ArgInfo
  {
    NamedInfo(name, "false").(typ := "boolean")
  }

  /** setFlags(flag): for a string with exactly one leading '-', a boolean
      flag "false" under "-c" for each letter after the dash but 'h', listed
      neither as positional nor as named. */
  function DeclareFlags(reg: Registry, flag: string): (r: Registry)
    ensures WellFormed(reg) ==> WellFormed(r)
  {
    if StartsWith(flag, "-") && !StartsWith(flag, "--") then
      reg.(args := reg.args + map k | k in ShortNames(ShortLetters(flag)) :: FlagInfo(k))
    else reg
  }

  /** setArgumentDescription on a registered name. */
  function WithDescription(reg: Registry, name: string, d: string): (r: Registry)
    requires name in reg.args
    ensures WellFormed(reg) ==> WellFormed(r)
  {
    reg.(args := reg.args[name := reg.args[name].(description := d)])
  }

  /** setArgumentType on a registered name. */
  function WithType(reg: Registry, name: string, t: string): (r: Registry)
    requires name in reg.args
    ensures WellFormed(reg) ==> WellFormed(r)
  {
    reg.(args := reg.args[name := reg.args[name].(typ := t)])
  }

  // ------------------------------------------------------------- reading

  /** The key getValue looks up: a name starting with "-" goes through the
      short-form map first. */
  function ResolveName(reg: Registry, name: string): string
  {
    if StartsWith(name, "-") && name in reg.shortForms then reg.shortForms[name] else name
  }

  /** getValue; None where Java dereferences the null of a failed lookup. */
  function ValueOf(reg: Registry, name: string): Option<string>
  {
    var key := ResolveName(reg, name);
    if key in reg.args then Some(reg.args[key].value) else None
  }

  /** getType, without short-form resolution. */
  function TypeOf(reg: Registry, name: string): Option<string>
  {
    if name in reg.args then Some(reg.args[name].typ) else None
  }

  /** getDescription, without short-form resolution. */
  function DescriptionOf(reg: Registry, name: string): Option<string>
  {
    if name in reg.args then Some(reg.args[name].description) else None
  }

  // ------------------------------------------------- declaration properties

  /** After setNickname, each "-c" it maps reads the same value as the long
      name; "-h" is never one of them; the argument is listed as named. */
  lemma NicknameResolves(reg: Registry, info: ArgInfo, shortFormNames: string, i: nat)
    requires 1 <= i < |shortFormNames| && shortFormNames[i] != 'h'
    ensures var r := DeclareNickname(reg, info, shortFormNames);
            && ValueOf(r, ['-', shortFormNames[i]]) == Some(info.value)
            && r.args[info.name].value == info.value
            && r.named == reg.named + [info.name]
            && ("-h" in r.shortForms <==> "-h" in reg.shortForms)
  {
    var letters := ShortLetters(shortFormNames);
    var c := shortFormNames[i];
    assert c in letters;
    ShortNamesMembers(letters, c);
    ShortNamesMembers(letters, 'h');
    var r := DeclareNickname(reg, info, shortFormNames);
    assert ResolveName(r, ['-', c]) == info.name;
  }

  /** setNickname gives the argument exactly the letters it maps, after the
      nicknames it already had. */
  lemma NicknameLettersRecorded(reg: Registry, info: ArgInfo, shortFormNames: string)
    ensures var r := DeclareNickname(reg, info, shortFormNames);
            && r.args[info.name].nicknames == info.nicknames + ShortLetters(shortFormNames)
            && (forall c :: ['-', c] in r.shortForms && ['-', c] !in reg.shortForms ==>
                  c in ShortLetters(shortFormNames) && r.shortForms[['-', c]] == info.name)
  {
    var letters := ShortLetters(shortFormNames);
    forall c | ['-', c] in DeclareNickname(reg, info, shortFormNames).shortForms && ['-', c] !in reg.shortForms
      ensures c in letters
    {
      ShortNamesMembers(letters, c);
    }
  }

  /** setFlags creates, for each letter after a single dash but 'h', a boolean
      flag "false" under "-c", and adds no list entry and no short form. */
  lemma FlagsCreated(reg: Registry, flag: string, i: nat)
    requires StartsWith(flag, "-") && !StartsWith(flag, "--")
    requires 1 <= i < |flag| && flag[i] != 'h'
    ensures var r := DeclareFlags(reg, flag);
            && ['-', flag[i]] in r.args
            && r.args[['-', flag[i]]] == FlagInfo(['-', flag[i]])
            && r.args[['-', flag[i]]].value == "false" && r.args[['-', flag[i]]].typ == "boolean"
            && r.positional == reg.positional && r.named == reg.named && r.shortForms == reg.shortForms
            && ("-h" in r.args <==> "-h" in reg.args)
  {
    var letters := ShortLetters(flag);
    assert flag[i] in letters;
    ShortNamesMembers(letters, flag[i]);
    ShortNamesMembers(letters, 'h');
  }

  /** setFlags on a string that does not have exactly one leading '-' does
      nothing. */
  lemma FlagsNeedSingleDash(reg: Registry, flag: string)
    requires !StartsWith(flag, "-") || StartsWith(flag, "--")
    ensures DeclareFlags(reg, flag) == reg
  {
  }

  // ----------------------------------------------------- one letter at a time

  /** The letters of a longer prefix: the next character joins unless it is 'h'. */
  lemma ShortLettersSnoc(s: string, i: nat)
    requires 1 <= i < |s|
    ensures ShortLetters(s[..i + 1]) == ShortLetters(s[..i]) + (if s[i] == 'h' then "" else [s[i]])
  {
    assert s[..i + 1][..i] == s[..i];
  }

  /** One more letter adds its short form. */
  lemma ShortNamesSnoc(letters: string, c: char)
    ensures ShortNames(letters + [c]) == ShortNames(letters) + {['-', c]}
  {
    forall k ensures k in ShortNames(letters + [c]) <==> k in ShortNames(letters) || k == ['-', c] {
      if k in ShortNames(letters + [c]) {
        var i :| 0 <= i < |letters + [c]| && k == ['-', (letters + [c])[i]];
        if i < |letters| {
          assert k == ['-', letters[i]];
        }
      }
      if k in ShortNames(letters) {
        var i :| 0 <= i < |letters| && k == ['-', letters[i]];
        assert k == ['-', (letters + [c])[i]];
      }
      if k == ['-', c] {
        assert k == ['-', (letters + [c])[|letters|]];
      }
    }
  }

  /** Mapping the short forms of one more letter is one more put. */
  lemma ShortFormsSnoc(m: map<string, string>, letters: string, c: char, target: string)
    ensures m + (map k | k in ShortNames(letters + [c]) :: target) ==
            (m + (map k | k in ShortNames(letters) :: target))[['-', c] := target]
  {
    ShortNamesSnoc(letters, c);
  }

  /** Creating the flags of one more letter is one more put. */
  lemma FlagsSnoc(args: map<string, ArgInfo>, letters: string, c: char)
    ensures args + (map k | k in ShortNames(letters + [c]) :: FlagInfo(k)) ==
            (args + (map k | k in ShortNames(letters) :: FlagInfo(k)))[['-', c] := FlagInfo(['-', c])]
  {
    ShortNamesSnoc(letters, c);
  }

  /** The first i characters of s, or all of s when it is shorter. */
  function Prefix(s: string, i: nat): (r: string)
    ensures |r| <= |s|
  {
    if i <= |s| then s[..i] else s
  }

  /** setNickname one letter further: a letter other than 'h' maps its short
      form to the argument and is appended to its nicknames; 'h' changes
      nothing. */
  lemma NicknameStep(s: string, i: nat, reg: Registry, info: ArgInfo)
    requires 1 <= i < |s|
    ensures var r0 := DeclareNickname(reg, info, Prefix(s, i));
            var r1 := DeclareNickname(reg, info, Prefix(s, i + 1));
            if s[i] == 'h' then r1 == r0
            else
              && info.name in r0.args
              && r1 == r0.(args := r0.args[info.name := r0.args[info.name].(nicknames := r0.args[info.name].nicknames + [s[i]])],
                           shortForms := r0.shortForms[['-', s[i]] := info.name])
  {
    var letters := ShortLetters(s[..i]);
    ShortLettersSnoc(s, i);
    if s[i] == 'h' {
      assert ShortLetters(s[..i + 1]) == letters;
    } else {
      assert info.nicknames + (letters + [s[i]]) == info.nicknames + letters + [s[i]];
      ShortFormsSnoc(reg.shortForms, letters, s[i], info.name);
    }
  }

  /** Before its loop, setNickname has registered the argument and listed it
      as named, and mapped no letter. */
  lemma NicknameStart(reg: Registry, info: ArgInfo, s: string)
    ensures DeclareNickname(reg, info, Prefix(s, 1)) ==
              reg.(args := reg.args[info.name := info], named := reg.named + [info.name])
  {
    assert ShortLetters(Prefix(s, 1)) == "";
    assert info.(nicknames := info.nicknames + "") == info;
    assert reg.shortForms + (map k | k in ShortNames("") :: info.name) == reg.shortForms;
  }

  /** A prefix of a flag string with one leading '-' has one leading '-'. */
  lemma SingleDashPrefix(s: string, i: nat)
    requires StartsWith(s, "-") && !StartsWith(s, "--") && 1 <= i
    ensures StartsWith(Prefix(s, i), "-") && !StartsWith(Prefix(s, i), "--")
  {
    if i <= |s| {
      assert s[..i][..1] == s[..1];
      if 2 <= i {
        assert s[..i][..2] == s[..2];
      }
    }
  }

  /** Before its loop, setFlags has created no flag. */
  lemma FlagsStart(reg: Registry, flag: string)
    requires StartsWith(flag, "-") && !StartsWith(flag, "--")
    ensures DeclareFlags(reg, Prefix(flag, 1)) == reg
  {
    SingleDashPrefix(flag, 1);
    assert ShortLetters(Prefix(flag, 1)) == "";
    assert reg.args + (map k | k in ShortNames("") :: FlagInfo(k)) == reg.args;
  }

  /** setFlags one letter further: a letter other than 'h' (re)declares its
      flag, whatever was registered under "-c" before. */
  lemma FlagsStep(s: string, i: nat, reg: Registry)
    requires StartsWith(s, "-") && !StartsWith(s, "--") && 1 <= i < |s|
    ensures var r0 := DeclareFlags(reg, Prefix(s, i));
            var r1 := DeclareFlags(reg, Prefix(s, i + 1));
            if s[i] == 'h' then r1 == r0
            else r1 == r0.(args := r0.args[['-', s[i]] := FlagInfo(['-', s[i]])])
  {
    SingleDashPrefix(s, i);
    SingleDashPrefix(s, i + 1);
    var letters := ShortLetters(s[..i]);
    ShortLettersSnoc(s, i);
    if s[i] == 'h' {
      assert ShortLetters(s[..i + 1]) == letters;
    } else {
      FlagsSnoc(reg.args, letters, s[i]);
    }
  }
}
