# ArgumentParser, Argument, NamedArgument and XML, modelled in Dafny

The library is a small command-line argument parser in the style of
Python's argparse (package `edu.wofford`). A program creates an
`ArgumentParser` and declares its arguments:
- positional arguments, filled in order;
- named arguments "--name" with a default value, short forms "-n" and
  boolean flags;
- for each argument, an optional type ("int", "float", "boolean",
  "string"), a set of accepted values, a required mark and mutually
  exclusive partners.

`setArgumentValues` then drains the command line through a queue. It
sets each argument object's value or throws one of the library's
exceptions, each carrying a usage-prefixed message. The parser can also
write its declarations as XML (`createXML`) and read declarations back
from an XML stream (`parseXML`).

The Dafny project follows that structure:

| file | module | what it holds |
|---|---|---|
| errors.dfy | `Errors` | the exception classes and the Java runtime exceptions the code can raise, as `ArgError`; `Outcome` and `Result` for how a method ends |
| arguments.dfy | `Arguments` | `Argument` and `NamedArgument` as one class with a `kind` tag and fields updated in place; `ArgInfo` is its value-level view |
| javastrings.dfy | `JavaStrings` | `startsWith`, `trim`, ASCII `toLowerCase`, `Integer.toString`, `Integer.parseInt`, and the literal grammar `Float.valueOf` accepts |
| registry.dfy | `Registries` | the parser's state as a `Registry` value, and every declaration method as a function from one registry to the next |
| parsing.dfy | `Parsing` | `setArgumentValues` as a function (`ParseSpec`), together with the messages, `checkAndSet`, `legitimateValue` and the mutual-exclusion post-pass |
| parser.dfy | `Parser` | the `ArgumentParser` class: fields, declaration methods, getters, and `setArgumentValues` as a loop proved to compute `ParseSpec` |
| parse_props.dfy | `ParseProperties` | what the parse promises: positional filling, help, long and short options, clusters, the post-pass |
| xml_events.dfy | `XmlEvents` | the StAX writer calls and reader events as a sequence of events, and the text they stand for |
| xml_export.dfy | `XmlExport` | `createXML`, `writePositionalXML` and `writeNamedXML` as functions of the registry |
| xml_import.dfy | `XmlImport` | `parseXML` as an event state machine (`Run`), and the imperative reader that mutates a parser, proved to follow it |
| xml_props.dfy | `XmlProperties` | reading an exported document back: the positional round trip, what one named element declares, and that an import never declares a required argument or one with partners |

Each mutating `ArgumentParser` method ensures that the parser's
`Snapshot()` equals the matching `Registry` function applied to the old
snapshot. The parse ensures, in addition, that every argument object ends
with exactly the value `ParseSpec` assigns, including when it throws
part-way. Most properties are then proved as lemmas about those
functions.

Argument values stay strings, as in the source: a value of type "int" is
only checked to be a 32-bit decimal numeral written in ASCII digits.

Some behaviour of the code, as written, is modelled exactly:
- Only arguments given as "--name" that are listed as named and have
  mutually exclusive partners are recorded for the post-pass. So the
  required check of the post-pass reaches only those arguments: a
  required named argument that is never given raises nothing.
- Each exclusive argument after the first is compared only with the first
  one (`ParseProperties.PostPassOutcome`).
- A short form, or a cluster letter, sets a flag or value without
  recording it for the post-pass.
- A cluster letter sets its target to "true" whatever the target's type.

## Model

| member | source | states |
|---|---|---|
| Arguments.Argument.constructor | src/main/java/edu/wofford/Argument.java:22-27 | a new Argument has the given name and value, description and type all "" |
| Arguments.Argument.Named | src/main/java/edu/wofford/NamedArgument.java:24-28 | a new NamedArgument has the given value and the nickname string "-" |
| Arguments.Argument.Required | src/main/java/edu/wofford/XML.java:266-268 | the one-argument NamedArgument constructor gives a required argument with the empty value |
| Arguments.Argument.SetValue | src/main/java/edu/wofford/Argument.java:34-36 | only the value changes |
| Arguments.Argument.SetDescription | src/main/java/edu/wofford/Argument.java:43-45 | only the description changes |
| Arguments.Argument.SetType | src/main/java/edu/wofford/Argument.java:52-54 | only the type changes, to any string |
| Arguments.Argument.AddNickname | src/main/java/edu/wofford/NamedArgument.java:35-37 | the piece is appended to the nickname string; nothing else changes |
| Arguments.Argument.AddAcceptedValues | src/main/java/edu/wofford/XML.java:259-260 | the accepted set grows by exactly the given values |
| Arguments.Argument.AddAcceptedValue | src/test/java/edu/wofford/ArgumentParserTest.java:472 | the accepted set grows by exactly the given value |
| Arguments.Argument.AddMutuallyExclusiveArg | src/main/java/edu/wofford/XML.java:275-279 | the partner's name joins the mutex set; nothing else changes |
| Arguments.NicknamesAfter | src/main/java/edu/wofford/NamedArgument.java:44-46 | the nickname string always starts with "-" and is one longer than all pieces added |
| Arguments.NicknamesOfFresh | src/main/java/edu/wofford/NamedArgument.java:24-37 | a fresh NamedArgument after a series of addNickname calls holds "-" followed by every piece in order |
| JavaStrings.TrimEndAppend | src/main/java/edu/wofford/ArgumentParser.java:407 | trimming the end of a text stays inside its last part when that part holds a visible character |
| JavaStrings.TrimDropsLastBlank | src/main/java/edu/wofford/ArgumentParser.java:416 | trim drops a trailing blank from a string with visible ends |
| JavaStrings.NatToString | src/main/java/edu/wofford/XML.java:156 | Integer.toString of a position is a non-empty decimal numeral with that value and no leading zero |
| JavaStrings.ParseInt | src/main/java/edu/wofford/ArgumentParser.java:444-445 | a value the model's Integer.valueOf accepts lies in the 32-bit range and starts with an ASCII digit or a sign (the model reads ASCII digits only) |
| JavaStrings.ParseIntOfNatToString | src/main/java/edu/wofford/XML.java:261 | Integer.parseInt reads back the position that Integer.toString wrote |
| JavaStrings.ParseIntRejectsNonDigit | src/main/java/edu/wofford/ArgumentParser.java:443-455 | a character other than an ASCII digit after the optional sign makes the model's parseInt fail (Java still reads other scripts' decimal digits) |
| JavaStrings.NumeralIsJavaFloat | src/main/java/edu/wofford/ArgumentParser.java:446-447 | every ASCII decimal numeral is a float literal |
| Registries.EmptyRegistry | src/main/java/edu/wofford/ArgumentParser.java:75-82 | the new parser's registry is well formed |
| Registries.DeclarePositionalsAppends | src/main/java/edu/wofford/ArgumentParser.java:110-118 | setArguments appends every name but "-h" to the positional list in order, and leaves the named list, short forms, program name and description alone |
| Registries.DeclarePositionalsKeys | src/main/java/edu/wofford/ArgumentParser.java:110-118 | setArguments registers exactly the names other than "-h" |
| Registries.DeclarePositionalsRegisters | src/main/java/edu/wofford/ArgumentParser.java:112-116 | each name but "-h" holds a fresh plain Argument |
| Registries.DeclarePositionalsKeeps | src/main/java/edu/wofford/ArgumentParser.java:110-118 | an argument none of the names refers to keeps its declaration |
| Registries.DeclareArgument | src/main/java/edu/wofford/ArgumentParser.java:141-151 | setArgument(arg) does nothing for "-h"; otherwise it puts arg under its name, lists it as named exactly when the name starts with "--" and as positional otherwise, and keeps the short forms |
| Registries.ShortLetters | src/main/java/edu/wofford/ArgumentParser.java:167-173 | the letters turned into short forms are exactly the characters after the first, other than 'h' |
| Registries.NicknameResolves | src/main/java/edu/wofford/ArgumentParser.java:164-174 | after setNickname each mapped "-c" reads the long argument's value through getValue, the argument is listed as named, and "-h" is never mapped |
| Registries.NicknameLettersRecorded | src/main/java/edu/wofford/ArgumentParser.java:167-173 | the argument's nicknames grow by exactly the mapped letters, and every new short form names the argument |
| Registries.NicknameStep | src/main/java/edu/wofford/ArgumentParser.java:168-172 | one turn of setNickname's loop: a letter other than 'h' maps its short form and extends the nicknames; 'h' changes nothing |
| Registries.FlagsCreated | src/main/java/edu/wofford/ArgumentParser.java:207-218 | setFlags creates a boolean flag "false" under "-c" for each letter but 'h', and adds no list entry and no short form |
| Registries.FlagsNeedSingleDash | src/main/java/edu/wofford/ArgumentParser.java:208 | setFlags does nothing unless the string has exactly one leading '-' |
| Registries.FlagsStep | src/main/java/edu/wofford/ArgumentParser.java:210-215 | one turn of setFlags's loop: a letter other than 'h' (re)declares its flag; 'h' changes nothing |
| Parsing.CheckValue | src/main/java/edu/wofford/ArgumentParser.java:423-440 | checkAndSet sets the value exactly when the value is accepted (or nothing is listed) and legitimate for the type; it throws only UnacceptedValue or InvalidType, and InvalidType only for "int" or "float" |
| Parsing.OptionValue | src/main/java/edu/wofford/ArgumentParser.java:294-298 | a non-boolean option takes exactly the next token, and only when checkAndSet accepts it |
| Parsing.RecordMutex | src/main/java/edu/wofford/ArgumentParser.java:300-305 | the cast fails exactly for a plain Argument listed as named; otherwise the encountered list is kept or gains the option's name |
| Parsing.ClusterTarget | src/main/java/edu/wofford/ArgumentParser.java:311-316 | a cluster letter's target is a registered argument |
| Parsing.ParseStep | src/main/java/edu/wofford/ArgumentParser.java:288-346 | each turn of the loop shortens the queue and keeps the encountered list well formed |
| Parsing.LongOptionStep | src/main/java/edu/wofford/ArgumentParser.java:291-306 | a "--" token consumes at most one more token |
| Parsing.ShortOptionStep | src/main/java/edu/wofford/ArgumentParser.java:307-335 | a single-dash token consumes at most one more token and records nothing for the post-pass |
| Parsing.SingleShortStep | src/main/java/edu/wofford/ArgumentParser.java:323-334 | a "-x" token consumes at most one more token and records nothing |
| Parsing.PositionalStep | src/main/java/edu/wofford/ArgumentParser.java:336-346 | a plain token consumes only itself and advances the positional index by one |
| Parsing.CheckMutuallyExclusive | src/main/java/edu/wofford/ArgumentParser.java:459-471 | checkMutuallyExclusiveNamedArgs returns a listed name in conflict (in either direction), or "" exactly when no listed name conflicts |
| Parsing.ExclusionStep | src/main/java/edu/wofford/ArgumentParser.java:364-375 | the kept list only ever holds registered named "--" arguments |
| Parsing.PostPassTurn | src/main/java/edu/wofford/ArgumentParser.java:356-376 | one turn of the post-pass: the required check, then the exclusion step, then the rest of the list |
| Parsing.WithValues | src/main/java/edu/wofford/ArgumentParser.java:279-377 | parsing changes only argument values: the declarations, lists and short forms stay as they were |
| ParseProperties.MakeStringJoins | src/main/java/edu/wofford/ArgumentParser.java:411-417 | makeString separates the items by single spaces, with none at either end, when no item starts or ends with a blank |
| ParseProperties.SpaceAfterEachIsJoin | src/main/java/edu/wofford/ArgumentParser.java:413-415 | the untrimmed string is the items joined by spaces, plus one trailing space |
| ParseProperties.HelpMessageLists | src/main/java/edu/wofford/ArgumentParser.java:399-409 | the help message is the usage line, the description, the header and one "name description" line per positional; trim reaches into the last line only, dropping its newline and trailing blanks, as long as that line holds a visible character |
| ParseProperties.HelpMessageUndescribed | src/main/java/edu/wofford/ArgumentParser.java:399-409 | with the default empty description (Argument.java:25) the last line is the bare name: the blank after it goes with the newline |
| ParseProperties.HelpMessageWithoutPositionals | src/main/java/edu/wofford/ArgumentParser.java:399-409 | without positionals the help message ends in the bare header |
| ParseProperties.IntArgumentTakesNumerals | src/main/java/edu/wofford/ArgumentParser.java:444-445 | an "int" argument with no accepted values takes the decimal form of any non-negative int |
| ParseProperties.UnacceptedBeforeType | src/main/java/edu/wofford/ArgumentParser.java:424-431 | a value outside a non-empty accepted set throws UnacceptedValue with its message before the type is looked at |
| ParseProperties.InvalidTypeMessage | src/main/java/edu/wofford/ArgumentParser.java:432-439 | an accepted value of the wrong type throws InvalidType naming the type |
| ParseProperties.FillSlotsSets | src/main/java/edu/wofford/ArgumentParser.java:341-344 | with distinct positional names, slot k holds token k |
| ParseProperties.FillSlotsOnly | src/main/java/edu/wofford/ArgumentParser.java:341-344 | nothing but the filled positional names is assigned |
| ParseProperties.SlotStep | src/main/java/edu/wofford/ArgumentParser.java:336-346 | a plain token either throws checkAndSet's exception or fills the next slot and goes on |
| ParseProperties.PositionalRun | src/main/java/edu/wofford/ArgumentParser.java:287-346 | the plain tokens at the front of the command line fill the positional slots in order |
| ParseProperties.ParseFillsPositionals | src/main/java/edu/wofford/ArgumentParser.java:279-352 | one accepted plain token per slot succeeds, assigning exactly the slots |
| ParseProperties.ParseSetsSlots | src/main/java/edu/wofford/ArgumentParser.java:279-352 | after such a parse positional k holds token k and every other argument is unchanged |
| ParseProperties.ParseRejectsExtraPositional | src/main/java/edu/wofford/ArgumentParser.java:337-339 | a plain token past the last slot throws UnrecognizedArgument with its message; the earlier slots keep their tokens |
| ParseProperties.ParseReportsMissingPositional | src/main/java/edu/wofford/ArgumentParser.java:348-352 | too few plain tokens throws MissingRequiredArgument naming the first unfilled slot |
| ParseProperties.ParseStopsAtRefusedPositional | src/main/java/edu/wofford/ArgumentParser.java:341-344 | the first refused positional token ends the parse with checkAndSet's exception, the earlier slots set |
| ParseProperties.PlainCommandLine | src/main/java/edu/wofford/ArgumentParser.java:279-352 | a plain command line succeeds if and only if it has one token per slot and every slot accepts its token |
| ParseProperties.HelpTokenStops | src/main/java/edu/wofford/ArgumentParser.java:289-290 | "-h" or "--help" throws the help message whatever follows, keeping the values set before |
| ParseProperties.HelpAfterPositionals | src/main/java/edu/wofford/ArgumentParser.java:287-290 | help after some positional tokens keeps the values those tokens set |
| ParseProperties.LongOptionSkipped | src/main/java/edu/wofford/ArgumentParser.java:291-292 | an undeclared "--" option is skipped |
| ParseProperties.LongOptionFlag | src/main/java/edu/wofford/ArgumentParser.java:294-295 | a declared boolean "--" option becomes "true", takes no token, and is recorded when it is listed as named and has mutex partners |
| ParseProperties.LongOptionTakesValue | src/main/java/edu/wofford/ArgumentParser.java:296-305 | another declared "--" option takes the next token when checkAndSet accepts it |
| ParseProperties.LongOptionRefusesValue | src/main/java/edu/wofford/ArgumentParser.java:297-298 | a refused value ends the parse with checkAndSet's exception and assigns nothing |
| ParseProperties.LongOptionMissingValue | src/main/java/edu/wofford/ArgumentParser.java:297 | a value-taking option as the last token throws NoSuchElement |
| ParseProperties.PlainLongOptionFailsCast | src/main/java/edu/wofford/ArgumentParser.java:300-301 | a plain Argument listed as named fails the cast after its value is set |
| ParseProperties.ShortOptionCases | src/main/java/edu/wofford/ArgumentParser.java:322-335 | "-c" sets a flag to "true" whatever its type, sets a boolean short form's target to "true", skips an unknown option, and records none |
| ParseProperties.ShortFormTakesValue | src/main/java/edu/wofford/ArgumentParser.java:326-333 | a short form of a value-taking argument takes the next token through checkAndSet, or throws with nothing assigned |
| ParseProperties.ClusterSucceeds | src/main/java/edu/wofford/ArgumentParser.java:308-321 | a cluster succeeds if and only if every letter is a flag or a short form |
| ParseProperties.ClusterReportsFirstUnknown | src/main/java/edu/wofford/ArgumentParser.java:317-320 | the first unknown letter is reported as an unrecognized flag |
| ParseProperties.ClusterOnlySetsTrue | src/main/java/edu/wofford/ArgumentParser.java:309-316 | a cluster only ever assigns "true" |
| ParseProperties.ClusterSetsTarget | src/main/java/edu/wofford/ArgumentParser.java:309-316 | every letter before the first unknown one has its target set to "true", even when a later letter throws |
| ParseProperties.ExclusionAfterFirst | src/main/java/edu/wofford/ArgumentParser.java:364-375 | once the first exclusive argument is kept, the list never grows; a conflict with it throws MutuallyExclusiveArgument |
| ParseProperties.PostPassAfterFirst | src/main/java/edu/wofford/ArgumentParser.java:356-376 | with the first exclusive argument kept, the post-pass succeeds if and only if no later one is required and empty or conflicts with the first |
| ParseProperties.PostPassOutcome | src/main/java/edu/wofford/ArgumentParser.java:354-376 | the post-pass over exclusive arguments succeeds if and only if none is required and empty and none after the first conflicts with the first |
| Parser.ArgumentParser.constructor | src/main/java/edu/wofford/ArgumentParser.java:75-82 | no arguments, empty lists and maps, the given program name and the empty description |
| Parser.ArgumentParser.SetProgramName | src/main/java/edu/wofford/ArgumentParser.java:91-93 | only the program name changes |
| Parser.ArgumentParser.SetProgramDescription | src/main/java/edu/wofford/ArgumentParser.java:100-102 | only the description changes |
| Parser.ArgumentParser.SetArgument | src/main/java/edu/wofford/ArgumentParser.java:126-132 | the new state is DeclarePositional of the old |
| Parser.ArgumentParser.SetArguments | src/main/java/edu/wofford/ArgumentParser.java:110-118 | the new state is DeclarePositionals of the old, so the Registries lemmas on setArguments apply |
| Parser.ArgumentParser.SetArgumentObject | src/main/java/edu/wofford/ArgumentParser.java:141-151 | the new state is DeclareArgument of the old |
| Parser.ArgumentParser.SetNickname | src/main/java/edu/wofford/ArgumentParser.java:164-174 | the new state is DeclareNickname of the old state and the argument as it was |
| Parser.ArgumentParser.RegisterNamed | src/main/java/edu/wofford/ArgumentParser.java:165-166 | the argument is put under its name and its name is appended to the named list |
| Parser.ArgumentParser.AddNicknames | src/main/java/edu/wofford/ArgumentParser.java:167-173 | setNickname's loop reaches DeclareNickname of the whole string |
| Parser.ArgumentParser.NicknameLetter | src/main/java/edu/wofford/ArgumentParser.java:168-172 | one letter other than 'h' maps "-c" to the argument and extends its nicknames; 'h' changes nothing |
| Parser.ArgumentParser.SetFlags | src/main/java/edu/wofford/ArgumentParser.java:207-218 | the new state is DeclareFlags of the old |
| Parser.ArgumentParser.AddFlags | src/main/java/edu/wofford/ArgumentParser.java:209-216 | setFlags's loop reaches DeclareFlags of the whole string |
| Parser.ArgumentParser.FlagLetter | src/main/java/edu/wofford/ArgumentParser.java:210-215 | one letter other than 'h' puts a new boolean flag "false" under "-c" |
| Parser.ArgumentParser.SetArgumentDescription | src/main/java/edu/wofford/ArgumentParser.java:183-186 | a registered name gets the description; an unknown one throws NullPointer and changes nothing |
| Parser.ArgumentParser.SetArgumentType | src/main/java/edu/wofford/ArgumentParser.java:194-197 | a registered name gets the type; an unknown one throws NullPointer and changes nothing |
| Parser.ArgumentParser.GetProgramName | src/main/java/edu/wofford/ArgumentParser.java:225-227 | the program name |
| Parser.ArgumentParser.GetValue | src/main/java/edu/wofford/ArgumentParser.java:235-243 | the value under the name, resolved through the short-form map when it starts with '-'; None for an unknown name |
| Parser.ArgumentParser.GetDescription | src/main/java/edu/wofford/ArgumentParser.java:251-254 | the registered description, or None |
| Parser.ArgumentParser.GetType | src/main/java/edu/wofford/ArgumentParser.java:262-265 | the registered type, or None |
| Parser.ArgumentParser.MakeString | src/main/java/edu/wofford/ArgumentParser.java:411-417 | the loop builds Parsing.MakeString, so MakeStringJoins describes its result |
| Parser.ArgumentParser.MakeUsageMessage | src/main/java/edu/wofford/ArgumentParser.java:419-421 | the usage line of the current state |
| Parser.ArgumentParser.MakeHelpMessage | src/main/java/edu/wofford/ArgumentParser.java:399-409 | the loop builds HelpMessage of the current state |
| Parser.ArgumentParser.SetValueOf | src/main/java/edu/wofford/ArgumentParser.java:295 | setValue on a registered object changes that argument's value and no other |
| Parser.ArgumentParser.CheckAndSet | src/main/java/edu/wofford/ArgumentParser.java:423-440 | the exception is CheckValue's, and the value is set exactly when there is none |
| Parser.ArgumentParser.TakeValue | src/main/java/edu/wofford/ArgumentParser.java:294-298 | the value step agrees with OptionValue, and the value is set exactly when it succeeds |
| Parser.ArgumentParser.LongOption | src/main/java/edu/wofford/ArgumentParser.java:291-306 | the "--" branch agrees with LongOptionStep |
| Parser.ArgumentParser.SetClusterLetter | src/main/java/edu/wofford/ArgumentParser.java:310-320 | a letter is found exactly when it is a flag or a short form, and then its target becomes "true" |
| Parser.ArgumentParser.SetClusterFlags | src/main/java/edu/wofford/ArgumentParser.java:308-321 | the cluster loop agrees with SetCluster, including the values left by a throw |
| Parser.ArgumentParser.ShortOption | src/main/java/edu/wofford/ArgumentParser.java:307-335 | the single-dash branch agrees with ShortOptionStep |
| Parser.ArgumentParser.SingleShort | src/main/java/edu/wofford/ArgumentParser.java:323-334 | the "-x" branch agrees with SingleShortStep |
| Parser.ArgumentParser.Positional | src/main/java/edu/wofford/ArgumentParser.java:336-346 | the positional branch agrees with PositionalStep |
| Parser.ArgumentParser.CheckMutuallyExclusiveNamedArgs | src/main/java/edu/wofford/ArgumentParser.java:459-471 | the loop returns CheckMutuallyExclusive's answer |
| Parser.ArgumentParser.CheckEncounteredArg | src/main/java/edu/wofford/ArgumentParser.java:357-375 | one turn of the post-pass loop agrees with PostPass |
| Parser.ArgumentParser.CheckExclusion | src/main/java/edu/wofford/ArgumentParser.java:364-375 | the exclusion part agrees with ExclusionStep |
| Parser.ArgumentParser.CheckEncountered | src/main/java/edu/wofford/ArgumentParser.java:354-376 | the post-pass loop ends as PostPass does |
| Parser.ArgumentParser.HelpToken | src/main/java/edu/wofford/ArgumentParser.java:399-409 | help() throws the help message of the declarations, whatever values are set |
| Parser.ArgumentParser.ParseToken | src/main/java/edu/wofford/ArgumentParser.java:288-346 | one turn of the loop agrees with ParseStep |
| Parser.ArgumentParser.SetArgumentValues | src/main/java/edu/wofford/ArgumentParser.java:279-377 | how setArgumentValues ends is ParseSpec's outcome, and the argument objects end with exactly the values ParseSpec assigns, also after a throw |
| Parser.ArgumentParser.ParseQueue | src/main/java/edu/wofford/ArgumentParser.java:280-376 | the queue loop and the checks after it end as ParseSpec does |
| Parser.ArgumentParser.FinishParse | src/main/java/edu/wofford/ArgumentParser.java:348-376 | an unfilled slot throws MissingRequiredArgument, otherwise the post-pass decides, as in Finish |
| Parser.HelpMessageIgnoresValues | src/main/java/edu/wofford/ArgumentParser.java:399-409 | the help message depends on the declarations only, not on the values |
| XmlEvents.TextElement | src/main/java/edu/wofford/XML.java:149-151 | a text element renders as start tag, text, end tag |
| XmlEvents.ReadBack | src/main/java/edu/wofford/XML.java:246-247 | a reader sees what was written, except that an empty text is not an event |
| XmlEvents.ReadBackSameText | src/main/java/edu/wofford/XML.java:246-247 | dropping the empty texts does not change the document text |
| XmlExport.Enumerate | src/main/java/edu/wofford/XML.java:159 | a HashSet is iterated as some order of exactly its members |
| XmlExport.NicknameLetters | src/main/java/edu/wofford/XML.java:178-184 | one shortname per nickname letter after the leading '-' |
| XmlExport.CreateXml | src/main/java/edu/wofford/XML.java:85-114 | createXML succeeds exactly when its writer calls do, and the text starts with the arguments element |
| XmlExport.PositionalsSucceed | src/main/java/edu/wofford/XML.java:94-97 | writing registered positionals never fails |
| XmlExport.MutexSucceedsIff | src/main/java/edu/wofford/XML.java:203-214 | the mutex scan fails if and only if it meets a plain Argument under another "--" key |
| XmlExport.NamedSucceedsIff | src/main/java/edu/wofford/XML.java:171-226 | writeNamedXML succeeds if and only if the argument is a NamedArgument with a name of two or more characters and, when it has partners, no plain Argument sits under another "--" key |
| XmlExport.NamedsSucceedIff | src/main/java/edu/wofford/XML.java:98-100 | the named loop succeeds if and only if every listed named argument is exportable |
| XmlExport.ExportSucceedsIff | src/main/java/edu/wofford/XML.java:85-114 | createXML on a well-formed parser fails if and only if some listed named argument is not exportable |
| XmlExport.Partners | src/main/java/edu/wofford/XML.java:204-211 | the partners are exactly the other "--" keys whose argument lists this one |
| XmlExport.MutexListsPartners | src/main/java/edu/wofford/XML.java:203-214 | the mutex elements name exactly the partners that list the argument back, whether or not it lists them |
| XmlImport.SeedIsSeeded | src/main/java/edu/wofford/XML.java:30-32 | attMap starts with every field but "accepted" and with no "required" or "mutex" entry |
| XmlImport.HandleCharacters | src/main/java/edu/wofford/XML.java:246-253 | reading a field keeps attMap seeded and free of "required" and "mutex" |
| XmlImport.DeclareNamedFromXml | src/main/java/edu/wofford/XML.java:280-286 | declaring an imported named argument keeps the parser well formed (what it declares: XmlProperties.AfterNamedDeclares, ReadNamedEntry) |
| XmlImport.NamedFromSeeded | src/main/java/edu/wofford/XML.java:264-279 | since attMap never holds "required" or "mutex", the NamedArgument built is "--" and the name with the default as value, the type and accepted values, not required and without partners |
| XmlImport.StartStep | src/main/java/edu/wofford/XML.java:39-48 | a start tag consumes itself and, for a field, its text event, within the stream |
| XmlImport.EndStep | src/main/java/edu/wofford/XML.java:49-60 | an end tag consumes exactly itself when it does not throw |
| XmlImport.Step | src/main/java/edu/wofford/XML.java:37-61 | each event moves the reader forward within the stream and keeps attMap seeded |
| XmlImport.Run | src/main/java/edu/wofford/XML.java:36-62 | the loop keeps attMap seeded |
| XmlImport.NamedArgumentFromXml | src/main/java/edu/wofford/XML.java:265-279 | setNamedFromXML builds a fresh NamedArgument: required when attMap has "required", with the name, default, type, accepted values and mutex partner read |
| XmlImport.RunKeepsWellFormed | src/main/java/edu/wofford/XML.java:36-62 | no event leaves the parser ill formed, also when one throws |
| XmlImport.Flush | src/main/java/edu/wofford/XML.java:63-66 | setting the buffered positionals keeps the parser well formed |
| XmlImport.ImportXml | src/main/java/edu/wofford/XML.java:22-74 | parseXML keeps the parser well formed |
| XmlImport.ToArray | src/main/java/edu/wofford/XML.java:259 | the array holds exactly the set's members |
| XmlImport.ParseXml | src/main/java/edu/wofford/XML.java:22-74 | the parser ends as ImportXml says, with the same outcome |
| XmlImport.ReadEvent | src/main/java/edu/wofford/XML.java:37-61 | one turn of the loop agrees with Step |
| XmlImport.StartElement | src/main/java/edu/wofford/XML.java:39-48 | a start element agrees with StartStep |
| XmlImport.EndElement | src/main/java/edu/wofford/XML.java:49-60 | an end element agrees with EndStep |
| XmlImport.SetPositionalFromXml | src/main/java/edu/wofford/XML.java:255-262 | a well-formed position buffers the plain Argument read under it; any other throws NumberFormat |
| XmlImport.SetNamedFromXml | src/main/java/edu/wofford/XML.java:264-287 | the parser ends as DeclareNamedFromXml says |
| XmlImport.FlushPositionals | src/main/java/edu/wofford/XML.java:63-66 | the last loop agrees with Flush |
| XmlProperties.RunTextElement | src/main/java/edu/wofford/XML.java:45-47 | reading a lower-case field element records its text |
| XmlProperties.RunAccepted | src/main/java/edu/wofford/XML.java:158-164 | the accepted elements add their values to the accepted set |
| XmlProperties.Reimported | src/main/java/edu/wofford/XML.java:255-262 | a re-read positional is a plain Argument with the written name, type and accepted values, not required and with no partners |
| XmlProperties.RunPositional | src/main/java/edu/wofford/XML.java:144-169 | reading the positional element written for an argument buffers its rebuilt Argument under its position |
| XmlProperties.AfterNamedDeclares | src/main/java/edu/wofford/XML.java:264-287 | the end of a named element declares the imported argument through setNickname with "-" and the last shortname held, or through setArgument when that shortname is empty |
| XmlProperties.ReadNamedEntry | src/main/java/edu/wofford/XML.java:264-287 | after a named element the parser holds under "--"+name the default, type and accepted values, nicknames from the last shortname only, not required and without partners; it is appended to the named list and no other argument changes |
| XmlProperties.RunShortnames | src/main/java/edu/wofford/XML.java:246-253 | each shortname element overwrites the last, so only the final one is kept; with none, the one an earlier element left stays |
| XmlProperties.RunIgnoredElements | src/main/java/edu/wofford/XML.java:39-48 | required and mutex elements are skipped whole, text included |
| XmlProperties.RunNamed | src/main/java/edu/wofford/XML.java:36-62 | reading a named element records its fields, replaces the accepted set and declares its argument at the end tag |
| XmlProperties.NamedShape | src/main/java/edu/wofford/XML.java:171-226 | writeNamedXML writes the name without "--", one shortname per nickname letter, required with an empty default for a required argument and otherwise "false" and the current value, the type, the partners that list it back and the accepted values |
| XmlProperties.ReadExportedNamed | src/main/java/edu/wofford/XML.java:171-226 | reading what writeNamedXML wrote declares the argument from the name, the last nickname letter, the default written, the type and the accepted values |
| XmlProperties.RequiredWritesEmptyText | src/main/java/edu/wofford/XML.java:185-193 | a required argument's element holds an empty default, which reads back with no text event |
| XmlProperties.NamedComesBack | src/main/java/edu/wofford/XML.java:171-287 | a named argument whose element has no empty text is not required, and comes back under its name with its value, type and accepted values, but without description or partners and with only the last nickname letter; nothing else changes |
| XmlProperties.DeclareUnmarked | src/main/java/edu/wofford/ArgumentParser.java:141-174 | setArgument and setNickname with an argument neither required nor with partners add no such argument |
| XmlProperties.RunUnmarked | src/main/java/edu/wofford/XML.java:36-62 | no event of parseXML's loop buffers or declares a required argument or one with partners |
| XmlProperties.FlushUnmarked | src/main/java/edu/wofford/XML.java:63-66 | flushing such a buffer declares none either |
| XmlProperties.ImportAddsOnlyUnmarked | src/main/java/edu/wofford/XML.java:22-74 | after parseXML every argument is the one the parser held before or is neither required nor with partners, also when it throws part-way |
| XmlProperties.RunPositionals | src/main/java/edu/wofford/XML.java:94-97 | reading the positional elements buffers each in turn |
| XmlProperties.BufferHolds | src/main/java/edu/wofford/XML.java:261 | the positionals are buffered under consecutive positions from 1, each rebuilt from its declaration |
| XmlProperties.FlushDeclares | src/main/java/edu/wofford/XML.java:63-66 | flushing a full buffer declares the positionals in position order and succeeds |
| XmlProperties.FlushFails | src/main/java/edu/wofford/XML.java:63-66 | flushing fails if and only if a position up to the count was never buffered, and then with NullPointer |
| XmlProperties.DeclareReimports | src/main/java/edu/wofford/ArgumentParser.java:141-151 | declaring the rebuilt positionals appends their names in order and registers each |
| XmlProperties.ExportPositionalsOnly | src/main/java/edu/wofford/XML.java:85-114 | a parser with positionals only exports them inside one arguments element |
| XmlProperties.ReadExport | src/main/java/edu/wofford/XML.java:36-62 | reading such an export buffers every positional and leaves the parser untouched |
| XmlProperties.FlushReimports | src/main/java/edu/wofford/XML.java:63-66 | flushing what was read declares the positionals in their export order |
| XmlProperties.PositionalRoundTrip | src/main/java/edu/wofford/XML.java:22-114 | exporting fully written positionals and importing the text into a new parser declares the same positionals in the same order, each with its name, type and accepted values |

## Left out

- File input and output: parseXML's file is an event sequence given as a parameter. A file that cannot be opened is `None`, which parseXML reports on the console and otherwise ignores; the console output is left out.
- createXML's `createFile` path: createXMLFile and replaceBadXML reformat the text and write it to a time-stamped file.
- The XML prolog, which createXML removes again, and character escaping: names and texts are assumed to hold no markup characters.
- The XMLStreamException raised by a broken writer (XML.java:111-113): the model's writer never fails.
- Float.valueOf: only which strings it accepts is modelled, after Java's documented literal grammar. The value is not.
- HashSet and HashMap iteration order: `XmlExport.Enumerate` is some order of the members, fixed for each set.
- 32-bit overflow of parseXML's `positionalCount` and of createXML's `position`: both are unbounded here.
- toLowerCase and equalsIgnoreCase on tag names: only ASCII letters are folded.
- JavaStrings.ParseInt: reads ASCII digits only. Integer.valueOf and Integer.parseInt also accept the decimal digits of other scripts through Character.digit, so an "int" argument given "١٢" is stored by Java but refused with InvalidType here, and an XML position "١" is buffered by Java but gives NumberFormat here.
- ParseIntRejectsNonDigit: the non-digit it names is any character other than an ASCII digit, so it claims a rejection Java does not make for other scripts' decimal digits, for the reason given for JavaStrings.ParseInt.
- Parsing.ShortOptionStep: a Dafny string is a sequence of code points, where a Java string counts UTF-16 units. A token such as "-𝒳" (U+1D4B3) has length 3 in Java and is taken as a cluster that fails on a lone surrogate; here it has length 2 and is an unknown short option that is skipped.
- Registries.DeclareNickname, Registries.DeclareFlags: each letter is a code point; Java's loops go over UTF-16 units, so a letter outside the Basic Multilingual Plane gives two short forms there, one here.
- Argument.java and NamedArgument.java, as they stand, have no accepted set, no required mark and no mutex set, nor the methods that set them. ArgumentParser.java, XML.java and the tests call those members, so the model gives the class the fields and methods those callers need.
- Arguments.Argument.AddMutuallyExclusiveArg: it takes the partner's name. The tests pass the partner object, and XML.java:207 asks isMutuallyExclusive(arg) with an object; both are modelled by the name.
- XmlImport.ImportXml: attMap never receives "required" or "mutex", because neither is a field tag. So every imported named argument is built with its default and without partners. attMap is also never reset between elements. Both are modelled as written.
- XmlImport.StartStep: an element written with empty text (`<type></type>`) has no CHARACTERS event, so reading it throws ClassCast. This is modelled as written.
- XmlProperties.PositionalRoundTrip: proved only for a parser with positionals only, each with a name not starting with "--" and other than "-h", a non-empty name and type, and no empty accepted value. A positional with the default type "" exports `<type></type>`, which reads back with ClassCast. A positional named "--x" re-imports as named.
- The round trip of whole parsers with named arguments is not proved; XmlProperties.NamedComesBack states what one named element gives back. Import puts the "--" back on the name, but a named argument does not come back equal: a required one writes `<default></default>` and one with the default type writes `<type></type>`, and reading either back throws ClassCast; the required mark and the partners are never read; the description is never written; only the last `<shortname>` letter survives. A named element without `<shortname>` also takes the shortname the previous element left in attMap.
- Parsing.PostPass: the kept name is the key the argument was found under, which equals its own name in a well-formed registry.
