# INI parser model

A Dafny model of `Parser.go`, a small in-memory store for INI-style
configuration text. The text is made of `[section]` header lines followed by
`key = value` lines. The store keeps two things:

- `SectionsNames`: the section names, in the order their headers were met,
  duplicates kept;
- `MyMap`: per section name, a map from key to value.

The model has four modules.

- `GoStrings` (`go_strings.dfy`) defines the parts of Go's `strings` package
  that the parser uses. `Index` finds the first occurrence of a separator and
  `Split` cuts a string on every occurrence. Their partner `Join` is proved to
  be their inverse.
- `IniParser` (`parser.dfy`) holds the parser itself:
  - the `Store` value and its `Get`/`Set`;
  - `FindKeyAndValue`;
  - the effect of one line (`ParseLine`) and of a list of lines (`Run`);
  - the rendering of a store back to lines (`Render`) and its length;
  - the class `Parser`, whose two fields its methods update in place as the Go
    methods do.

  Each method is proved against the pure function that specifies it.
- `ParseProperties` (`parse_properties.dfy`) has lemmas about splitting a
  line, `getValue`/`setValue`, and parsing: skipped lines, headers, the three
  failures, and `loadFromString`.
- `RenderProperties` (`render_properties.dfy`) has lemmas about `toString`:
  - which sections it shows;
  - the round trip: parsing the lines of a store, or the text made of them,
    gives back that store.

Go panics in three places while parsing, and the model turns each into an
explicit `ParseError`:

- the header line `"["`, which makes the slice bounds invalid;
- a key line without `" = "`, which indexes past the end of the split;
- a key line whose current section does not exist, which writes into a nil
  map.

Go has already changed the parser for the lines before the panic. The model
keeps that state: `Outcome.Failed` carries the store built from the earlier
lines, and `Parser.ParseLines` leaves exactly that state behind.

Go visits the keys of a map in an unspecified order. `toString` takes the keys
of each section in whatever order a choice (`:|`) yields. A ghost out-parameter
records that order, and every property of `toString` holds for every such
order.

## Model

| member | source | states |
|---|---|---|
| GoStrings.Index | Parser.go:26 | the result is -1 or a position where the separator occurs |
| GoStrings.IndexFirst | Parser.go:26 | no occurrence of the separator comes before the index found |
| GoStrings.IndexFindsAny | Parser.go:26 | the index is -1 exactly when the separator does not occur anywhere |
| GoStrings.IndexIs | Parser.go:26 | a position where the separator occurs, with none before it, is the index |
| GoStrings.Split | Parser.go:26 | splitting gives at least one piece |
| GoStrings.SplitSingle | Parser.go:26-27 | the split has a single piece exactly when the separator does not occur |
| GoStrings.SplitFirstTwo | Parser.go:26-27 | the first two pieces are the text before the first separator and the text from there up to the next separator or the end |
| GoStrings.FirstTwoAtUnique | Parser.go:26-27 | that description of the first two pieces fixes both of them |
| GoStrings.JoinSplit | Parser.go:99 | joining the pieces of a split with the separator gives back the string |
| GoStrings.SplitPiecesFree | Parser.go:99 | no piece of a split contains the separator |
| GoStrings.SplitJoin | Parser.go:99 | splitting on a one-character separator the join of pieces that do not contain it gives back those pieces |
| IniParser.Store.Get | Parser.go:41-43 | the stored value when both the section and the key exist, and "" otherwise |
| IniParser.Store.Set | Parser.go:46-51 | the section order is unchanged; the section is created when absent; the key is added; getValue then gives the new value |
| IniParser.Store.SetKeepsOthers | Parser.go:46-51 | every other (section, key) entry reads as before; every other section is unchanged, and so is every other key of the section set |
| IniParser.FindKeyAndValue | Parser.go:25-28 | None exactly when the line has no " = "; otherwise the key is the text before the first " = " and the value the text up to the next " = " or the end |
| IniParser.ParseLine | Parser.go:56-67 | skipped lines change nothing; a header appends its name, resets that section to empty and makes it current; a key line stores its key and value in the current section; the line fails exactly on "[" (HeaderTooShort), on a missing " = " (MissingSeparator, checked first), or when the current section does not exist (NoCurrentSection), and a failure keeps the store |
| IniParser.Run | Parser.go:54-69 | parsing only ever appends section names and adds sections |
| IniParser.KeyLines | Parser.go:76-78 | one line per key of the given order |
| IniParser.KeyLinesAt | Parser.go:76-78 | the line at each position is the key at that position, " = " and its value |
| IniParser.KeyLinesSnoc | Parser.go:76-78 | one more key appends its line |
| IniParser.ValidOrdersSnoc | Parser.go:74-76 | a further section with an enumeration of its keys keeps every order an enumeration of its section |
| IniParser.RenderSnoc | Parser.go:74-79 | one more section name appends its header and its key lines |
| IniParser.EnumerationSize | Parser.go:76 | an order of keys that lists each key once is as long as the section is large |
| IniParser.ValidOrdersTail | Parser.go:74-76 | the orders of the remaining sections stay valid one name in |
| IniParser.RenderLength | Parser.go:72-81 | toString gives one header per listed name, duplicates included, and one line per key of that section |
| IniParser.KeyLinesOfEnumeration | Parser.go:76-78 | whatever the key order, a section gives one line per key, every key has its line, and every line is that of a key and its value |
| IniParser.Parser.constructor | Parser.go:18-22 | a new parser has no section names and no sections |
| IniParser.Parser.GetSectionsNames | Parser.go:31-33 | the section order itself, as the parser holds it |
| IniParser.Parser.GetSectionsMap | Parser.go:36-38 | the sections themselves, as the parser holds them |
| IniParser.Parser.GetValue | Parser.go:41-43 | the stored value when both the section and the key exist in the parser, and "" otherwise |
| IniParser.Parser.SetValue | Parser.go:46-51 | the new state is `Store.Set` of the old; getValue gives the new value there and the old value everywhere else |
| IniParser.Parser.ParseLines | Parser.go:54-69 | the new state and the error are those of `Run` from the old state with current section "" |
| IniParser.Parser.ToString | Parser.go:72-81 | the lines are `Render` of the section order and the sections, for an order of keys that enumerates each section; there is one header per listed name and one line per key of its section |
| IniParser.Parser.EntryLines | Parser.go:76-78 | one line per key of the section, each key exactly once: the lines are exactly those of the keys and their values, in the order recorded |
| IniParser.Parser.LoadFromString | Parser.go:98-101 | the same state and error as parsing the pieces of the text split on "\n" |
| ParseProperties.NoEqualsNoSeparator | Parser.go:26 | text without '=' has no " = " |
| ParseProperties.FindKeyAndValueFree | Parser.go:25-28 | neither the key nor the value found contains " = " |
| ParseProperties.FindKeyAndValueOfEntry | Parser.go:25-28 | the line of a key without '=' and a value without " = " splits back into that key and value |
| ParseProperties.FindKeyAndValueDropsTail | Parser.go:25-28 | whatever follows a second " = " is dropped: it is in neither the key nor the value |
| ParseProperties.FindKeyAndValueExample | parser_test.go:21-30 | "key = value" gives ("key", "value") |
| ParseProperties.GetMissIsEmpty | Parser.go:41-43 | getValue reads "" when the section or the key is absent |
| ParseProperties.SetKeepsNamesHaveSections | Parser.go:46-51 | setValue keeps every name of the section order backed by a section |
| ParseProperties.SetOverwrites | Parser.go:46-51 | a second setValue of the same entry overwrites the first |
| ParseProperties.RunAppend | Parser.go:54-69 | parsing two lists of lines in a row is parsing their concatenation, and stops at the first failure |
| ParseProperties.DropSkipped | Parser.go:115-118 | the lines kept are none of them skipped, and there are no more of them than before |
| ParseProperties.RunIgnoresSkipped | Parser.go:57-59 | dropping the skipped lines beforehand gives the same outcome |
| ParseProperties.HeaderNames | Parser.go:60-62 | at most one name per line |
| ParseProperties.RunRecordsHeaders | Parser.go:60-63 | a parse that completes appends exactly the names of the header lines, in order and with duplicates, adds exactly those sections, and ends with the last header current |
| ParseProperties.RunKeepsNamesHaveSections | Parser.go:54-69 | parsing, whether it completes or fails part way, keeps every name of the section order backed by a section |
| ParseProperties.KnownCursorNeverMissing | Parser.go:64-67 | from an existing current section the nil-map failure never happens |
| ParseProperties.HeaderFirstNeverMissing | Parser.go:60-67 | text that starts with a header line never writes into a nil map |
| ParseProperties.HeaderNameOfHeader | Parser.go:61 | the name taken from a rendered header is the name it was rendered from |
| ParseProperties.HeaderResetsSection | Parser.go:60-63 | a header appends its name, even when it is already listed, and replaces that section by an empty one |
| ParseProperties.BareBracketFails | Parser.go:60-61 | the line "[" fails on the header slice and leaves the store unchanged |
| ParseProperties.KeyLineBeforeHeader | Parser.go:64-66 | a key line before any header fails when the section "" does not exist, and is stored there when it does |
| ParseProperties.RunStep | Parser.go:56-68 | a line that does not fail hands its state and current section on to the rest of the lines |
| ParseProperties.ParseEntry | Parser.go:64-67 | a plain entry line under an existing section has the effect of setValue |
| ParseProperties.ParseHeaderAndEntryFrom | Parser.go:54-69 | a header and an entry line add the section with that one entry, from any state |
| ParseProperties.ParseHeaderAndEntry | parser_test.go:78-91 | from a new parser, a header and an entry give that section name alone and that one value |
| ParseProperties.RunAfterHeader | Parser.go:60-63 | the lines after a header are parsed with that section current and empty |
| ParseProperties.LoadTrailingNewline | Parser.go:98-101 | a trailing newline adds one empty piece, which is skipped, so the outcome is the same |
| ParseProperties.LoadHeaderAndEntry | parser_test.go:142-149 | the text of a header line and an entry line, each ending in a newline, loads that section with that entry |
| ParseProperties.SplitTwoLines | Parser.go:99 | two lines without newlines, joined by "\n", split back into those two lines |
| ParseProperties.NoNewlineFree | Parser.go:99 | text without a newline character has no "\n" separator |
| RenderProperties.RenderReadsListedOnly | Parser.go:74-76 | toString depends only on the sections whose names are listed |
| RenderProperties.SetUnlistedInvisible | Parser.go:46-51 | a setValue into a section that is not listed does not change what toString gives |
| RenderProperties.ToStringExample | parser_test.go:94-108 | a single section with a single key gives its header line and its entry line |
| RenderProperties.FilledAll | Parser.go:76 | the keys of an enumeration of a section, with their values, are that section |
| RenderProperties.SetAllMerges | Parser.go:46-51 | setting the keys of an order in turn merges them, with their values, into the section |
| RenderProperties.ParseKeyLines | Parser.go:64-67 | parsing the entry lines of a section under an existing section sets each key in turn |
| RenderProperties.SetAllRestores | Parser.go:63-67 | setting every key of a section into a fresh empty section gives back that section |
| RenderProperties.ParseSectionBlock | Parser.go:60-67 | a header followed by the entry lines of a plain section restores that section in full under its name |
| RenderProperties.LoadAllMerges | Parser.go:54-69 | parsing the blocks of several sections appends their names and merges in the sections they list |
| RenderProperties.ParseRender | Parser.go:54-81 | parsing the lines of toString never fails, appends the listed names and merges in the listed sections |
| RenderProperties.LoadAllFromEmpty | Parser.go:18-22 | loading every section of a store into a new parser gives that store |
| RenderProperties.RoundTrip | Parser.go:54-81 | parsing the lines of a store whose names are exactly its sections, with plain entries, gives back that store |
| RenderProperties.RenderNewlineFree | Parser.go:72-81 | no line of toString holds a newline when no name, key or value does |
| RenderProperties.TextRoundTrip | Parser.go:72-101 | loading the text made of the lines of toString joined by newlines gives back the store |
| RenderProperties.ReloadIntoFreshParser | Parser.go:18-101 | a new parser that parses the lines of another parser ends up with the same state, without error |

## Left out

- `saveToFile` and `loadFromFile` (Parser.go:84-124) are left out: they are file I/O, and their errors end the process through `log.Fatal`. The pre-filter in `loadFromFile` (Parser.go:115-118) is `DropSkipped`, and `RunIgnoresSkipped` shows that it changes nothing.
- `main` (Parser.go:125-126) is left out because it is empty.
- `getSectionsNames` and `getSectionsMap` (Parser.go:31-38) hand out the parser's own slice and map in Go. Here they are plain reads of the fields, so any change a caller makes through the returned values is not modelled.
- A Go string is a sequence of bytes. Here it is `seq<char>`, one character per byte. Nothing in the parser depends on an encoding.
- Go's map iteration order is not fixed: any enumeration of the keys is allowed, and a ghost out-parameter records the one taken.
- A panic is not an unwinding of the Go stack here. It is an error result, with the state the parser had reached.
- `GoStrings.Split` is modelled for non-empty separators only, the only ones the parser uses. `GoStrings.SplitJoin` is proved for one-character separators only, such as the "\n" of `loadFromString`.
- FindKeyAndValueDropsTail: states the dropped tail only for a key and a value without '='.
- RoundTrip: holds for entries that are plain: no '=' in the key, no " = " in the value, and a key that is empty or does not start with '[' or ';'. These conditions are sufficient, not necessary: some other entries survive too (a key such as "a=b", whose '=' does not form " = "), but others may not. For example, a key starting with '[' is read back as a header, and a value holding " = " is cut short.
- TextRoundTrip: additionally needs names, keys and values without newline characters.
