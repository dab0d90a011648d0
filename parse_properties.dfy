/**
  What the parser promises about single lines, about sequences of lines
  and about the get/set pair, proved about the functions that specify the
  `Parser` class.
 */
module ParseProperties {
  import opened GoStrings
  import opened IniParser

  // ---------------------------------------------------------------------
  // findKeyAndValue

  /** A " = " can only start where the next character is '='. */
  lemma SeparatorNeedsEquals(s: string, i: int)
    requires OccursAt(s, Separator, i)
    ensures i + 1 < |s| && s[i + 1] == '='
  {
    assert s[i..i + 3][1] == '=';
  }

  /** Text without '=' has no " = " in it. */
  lemma NoEqualsNoSeparator(s: string)
    requires '=' !in s
    ensures !Contains(s, Separator)
  {
    forall i | 0 <= i <= |s| && OccursAt(s, Separator, i) ensures false {
      SeparatorNeedsEquals(s, i);
    }
  }

  /**
    No " = " starts in `line[a..b]` when that stretch has no '=' and the
    character right after it (if any) is not '=' either.
   */
  lemma NoSeparatorStartsIn(line: string, a: int, b: int)
    requires 0 <= a <= b <= |line|
    requires forall i | a <= i < b :: line[i] != '='
    requires b < |line| ==> line[b] != '='
    ensures forall k | a <= k < b :: !OccursAt(line, Separator, k)
  {
    forall k | a <= k < b && OccursAt(line, Separator, k) ensures false {
      SeparatorNeedsEquals(line, k);
    }
  }

  /** The key and the value found in a line never contain the separator. */
  lemma FindKeyAndValueFree(line: string)
    requires FindKeyAndValue(line).Some?
    ensures !Contains(FindKeyAndValue(line).value.0, Separator)
    ensures !Contains(FindKeyAndValue(line).value.1, Separator)
  {
    var (key, value) := FindKeyAndValue(line).value;
    var m := |key| + 3;
    var n := m + |value|;
    assert line[..n][..|key|] == key && line[..n][m..] == value;
    forall j | 0 <= j <= |key| && OccursAt(key, Separator, j) ensures false {
      OccursInPrefix(line, Separator, |key|, j);
    }
    forall j | 0 <= j <= |value| && OccursAt(value, Separator, j) ensures false {
      assert line[m..][..|value|] == value;
      OccursInPrefix(line[m..], Separator, |value|, j);
      OccursShift(line, Separator, m, j);
    }
  }

  /**
    A key without '=' followed by " = " and a value without " = ": the
    line splits back into exactly that key and value. This makes
    findKeyAndValue the inverse of the entry format of toString.
   */
  lemma FindKeyAndValueOfEntry(key: string, value: string)
    requires '=' !in key && !Contains(value, Separator)
    ensures FindKeyAndValue(FormatEntry(key, value)) == Some((key, value))
  {
    var line := FormatEntry(key, value);
    var m := |key| + 3;
    assert line[..|key|] == key && line[|key|..m] == Separator && line[m..] == value;
    NoSeparatorStartsIn(line, 0, |key|);
    forall k | m <= k < |line| ensures !OccursAt(line, Separator, k) {
      OccursShift(line, Separator, m, k - m);
    }
    FirstTwoIntro(line, Separator, |key|, |line|);
    assert line[m..|line|] == value;
    FirstTwoAtUnique(line, Separator, FindKeyAndValue(line).value.0, FindKeyAndValue(line).value.1, key, value);
  }

  /**
    Whatever follows a second " = " is dropped: the value stops there. The
    value must then be free of '=' (a value ending in " =" would otherwise
    make the second separator start inside it).
   */
  lemma FindKeyAndValueDropsTail(key: string, value: string, tail: string)
    requires '=' !in key && '=' !in value
    ensures FindKeyAndValue(key + Separator + value + Separator + tail) == Some((key, value))
  {
    var line := key + Separator + value + Separator + tail;
    var m := |key| + 3;
    var n := m + |value|;
    assert line[..|key|] == key && line[|key|..m] == Separator && line[m..n] == value;
    assert line[n..n + 3] == Separator;
    NoSeparatorStartsIn(line, 0, |key|);
    NoSeparatorStartsIn(line, m, n);
    FirstTwoIntro(line, Separator, |key|, n);
    FirstTwoAtUnique(line, Separator, FindKeyAndValue(line).value.0, FindKeyAndValue(line).value.1, key, value);
  }

  /** The case from the Go tests: "key = value" gives ("key", "value"). */
  lemma FindKeyAndValueExample()
    ensures FindKeyAndValue("key = value") == Some(("key", "value"))
  {
    NoEqualsNoSeparator("value");
    FindKeyAndValueOfEntry("key", "value");
    assert FormatEntry("key", "value") == "key = value";
  }

  // ---------------------------------------------------------------------
  // getValue and setValue

  /** getValue reads "" when the section or the key is absent. */
  lemma GetMissIsEmpty(st: Store, section: string, key: string)
    requires section !in st.sections || key !in st.sections[section]
    ensures st.Get(section, key) == ""
  {
  }

  /** setValue keeps every listed name backed by a section. */
  lemma SetKeepsNamesHaveSections(st: Store, section: string, key: string, value: string)
    requires NamesHaveSections(st)
    ensures NamesHaveSections(st.Set(section, key, value))
  {
  }

  /** A second setValue of the same entry overwrites the first. */
  lemma SetOverwrites(st: Store, section: string, key: string, v1: string, v2: string)
    ensures st.Set(section, key, v1).Set(section, key, v2) == st.Set(section, key, v2)
  {
    var m := SectionOf(st.sections, section);
    assert m[key := v1][key := v2] == m[key := v2];
  }

  // ---------------------------------------------------------------------
  // parseLines

  /** Parsing `xs + ys` parses `xs` and, unless that failed, goes on with `ys` from where it stopped. */
  lemma {:induction false} RunAppend(st: Store, cursor: string, xs: seq<string>, ys: seq<string>)
    ensures Run(st, cursor, xs + ys) ==
      match Run(st, cursor, xs)
      case Done(next, nextCursor) => Run(next, nextCursor, ys)
      case Failed(_, _) => Run(st, cursor, xs)
    decreases |xs|
  {
    if xs == [] {
      assert xs + ys == ys;
    } else {
      assert (xs + ys)[0] == xs[0];
      assert (xs + ys)[1..] == xs[1..] + ys;
      match ParseLine(st, cursor, xs[0])
      case Done(next, nextCursor) => RunAppend(next, nextCursor, xs[1..], ys);
      case Failed(_, _) =>
    }
  }

  /** The lines that loadFromFile passes on to parseLines: those that are not skipped. */
  function DropSkipped(lines: seq<string>): (kept: seq<string>)
    ensures forall i :: 0 <= i < |kept| ==> !IsSkipped(kept[i])
    ensures |kept| <= |lines|
  {
    if lines == [] then []
    else if IsSkipped(lines[0]) then DropSkipped(lines[1..])
    else [lines[0]] + DropSkipped(lines[1..])
  }

  /** Skipped lines have no effect at all: dropping them beforehand changes nothing. */
  lemma {:induction false} RunIgnoresSkipped(st: Store, cursor: string, lines: seq<string>)
    ensures Run(st, cursor, DropSkipped(lines)) == Run(st, cursor, lines)
    decreases |lines|
  {
    if lines != [] {
      var rest := DropSkipped(lines[1..]);
      if !IsSkipped(lines[0]) {
        assert ([lines[0]] + rest)[0] == lines[0];
        assert ([lines[0]] + rest)[1..] == rest;
        match ParseLine(st, cursor, lines[0])
        case Done(next, nextCursor) => RunIgnoresSkipped(next, nextCursor, lines[1..]);
        case Failed(_, _) =>
      } else {
        RunIgnoresSkipped(st, cursor, lines[1..]);
      }
    }
  }

  /** The names of the header lines among `lines`, in order, duplicates kept. */
  function HeaderNames(lines: seq<string>): (names: seq<string>)
    ensures |names| <= |lines|
  {
    if lines == [] then []
    else if IsHeaderLine(lines[0]) && |lines[0]| >= 2 then [HeaderName(lines[0])] + HeaderNames(lines[1..])
    else HeaderNames(lines[1..])
  }

  /**
    A run that completes appends the name of every header line to the
    section order, in order and duplicates included, and creates exactly
    those sections; the cursor ends on the last header, if there is one.
   */
  lemma {:induction false} RunRecordsHeaders(st: Store, cursor: string, lines: seq<string>)
    ensures Run(st, cursor, lines).Done? ==>
      && Run(st, cursor, lines).store.names == st.names + HeaderNames(lines)
      && Run(st, cursor, lines).store.sections.Keys == st.sections.Keys + (set n | n in HeaderNames(lines))
      && (HeaderNames(lines) != [] ==> Run(st, cursor, lines).cursor == HeaderNames(lines)[|HeaderNames(lines)| - 1])
      && (HeaderNames(lines) == [] ==> Run(st, cursor, lines).cursor == cursor)
    decreases |lines|
  {
    if lines != [] && Run(st, cursor, lines).Done? {
      var line := lines[0];
      var next := ParseLine(st, cursor, line);
      RunRecordsHeaders(next.store, next.cursor, lines[1..]);
      var rest := HeaderNames(lines[1..]);
      if IsHeaderLine(line) && |line| >= 2 {
        assert HeaderNames(lines) == [HeaderName(line)] + rest;
        assert st.names + [HeaderName(line)] + rest == st.names + HeaderNames(lines);
        assert (set n | n in HeaderNames(lines)) == {HeaderName(line)} + (set n | n in rest);
      } else {
        assert HeaderNames(lines) == rest;
        assert next.store.names == st.names && next.store.sections.Keys == st.sections.Keys;
      }
    }
  }

  /**
    Parsing keeps every listed name backed by a section, whether it
    completes or stops at a failing line.
   */
  lemma {:induction false} RunKeepsNamesHaveSections(st: Store, cursor: string, lines: seq<string>)
    requires NamesHaveSections(st)
    ensures NamesHaveSections(Run(st, cursor, lines).store)
    decreases |lines|
  {
    if lines != [] {
      match ParseLine(st, cursor, lines[0])
      case Done(next, nextCursor) =>
        assert NamesHaveSections(next);
        RunKeepsNamesHaveSections(next, nextCursor, lines[1..]);
      case Failed(_, _) =>
    }
  }

  /**
    A key line can only find its section missing while the cursor is a
    section that does not exist: once the cursor names an existing section
    (always the case after a header), NoCurrentSection cannot happen.
   */
  lemma {:induction false} KnownCursorNeverMissing(st: Store, cursor: string, lines: seq<string>)
    requires cursor in st.sections
    ensures !(Run(st, cursor, lines).Failed? && Run(st, cursor, lines).error.NoCurrentSection?)
    decreases |lines|
  {
    if lines != [] {
      match ParseLine(st, cursor, lines[0])
      case Done(next, nextCursor) => KnownCursorNeverMissing(next, nextCursor, lines[1..]);
      case Failed(_, _) =>
    }
  }

  /** Text that starts with a header line never hits the nil-map panic. */
  lemma HeaderFirstNeverMissing(st: Store, cursor: string, lines: seq<string>)
    requires lines != [] && IsHeaderLine(lines[0]) && |lines[0]| >= 2
    ensures !(Run(st, cursor, lines).Failed? && Run(st, cursor, lines).error.NoCurrentSection?)
  {
    var name := HeaderName(lines[0]);
    KnownCursorNeverMissing(Store(st.names + [name], st.sections[name := map[]]), name, lines[1..]);
  }

  /** The name of a rendered header is the name it was rendered from. */
  lemma HeaderNameOfHeader(name: string)
    ensures IsHeaderLine(Header(name)) && |Header(name)| >= 2
    ensures HeaderName(Header(name)) == name
  {
    assert Header(name)[0] == '[';
  }

  /**
    A header line for a name already declared appends it again and starts
    the section afresh: the keys set under the earlier header are lost.
   */
  lemma HeaderResetsSection(st: Store, cursor: string, name: string)
    ensures ParseLine(st, cursor, Header(name)) == Done(Store(st.names + [name], st.sections[name := map[]]), name)
  {
    HeaderNameOfHeader(name);
  }

  /** The lone "[" is the only header line that fails. */
  lemma BareBracketFails(st: Store, cursor: string)
    ensures Run(st, cursor, ["["]) == Failed(st, HeaderTooShort("["))
  {
  }

  /**
    An entry that toString writes and parseLines reads back unchanged: the
    key has no '=' and does not start with '[' or ';' (which would make the
    line a header or a comment), and the value has no " = ".
   */
  predicate PlainEntry(key: string, value: string) {
    && (key == [] || (key[0] != '[' && key[0] != ';'))
    && '=' !in key
    && !Contains(value, Separator)
  }

  /** A key line before any header fails when section "" does not exist, and is stored there when it does. */
  lemma KeyLineBeforeHeader(st: Store, key: string, value: string)
    requires PlainEntry(key, value)
    ensures Run(st, "", [FormatEntry(key, value)]) ==
      if "" in st.sections then Done(st.Set("", key, value), "") else Failed(st, NoCurrentSection(FormatEntry(key, value)))
  {
    FindKeyAndValueOfEntry(key, value);
    if key == [] {
      assert FormatEntry(key, value)[0] == ' ';
    } else {
      assert FormatEntry(key, value)[0] == key[0];
    }
  }

  /** One step of a run that does not fail on its first line. */
  lemma RunStep(st: Store, cursor: string, lines: seq<string>, next: Store, nextCursor: string)
    requires lines != [] && ParseLine(st, cursor, lines[0]) == Done(next, nextCursor)
    ensures Run(st, cursor, lines) == Run(next, nextCursor, lines[1..])
  {
  }

  /** A plain entry line stores its value under its key in the current section, when that section exists. */
  lemma ParseEntry(st: Store, cursor: string, key: string, value: string)
    requires cursor in st.sections && PlainEntry(key, value)
    ensures ParseLine(st, cursor, FormatEntry(key, value)) == Done(st.Set(cursor, key, value), cursor)
  {
    FindKeyAndValueOfEntry(key, value);
    if key == [] {
      assert FormatEntry(key, value)[0] == ' ';
    } else {
      assert FormatEntry(key, value)[0] == key[0];
    }
  }

  /**
    A header followed by one key line, from any state: the name is
    appended to the order and the section holds just that key.
   */
  lemma ParseHeaderAndEntryFrom(st: Store, cursor: string, name: string, key: string, value: string)
    requires PlainEntry(key, value)
    ensures Run(st, cursor, [Header(name), FormatEntry(key, value)])
         == Done(Store(st.names + [name], st.sections[name := map[key := value]]), name)
  {
    var lines := [Header(name), FormatEntry(key, value)];
    var st1 := Store(st.names + [name], st.sections[name := map[]]);
    HeaderResetsSection(st, cursor, name);
    RunStep(st, cursor, lines, st1, name);
    ParseEntry(st1, name, key, value);
    RunStep(st1, name, lines[1..], st1.Set(name, key, value), name);
    assert lines[1..][1..] == [];
  }

  /**
    The case of the Go tests, for any plain entry: a header and one
    key line give a section order of one name and that section with its
    single key.
   */
  lemma ParseHeaderAndEntry(name: string, key: string, value: string)
    requires PlainEntry(key, value)
    ensures Run(Empty, "", [Header(name), FormatEntry(key, value)])
         == Done(Store([name], map[name := map[key := value]]), name)
  {
    ParseHeaderAndEntryFrom(Empty, "", name, key, value);
    assert Empty.names + [name] == [name];
  }

  /**
    Whatever the state, the lines after a header are parsed into a fresh,
    empty section of that name: keys the section had before are gone.
   */
  lemma RunAfterHeader(st: Store, cursor: string, name: string, rest: seq<string>)
    ensures Run(st, cursor, [Header(name)] + rest)
         == Run(Store(st.names + [name], st.sections[name := map[]]), name, rest)
  {
    HeaderResetsSection(st, cursor, name);
    RunStep(st, cursor, [Header(name)] + rest, Store(st.names + [name], st.sections[name := map[]]), name);
    assert ([Header(name)] + rest)[1..] == rest;
  }

  // ---------------------------------------------------------------------
  // loadFromString

  /**
    A trailing newline adds one empty piece, which parseLines skips: text
    with and without it loads to the same outcome.
   */
  lemma LoadTrailingNewline(st: Store, cursor: string, content: string)
    ensures Split(content + "\n", "\n") == Split(content, "\n") + [""]
    ensures Run(st, cursor, Split(content + "\n", "\n")) == Run(st, cursor, Split(content, "\n"))
  {
    var parts := Split(content, "\n");
    JoinSplit(content, "\n");
    JoinSnoc(parts, "", "\n");
    assert content + "\n" == Join(parts, "\n") + "\n" + "";
    SplitPiecesFree(content, "\n");
    assert !Contains("", "\n");
    var more := parts + [""];
    assert forall k | 0 <= k < |more| :: !Contains(more[k], "\n") by {
      forall k | 0 <= k < |more| ensures !Contains(more[k], "\n") {
        if k < |parts| {
          assert more[k] == parts[k];
        }
      }
    }
    SplitJoin(more, "\n");
    RunAppend(st, cursor, parts, [""]);
    match Run(st, cursor, parts)
    case Done(next, nextCursor) =>
      assert Run(next, nextCursor, [""]) == Done(next, nextCursor);
    case Failed(_, _) =>
  }

  /**
    The case of the Go tests, for any plain entry and names free of newlines:
    "[name]\nkey = value\n" loads the section with its key.
   */
  lemma LoadHeaderAndEntry(name: string, key: string, value: string)
    requires PlainEntry(key, value)
    requires '\n' !in name && '\n' !in key && '\n' !in value
    ensures Split(Header(name) + "\n" + FormatEntry(key, value) + "\n", "\n") == [Header(name), FormatEntry(key, value), ""]
    ensures Run(Empty, "", Split(Header(name) + "\n" + FormatEntry(key, value) + "\n", "\n"))
         == Done(Store([name], map[name := map[key := value]]), name)
  {
    var header, entry := Header(name), FormatEntry(key, value);
    SplitTwoLines(header, entry);
    LoadTrailingNewline(Empty, "", header + "\n" + entry);
    ParseHeaderAndEntry(name, key, value);
  }

  /** Two lines without newlines, joined by "\n", split back into those two lines. */
  lemma SplitTwoLines(a: string, b: string)
    requires '\n' !in a && '\n' !in b
    ensures Split(a + "\n" + b, "\n") == [a, b]
  {
    var lines := [a, b];
    assert Join(lines, "\n") == a + "\n" + b by {
      JoinCons(a, [b], "\n");
      assert [a] + [b] == lines;
    }
    NoNewlineFree(a);
    NoNewlineFree(b);
    SplitJoin(lines, "\n");
  }

  /** Text without a newline character has no "\n" separator in it. */
  lemma NoNewlineFree(s: string)
    requires '\n' !in s
    ensures !Contains(s, "\n")
  {
    forall i | 0 <= i <= |s| ensures !OccursAt(s, "\n", i) {
      if i < |s| {
        assert s[i..i + 1] == [s[i]];
      }
    }
  }
}
