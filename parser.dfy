/**
  An in-memory store for INI-style configuration text: `[section]` header
  lines followed by `key = value` lines.

  The pure part (the `Store` value, the effect of one line, of a list of
  lines, and the rendering back to lines) specifies the class `Parser`,
  whose methods update its two fields in place as the Go code does.

  The Go code panics in three places while parsing; each panic is an
  explicit `ParseError` here, and the store it leaves behind is the one
  built from the lines before the failing line.
 */
module IniParser {
  import opened GoStrings

  datatype Option<T> = None | Some(value: T)

  /** The literal that separates a key from its value. */
  const Separator: string := " = "

  /** The keys and values of one section. */
  type Section = map<string, string>

  /**
    The state of a parser: the section names in the order their headers
    were met (duplicates kept) and, per section name, its keys and values.
   */
  datatype Store = Store(names: seq<string>, sections: map<string, Section>) {

    /** getValue: the stored value, or "" when the section or the key is absent. */
    function Get(section: string, key: string): (v: string)
      ensures section in sections && key in sections[section] ==> v == sections[section][key]
      ensures section !in sections || key !in sections[section] ==> v == ""
    {
      ValueIn(SectionOf(sections, section), key)
    }

    /**
      setValue: store `value` under `key` in `section`, creating the section
      when it is absent; the section order is left alone.
     */
    function Set(section: string, key: string, value: string): (r: Store)
      ensures r.names == names
      ensures r.sections.Keys == sections.Keys + {section}
      ensures r.sections[section].Keys == SectionOf(sections, section).Keys + {key}
      ensures r.Get(section, key) == value
    {
      Store(names, sections[section := SectionOf(sections, section)[key := value]])
    }

    /**
      setValue leaves every other entry as it was: every other section is
      untouched, and so is every other key of `section`.
     */
    lemma SetKeepsOthers(section: string, key: string, value: string)
      ensures forall s, k :: (s != section || k != key) ==> Set(section, key, value).Get(s, k) == Get(s, k)
      ensures forall s | s != section :: SectionOf(Set(section, key, value).sections, s) == SectionOf(sections, s)
      ensures forall k | k != key && k in SectionOf(sections, section) ::
        Set(section, key, value).sections[section][k] == SectionOf(sections, section)[k]
    {
    }
  }

  /** The data-model invariant: every name of the section order has a section. */
  predicate NamesHaveSections(st: Store) {
    forall n | n in st.names :: n in st.sections
  }

  /** NewParser: no sections. */
  const Empty := Store([], map[])

  /** The keys and values of `name`; a section that does not exist reads as empty. */
  function SectionOf(sections: map<string, Section>, name: string): Section {
    if name in sections then sections[name] else map[]
  }

  /** The value of `key` in `m`; a missing key reads as "" (Go's zero string). */
  function ValueIn(m: Section, key: string): string {
    if key in m then m[key] else ""
  }

  /** The three run-time panics of the Go parser, each with the line that causes it. */
  datatype ParseError =
    | HeaderTooShort(line: string)     // "[": slicing line[1:0] is out of bounds
    | MissingSeparator(line: string)   // no " = ": indexing the second piece is out of range
    | NoCurrentSection(line: string)   // key line while the current section does not exist: write into a nil map

  /** The result of parsing: the store and the current section, or the error and the store at that point. */
  datatype Outcome = Done(store: Store, cursor: string) | Failed(store: Store, error: ParseError)
  {
    function Error(): Option<ParseError> {
      if Failed? then Some(error) else None
    }
  }

  /**
    findKeyAndValue: split `line` on every " = " and keep the first two
    pieces; None when there is no second piece. The key is the text before
    the first separator, the value the text up to the next one (or the end),
    and whatever follows a second separator is dropped.
   */
  function FindKeyAndValue(line: string): (r: Option<(string, string)>)
    ensures r.None? <==> !Contains(line, Separator)
    ensures r.Some? ==> FirstTwoAt(line, Separator, r.value.0, r.value.1)
  {
    var res := Split(line, Separator);
    SplitSingle(line, Separator);
    IndexFindsAny(line, Separator);
    if |res| < 2 then None
    else
      SplitFirstTwo(line, Separator);
      Some((res[0], res[1]))
  }

  /** Lines the parser ignores: empty, a comment starting with ';', or a lone newline. */
  predicate IsSkipped(line: string) {
    |line| == 0 || line[0] == ';' || line == "\n"
  }

  predicate IsHeaderLine(line: string) {
    !IsSkipped(line) && line[0] == '['
  }

  /** The section name of a header line: drop the first and the last character. */
  function HeaderName(line: string): string
    requires |line| >= 2
  {
    line[1..|line| - 1]
  }

  /**
    The effect of one line in parseLines, given the current section
    `cursor`. A header line appends its name to the order, replaces the
    section by an empty one and makes it current; a key line stores its
    key and value in the current section as setValue would, provided that
    section exists.
   */
  function ParseLine(st: Store, cursor: string, line: string): (r: Outcome)
    ensures r.Failed? ==> r.store == st
    ensures IsSkipped(line) ==> r == Done(st, cursor)
    ensures r.Failed? <==>
      || (IsHeaderLine(line) && |line| == 1)
      || (!IsSkipped(line) && !IsHeaderLine(line) &&
          (!Contains(line, Separator) || cursor !in st.sections))
    ensures IsHeaderLine(line) && |line| == 1 ==> r == Failed(st, HeaderTooShort(line))
    ensures !IsSkipped(line) && !IsHeaderLine(line) && !Contains(line, Separator) ==>
      r == Failed(st, MissingSeparator(line))
    ensures !IsSkipped(line) && !IsHeaderLine(line) && Contains(line, Separator) && cursor !in st.sections ==>
      r == Failed(st, NoCurrentSection(line))
    ensures IsHeaderLine(line) && |line| >= 2 ==>
      r == Done(Store(st.names + [HeaderName(line)], st.sections[HeaderName(line) := map[]]), HeaderName(line))
    ensures !IsSkipped(line) && !IsHeaderLine(line) && cursor in st.sections && FindKeyAndValue(line).Some? ==>
      r == Done(st.Set(cursor, FindKeyAndValue(line).value.0, FindKeyAndValue(line).value.1), cursor)
  {
    if IsSkipped(line) then Done(st, cursor)
    else if line[0] == '[' then
      if |line| < 2 then Failed(st, HeaderTooShort(line))
      else
        var name := HeaderName(line);
        Done(Store(st.names + [name], st.sections[name := map[]]), name)
    else
      match FindKeyAndValue(line)
      case None => Failed(st, MissingSeparator(line))
      case Some((key, value)) =>
        if cursor !in st.sections then Failed(st, NoCurrentSection(line))
        else Done(Store(st.names, st.sections[cursor := st.sections[cursor][key := value]]), cursor)
  }

  /**
    parseLines from the state `st` with current section `cursor`: the lines
    one after the other, stopping at the first that fails. Names are only
    ever appended and sections only ever added.
   */
  function Run(st: Store, cursor: string, lines: seq<string>): (r: Outcome)
    ensures st.names <= r.store.names
    ensures st.sections.Keys <= r.store.sections.Keys
    decreases |lines|
  {
    if lines == [] then Done(st, cursor)
    else
      match ParseLine(st, cursor, lines[0])
      case Done(next, nextCursor) => Run(next, nextCursor, lines[1..])
      case Failed(at, e) => Failed(at, e)
  }

  /** The header line of section `name`. */
  function Header(name: string): string {
    "[" + name + "]"
  }

  /** The line for one key and its value. */
  function FormatEntry(key: string, value: string): string {
    key + Separator + value
  }

  /** `order` lists every key of `keys` exactly once. */
  ghost predicate IsEnumeration(order: seq<string>, keys: set<string>) {
    && (forall i, j :: 0 <= i < j < |order| ==> order[i] != order[j])
    && (forall k :: k in order <==> k in keys)
  }

  /**
    `orders[i]` is an enumeration of the keys of the section named
    `names[i]`; it stands for the order in which Go's map iteration
    happened to visit them, which may differ from one visit to the next.
   */
  ghost predicate ValidOrders(names: seq<string>, sections: map<string, Section>, orders: seq<seq<string>>) {
    && |orders| == |names|
    && forall i :: 0 <= i < |names| ==> IsEnumeration(orders[i], SectionOf(sections, names[i]).Keys)
  }

  /** Extending both sequences by a section and an enumeration of its keys keeps the orders valid. */
  lemma ValidOrdersSnoc(names: seq<string>, sections: map<string, Section>, orders: seq<seq<string>>,
                        name: string, order: seq<string>)
    requires ValidOrders(names, sections, orders)
    requires IsEnumeration(order, SectionOf(sections, name).Keys)
    ensures ValidOrders(names + [name], sections, orders + [order])
  {
    forall i | 0 <= i < |names| + 1
      ensures IsEnumeration((orders + [order])[i], SectionOf(sections, (names + [name])[i]).Keys)
    {
      if i < |names| {
        assert IsEnumeration(orders[i], SectionOf(sections, names[i]).Keys);
      }
    }
  }

  /** The entry lines of section `m`, keys taken in `order`. */
  function KeyLines(m: Section, order: seq<string>): (lines: seq<string>)
    ensures |lines| == |order|
  {
    if order == [] then []
    else [FormatEntry(order[0], ValueIn(m, order[0]))] + KeyLines(m, order[1..])
  }

  /** The line at position `i` is that of the key at position `i`. */
  lemma {:induction false} KeyLinesAt(m: Section, order: seq<string>)
    ensures forall i :: 0 <= i < |order| ==> KeyLines(m, order)[i] == FormatEntry(order[i], ValueIn(m, order[i]))
  {
    if order != [] {
      KeyLinesAt(m, order[1..]);
      var lines := KeyLines(m, order);
      forall i | 0 < i < |order| ensures lines[i] == FormatEntry(order[i], ValueIn(m, order[i])) {
        assert lines[i] == KeyLines(m, order[1..])[i - 1];
      }
    }
  }

  /** Taking one more key appends its entry line. */
  lemma {:induction false} KeyLinesSnoc(m: Section, order: seq<string>, key: string)
    ensures KeyLines(m, order + [key]) == KeyLines(m, order) + [FormatEntry(key, ValueIn(m, key))]
  {
    if order != [] {
      assert (order + [key])[1..] == order[1..] + [key];
      KeyLinesSnoc(m, order[1..], key);
    }
  }

  /**
    toString, for the key orders `orders`: for each name of the section
    order, duplicates included, its header line and then one line per key.
   */
  function Render(names: seq<string>, sections: map<string, Section>, orders: seq<seq<string>>): seq<string>
    requires |orders| == |names|
  {
    if names == [] then []
    else
      [Header(names[0])] + KeyLines(SectionOf(sections, names[0]), orders[0])
        + Render(names[1..], sections, orders[1..])
  }

  /** Rendering one more section appends its header and its entry lines. */
  lemma {:induction false} RenderSnoc(names: seq<string>, sections: map<string, Section>, orders: seq<seq<string>>,
                                      name: string, order: seq<string>)
    requires |orders| == |names|
    ensures Render(names + [name], sections, orders + [order])
         == Render(names, sections, orders) + [Header(name)] + KeyLines(SectionOf(sections, name), order)
  {
    if names != [] {
      assert (names + [name])[1..] == names[1..] + [name];
      assert (orders + [order])[1..] == orders[1..] + [order];
      RenderSnoc(names[1..], sections, orders[1..], name, order);
    }
  }

  // ---------------------------------------------------------------------
  // Enumerations of keys

  /** A sequence without repetitions has as many members as elements. */
  lemma {:induction false} DistinctCard(order: seq<string>)
    requires forall i, j :: 0 <= i < j < |order| ==> order[i] != order[j]
    ensures |set k | k in order| == |order|
  {
    if order != [] {
      var rest := order[1..];
      DistinctCard(rest);
      assert order[0] !in rest by {
        forall j | 0 <= j < |rest| ensures rest[j] != order[0] {
          assert rest[j] == order[j + 1];
        }
      }
      assert (set k | k in order) == {order[0]} + (set k | k in rest) by {
        assert order == [order[0]] + rest;
      }
    }
  }

  /** An enumeration of a set is as long as the set is large. */
  lemma EnumerationSize(order: seq<string>, keys: set<string>)
    requires IsEnumeration(order, keys)
    ensures |order| == |keys|
  {
    DistinctCard(order);
    assert (set k | k in order) == keys;
  }

  /** The enumerations of a section of the name list, one step in. */
  lemma ValidOrdersTail(names: seq<string>, sections: map<string, Section>, orders: seq<seq<string>>)
    requires names != [] && ValidOrders(names, sections, orders)
    ensures IsEnumeration(orders[0], SectionOf(sections, names[0]).Keys)
    ensures ValidOrders(names[1..], sections, orders[1..])
  {
    forall i | 0 <= i < |names| - 1
      ensures IsEnumeration(orders[1..][i], SectionOf(sections, names[1..][i]).Keys)
    {
      assert IsEnumeration(orders[i + 1], SectionOf(sections, names[i + 1]).Keys);
    }
  }

  /** The number of lines toString gives: per listed name, one header and one line per key. */
  function LineCount(names: seq<string>, sections: map<string, Section>): nat {
    if names == [] then 0
    else 1 + |SectionOf(sections, names[0]).Keys| + LineCount(names[1..], sections)
  }

  /** toString gives one header per listed name, duplicates included, and one line per key of that section. */
  lemma {:induction false} RenderLength(names: seq<string>, sections: map<string, Section>, orders: seq<seq<string>>)
    requires ValidOrders(names, sections, orders)
    ensures |Render(names, sections, orders)| == LineCount(names, sections)
  {
    if names != [] {
      ValidOrdersTail(names, sections, orders);
      EnumerationSize(orders[0], SectionOf(sections, names[0]).Keys);
      RenderLength(names[1..], sections, orders[1..]);
    }
  }

  /**
    Whatever the order, the entry lines of an enumeration of a section are
    one line per key, and they are exactly the lines of its keys and values.
   */
  lemma KeyLinesOfEnumeration(m: Section, order: seq<string>)
    requires IsEnumeration(order, m.Keys)
    ensures |KeyLines(m, order)| == |m|
    ensures forall k | k in m :: FormatEntry(k, m[k]) in KeyLines(m, order)
    ensures forall line | line in KeyLines(m, order) :: exists k | k in m :: line == FormatEntry(k, m[k])
  {
    EnumerationSize(order, m.Keys);
    KeyLinesShowEveryKey(m, order);
    KeyLinesShowOnlyKeys(m, order);
  }

  lemma KeyLinesShowEveryKey(m: Section, order: seq<string>)
    requires forall k | k in m :: k in order
    ensures forall k | k in m :: FormatEntry(k, m[k]) in KeyLines(m, order)
  {
    KeyLinesAt(m, order);
    var lines := KeyLines(m, order);
    forall k | k in m ensures FormatEntry(k, m[k]) in lines {
      var i :| 0 <= i < |order| && order[i] == k;
      assert lines[i] == FormatEntry(k, m[k]);
    }
  }

  lemma KeyLinesShowOnlyKeys(m: Section, order: seq<string>)
    requires forall k | k in order :: k in m
    ensures forall line | line in KeyLines(m, order) :: exists k | k in m :: line == FormatEntry(k, m[k])
  {
    KeyLinesAt(m, order);
    var lines := KeyLines(m, order);
    forall line | line in lines ensures exists k | k in m :: line == FormatEntry(k, m[k]) {
      var i :| 0 <= i < |lines| && lines[i] == line;
      assert order[i] in m;
    }
  }

  /** The parser: the order of the section headers and the sections themselves. */
  class Parser {
    var sectionsNames: seq<string>
    var myMap: map<string, Section>

    /** NewParser. */
    constructor ()
      ensures sectionsNames == [] && myMap == map[]
    {
      sectionsNames := [];
      myMap := map[];
    }

    /** The current state as a value. */
    function View(): Store
      reads this
    {
      Store(sectionsNames, myMap)
    }

    /** getSectionsNames: a plain read of the section order. */
    function GetSectionsNames(): (names: seq<string>)
      reads this
      ensures names == View().names
    {
      sectionsNames
    }

    /** getSectionsMap: a plain read of the sections. */
    function GetSectionsMap(): (sections: map<string, Section>)
      reads this
      ensures sections == View().sections
    {
      myMap
    }

    /** getValue: the stored value when the section and the key exist, and "" otherwise. */
    function GetValue(section: string, key: string): (v: string)
      reads this
      ensures section in myMap && key in myMap[section] ==> v == myMap[section][key]
      ensures section !in myMap || key !in myMap[section] ==> v == ""
    {
      View().Get(section, key)
    }

    /** setValue: create the section when absent, then store the value. */
    method SetValue(section: string, key: string, value: string)
      modifies this
      ensures View() == old(View()).Set(section, key, value)
      ensures GetValue(section, key) == value
      ensures forall s, k :: (s != section || k != key) ==> GetValue(s, k) == old(GetValue(s, k))
    {
      if section !in myMap {
        myMap := myMap[section := map[]];
      }
      myMap := myMap[section := myMap[section][key := value]];
      old(View()).SetKeepsOthers(section, key, value);
    }

    /**
      parseLines: the state afterwards is the one `Run` describes from a
      current section of "" (Go's zero string); `err` is the panic, if any.
     */
    method ParseLines(lines: seq<string>) returns (err: Option<ParseError>)
      modifies this
      ensures View() == Run(old(View()), "", lines).store
      ensures err == Run(old(View()), "", lines).Error()
    {
      var sectionName := "";
      var i := 0;
      while i < |lines|
        invariant 0 <= i <= |lines|
        invariant Run(old(View()), "", lines) == Run(View(), sectionName, lines[i..])
      {
        assert lines[i..][1..] == lines[i + 1..];
        var line := lines[i];
        if |line| == 0 || line[0] == ';' || line == "\n" {
          i := i + 1;
          continue;
        }
        if line[0] == '[' {
          if |line| < 2 {
            return Some(HeaderTooShort(line));
          }
          sectionName := line[1..|line| - 1];
          sectionsNames := sectionsNames + [sectionName];
          myMap := myMap[sectionName := map[]];
        } else {
          var kv := FindKeyAndValue(line);
          if kv.None? {
            return Some(MissingSeparator(line));
          }
          var (key, value) := kv.value;
          if sectionName !in myMap {
            return Some(NoCurrentSection(line));
          }
          myMap := myMap[sectionName := myMap[sectionName][key := value]];
        }
        i := i + 1;
      }
      return None;
    }

    /**
      toString: the lines of the store. Keys within a section come out in
      whatever order the map yields them; `orders` records that order.
     */
    method ToString() returns (lines: seq<string>, ghost orders: seq<seq<string>>)
      ensures ValidOrders(sectionsNames, myMap, orders)
      ensures lines == Render(sectionsNames, myMap, orders)
      ensures |lines| == LineCount(sectionsNames, myMap)
    {
      lines, orders := [], [];
      var i := 0;
      while i < |sectionsNames|
        invariant 0 <= i <= |sectionsNames|
        invariant ValidOrders(sectionsNames[..i], myMap, orders)
        invariant lines == Render(sectionsNames[..i], myMap, orders)
      {
        var name := sectionsNames[i];
        var entries, order := EntryLines(SectionOf(myMap, name));
        ValidOrdersSnoc(sectionsNames[..i], myMap, orders, name, order);
        RenderSnoc(sectionsNames[..i], myMap, orders, name, order);
        assert sectionsNames[..i + 1] == sectionsNames[..i] + [name];
        lines := lines + [Header(name)] + entries;
        orders := orders + [order];
        i := i + 1;
      }
      assert sectionsNames[..i] == sectionsNames;
      RenderLength(sectionsNames, myMap, orders);
    }

    /**
      The inner loop of toString: one line per key of `section`, in the
      order the map iteration yields them, recorded in `order`.
     */
    static method EntryLines(section: Section) returns (entries: seq<string>, ghost order: seq<string>)
      ensures IsEnumeration(order, section.Keys)
      ensures entries == KeyLines(section, order)
      ensures |entries| == |section|
      ensures forall k | k in section :: FormatEntry(k, section[k]) in entries
      ensures forall line | line in entries :: exists k | k in section :: line == FormatEntry(k, section[k])
    {
      entries, order := [], [];
      var remaining := section.Keys;
      while remaining != {}
        invariant remaining <= section.Keys
        invariant forall k :: k in order <==> k in section && k !in remaining
        invariant forall a, b :: 0 <= a < b < |order| ==> order[a] != order[b]
        invariant entries == KeyLines(section, order)
        decreases remaining
      {
        var key :| key in remaining;
        KeyLinesSnoc(section, order, key);
        entries := entries + [FormatEntry(key, section[key])];
        order := order + [key];
        remaining := remaining - {key};
      }
      KeyLinesOfEnumeration(section, order);
    }

    /** loadFromString: split the text on "\n" and parse the pieces. */
    method LoadFromString(content: string) returns (err: Option<ParseError>)
      modifies this
      ensures View() == Run(old(View()), "", Split(content, "\n")).store
      ensures err == Run(old(View()), "", Split(content, "\n")).Error()
    {
      var lines := Split(content, "\n");
      err := ParseLines(lines);
    }
  }
}
