/**
  What toString promises: its length, that only the listed sections show,
  and that parsing its lines back reproduces the store.
 */
module RenderProperties {
  import opened GoStrings
  import opened IniParser
  import opened ParseProperties

  // ---------------------------------------------------------------------
  // Visibility

  /** toString reads only the sections it lists: sections outside the name list never show. */
  lemma {:induction false} RenderReadsListedOnly(names: seq<string>, s1: map<string, Section>, s2: map<string, Section>,
                                                 orders: seq<seq<string>>)
    requires |orders| == |names|
    requires forall n | n in names :: SectionOf(s1, n) == SectionOf(s2, n)
    ensures Render(names, s1, orders) == Render(names, s2, orders)
  {
    if names != [] {
      assert names[0] in names;
      RenderReadsListedOnly(names[1..], s1, s2, orders[1..]);
    }
  }

  /**
    setValue on a section that has no header in the order changes nothing
    toString shows: the section exists in the map but is not listed.
   */
  lemma SetUnlistedInvisible(st: Store, section: string, key: string, value: string, orders: seq<seq<string>>)
    requires section !in st.names && |orders| == |st.names|
    ensures ValidOrders(st.names, st.Set(section, key, value).sections, orders)
        <==> ValidOrders(st.names, st.sections, orders)
    ensures Render(st.names, st.Set(section, key, value).sections, orders) == Render(st.names, st.sections, orders)
  {
    var after := st.Set(section, key, value).sections;
    assert forall n | n in st.names :: SectionOf(after, n) == SectionOf(st.sections, n);
    RenderReadsListedOnly(st.names, after, st.sections, orders);
  }

  /** The case from the Go tests: a single section with a single key gives its header and its entry. */
  lemma ToStringExample(name: string, key: string, value: string, orders: seq<seq<string>>)
    requires ValidOrders([name], map[name := map[key := value]], orders)
    ensures Render([name], map[name := map[key := value]], orders) == [Header(name), FormatEntry(key, value)]
  {
    var section := map[key := value];
    assert SectionOf(map[name := section], name) == section;
    ValidOrdersTail([name], map[name := section], orders);
    EnumerationSize(orders[0], section.Keys);
    assert orders[0][0] in section.Keys;
    assert orders[0] == [key];
    assert [name][1..] == [];
  }

  // ---------------------------------------------------------------------
  // Parsing what toString gives

  /** A section whose every entry is plain. */
  predicate PlainSection(m: Section) {
    forall k | k in m :: PlainEntry(k, m[k])
  }

  /** The keys of `order` with their values in `m`. */
  function Filled(m: Section, order: seq<string>): Section {
    map k | k in order :: ValueIn(m, k)
  }

  /** Updating before a merge is updating after it, when the merged map agrees at that key. */
  lemma MergeUpdate<K, V>(base: map<K, V>, k: K, v: V, r: map<K, V>)
    requires k in r ==> r[k] == v
    ensures base[k := v] + r == base + r[k := v]
  {
  }

  /** A second update of the same key overrides the first. */
  lemma UpdateTwice<K, V>(m: map<K, V>, k: K, v1: V, v2: V)
    ensures m[k := v1][k := v2] == m[k := v2]
  {
  }

  lemma FilledCons(base: Section, m: Section, order: seq<string>)
    requires order != []
    ensures base[order[0] := ValueIn(m, order[0])] + Filled(m, order[1..]) == base + Filled(m, order)
  {
    FilledHead(m, order);
    MergeUpdate(base, order[0], ValueIn(m, order[0]), Filled(m, order[1..]));
  }

  lemma FilledHead(m: Section, order: seq<string>)
    requires order != []
    ensures Filled(m, order) == Filled(m, order[1..])[order[0] := ValueIn(m, order[0])]
  {
    assert forall k :: k in order <==> k == order[0] || k in order[1..] by {
      assert order == [order[0]] + order[1..];
    }
  }

  /** The keys of an enumeration of `m` with their values in `m` are `m`. */
  lemma FilledAll(m: Section, order: seq<string>)
    requires forall k :: k in order <==> k in m
    ensures Filled(m, order) == m
  {
  }

  /** setValue of each key of `order`, in turn, with its value in `m`. */
  function SetAll(st: Store, section: string, m: Section, order: seq<string>): Store
    decreases |order|
  {
    if order == [] then st
    else SetAll(st.Set(section, order[0], ValueIn(m, order[0])), section, m, order[1..])
  }

  /** Setting each key of `order` in turn merges those keys, with their values in `m`, into the section. */
  lemma {:induction false} SetAllMerges(st: Store, section: string, m: Section, order: seq<string>)
    requires section in st.sections
    ensures SetAll(st, section, m, order)
         == Store(st.names, st.sections[section := st.sections[section] + Filled(m, order)])
    decreases |order|
  {
    if order == [] {
      assert st.sections[section] + Filled(m, order) == st.sections[section];
      assert st.sections[section := st.sections[section]] == st.sections;
    } else {
      var base := st.sections[section];
      var first := base[order[0] := ValueIn(m, order[0])];
      var next := st.Set(section, order[0], ValueIn(m, order[0]));
      assert next == Store(st.names, st.sections[section := first]);
      SetAllMerges(next, section, m, order[1..]);
      FilledCons(base, m, order);
      UpdateTwice(st.sections, section, first, base + Filled(m, order));
    }
  }

  /** The entry lines of a section, parsed under an existing section, set each key to its value in turn. */
  lemma {:induction false} ParseKeyLines(st: Store, cursor: string, m: Section, order: seq<string>)
    requires cursor in st.sections
    requires forall k | k in order :: PlainEntry(k, ValueIn(m, k))
    ensures Run(st, cursor, KeyLines(m, order)) == Done(SetAll(st, cursor, m, order), cursor)
    decreases |order|
  {
    var lines := KeyLines(m, order);
    if order != [] {
      var key, value := order[0], ValueIn(m, order[0]);
      var next := st.Set(cursor, key, value);
      assert lines[0] == FormatEntry(key, value) && lines[1..] == KeyLines(m, order[1..]);
      ParseEntry(st, cursor, key, value);
      RunStep(st, cursor, lines, next, cursor);
      ParseKeyLines(next, cursor, m, order[1..]);
    }
  }

  /** Setting every key of an enumeration of `m` into a fresh empty section gives back `m`. */
  lemma SetAllRestores(st: Store, name: string, m: Section, order: seq<string>)
    requires IsEnumeration(order, m.Keys)
    ensures SetAll(Store(st.names, st.sections[name := map[]]), name, m, order) == Store(st.names, st.sections[name := m])
  {
    var st1 := Store(st.names, st.sections[name := map[]]);
    SetAllMerges(st1, name, m, order);
    assert st1.sections[name] + Filled(m, order) == m by {
      FilledAll(m, order);
      assert st1.sections[name] == map[];
    }
    UpdateTwice(st.sections, name, map[], m);
  }

  /**
    A header, the entry lines of a plain section in one of its orders, and
    whatever follows: the section is restored in full under its name.
   */
  lemma ParseSectionBlock(st: Store, cursor: string, name: string, m: Section, order: seq<string>, rest: seq<string>)
    requires PlainSection(m) && IsEnumeration(order, m.Keys)
    ensures Run(st, cursor, [Header(name)] + KeyLines(m, order) + rest)
         == Run(Store(st.names + [name], st.sections[name := m]), name, rest)
  {
    var keyLines := KeyLines(m, order);
    var st1 := Store(st.names + [name], st.sections[name := map[]]);
    assert [Header(name)] + keyLines + rest == [Header(name)] + (keyLines + rest);
    RunAfterHeader(st, cursor, name, keyLines + rest);
    ParseKeyLines(st1, name, m, order);
    SetAllRestores(Store(st.names + [name], st.sections), name, m, order);
    RunAppend(st1, name, keyLines, rest);
  }

  /** The state after parsing the sections `names` in turn: each appended to the order and restored in full. */
  function LoadAll(st: Store, names: seq<string>, sections: map<string, Section>): Store
    decreases |names|
  {
    if names == [] then st
    else LoadAll(Store(st.names + [names[0]], st.sections[names[0] := SectionOf(sections, names[0])]), names[1..], sections)
  }

  /** The sections a name list shows, each under its name. */
  function Listed(names: seq<string>, sections: map<string, Section>): map<string, Section> {
    map n | n in names :: SectionOf(sections, n)
  }

  lemma ListedCons(base: map<string, Section>, names: seq<string>, sections: map<string, Section>)
    requires names != []
    ensures base[names[0] := SectionOf(sections, names[0])] + Listed(names[1..], sections)
         == base + Listed(names, sections)
  {
    var head := names[0];
    ListedHead(names, sections);
    MergeUpdate(base, head, SectionOf(sections, head), Listed(names[1..], sections));
  }

  lemma ListedHead(names: seq<string>, sections: map<string, Section>)
    requires names != []
    ensures Listed(names, sections) == Listed(names[1..], sections)[names[0] := SectionOf(sections, names[0])]
  {
    assert forall n :: n in names <==> n == names[0] || n in names[1..] by {
      assert names == [names[0]] + names[1..];
    }
  }


  /** Loading the sections `names` appends the names and merges in the sections they list. */
  lemma {:induction false} LoadAllMerges(st: Store, names: seq<string>, sections: map<string, Section>)
    ensures LoadAll(st, names, sections) == Store(st.names + names, st.sections + Listed(names, sections))
    decreases |names|
  {
    if names == [] {
      assert st.names + names == st.names;
      assert st.sections + Listed(names, sections) == st.sections;
    } else {
      var st1 := Store(st.names + [names[0]], st.sections[names[0] := SectionOf(sections, names[0])]);
      LoadAllMerges(st1, names[1..], sections);
      ListedCons(st.sections, names, sections);
      assert st1.names + names[1..] == st.names + names;
    }
  }

  /**
    Parsing what toString gives, from any state, for whichever key orders
    the map iteration happened to produce: each listed section in turn is
    appended to the order and restored in full, and the cursor ends on
    the last listed name.
   */
  lemma {:induction false} ParseRender(st: Store, cursor: string, names: seq<string>, sections: map<string, Section>,
                                       orders: seq<seq<string>>)
    requires ValidOrders(names, sections, orders)
    requires forall n | n in names :: PlainSection(SectionOf(sections, n))
    ensures Run(st, cursor, Render(names, sections, orders))
         == Done(LoadAll(st, names, sections), if names == [] then cursor else names[|names| - 1])
    decreases |names|
  {
    if names != [] {
      var name, m := names[0], SectionOf(sections, names[0]);
      var rest := Render(names[1..], sections, orders[1..]);
      var st1 := Store(st.names + [name], st.sections[name := m]);
      assert name in names;
      ValidOrdersTail(names, sections, orders);
      ParseSectionBlock(st, cursor, name, m, orders[0], rest);
      ParseRender(st1, name, names[1..], sections, orders[1..]);
      if |names| > 1 {
        assert names[1..][|names[1..]| - 1] == names[|names| - 1];
      }
    }
  }

  /**
    The round trip: a store whose order lists exactly its
    sections and whose entries are plain is reproduced by parsing its
    toString output on a fresh parser, duplicates in the order included.
   */
  lemma RoundTrip(st: Store, orders: seq<seq<string>>)
    requires ValidOrders(st.names, st.sections, orders)
    requires forall n | n in st.sections :: PlainSection(st.sections[n])
    requires forall n :: n in st.names <==> n in st.sections
    ensures Run(Empty, "", Render(st.names, st.sections, orders)).Done?
    ensures Run(Empty, "", Render(st.names, st.sections, orders)).store == st
  {
    ParseRender(Empty, "", st.names, st.sections, orders);
    LoadAllFromEmpty(st);
  }

  /** Loading every section of a store whose order lists exactly its sections into an empty store gives that store. */
  lemma LoadAllFromEmpty(st: Store)
    requires forall n :: n in st.names <==> n in st.sections
    ensures LoadAll(Empty, st.names, st.sections) == st
  {
    LoadAllMerges(Empty, st.names, st.sections);
    assert Listed(st.names, st.sections) == st.sections;
    assert Empty.names + st.names == st.names;
  }

  /** No name, key or value of the listed sections holds a newline character. */
  predicate NewlineFree(names: seq<string>, sections: map<string, Section>) {
    && (forall n | n in names :: '\n' !in n)
    && (forall n, k | n in names && k in SectionOf(sections, n) :: '\n' !in k && '\n' !in SectionOf(sections, n)[k])
  }

  /** The entry lines of keys and values without newlines have no newline. */
  lemma KeyLinesNewlineFree(m: Section, order: seq<string>)
    requires forall k | k in order :: '\n' !in k && '\n' !in ValueIn(m, k)
    ensures forall line | line in KeyLines(m, order) :: '\n' !in line
  {
    KeyLinesAt(m, order);
    var lines := KeyLines(m, order);
    forall i | 0 <= i < |lines| ensures '\n' !in lines[i] {
      assert order[i] in order;
    }
  }

  /** Every line toString gives is free of newlines when the names, keys and values are. */
  lemma {:induction false} RenderNewlineFree(names: seq<string>, sections: map<string, Section>, orders: seq<seq<string>>)
    requires ValidOrders(names, sections, orders) && NewlineFree(names, sections)
    ensures forall line | line in Render(names, sections, orders) :: '\n' !in line
    decreases |names|
  {
    if names != [] {
      var m, order := SectionOf(sections, names[0]), orders[0];
      ValidOrdersTail(names, sections, orders);
      assert names[0] in names;
      assert NewlineFree(names[1..], sections) by {
        assert forall n | n in names[1..] :: n in names;
      }
      RenderNewlineFree(names[1..], sections, orders[1..]);
      assert forall k | k in order :: k in m;
      KeyLinesNewlineFree(m, order);
    }
  }

  /**
    The round trip through text: joining the lines of toString with "\n"
    and loading that text with loadFromString reproduces the store, when
    no name, key or value holds a newline.
   */
  lemma TextRoundTrip(st: Store, orders: seq<seq<string>>)
    requires ValidOrders(st.names, st.sections, orders)
    requires forall n | n in st.sections :: PlainSection(st.sections[n])
    requires forall n :: n in st.names <==> n in st.sections
    requires NewlineFree(st.names, st.sections)
    ensures Run(Empty, "", Split(Join(Render(st.names, st.sections, orders), "\n"), "\n")).Done?
    ensures Run(Empty, "", Split(Join(Render(st.names, st.sections, orders), "\n"), "\n")).store == st
  {
    var lines := Render(st.names, st.sections, orders);
    RoundTrip(st, orders);
    if lines == [] {
      assert Split(Join(lines, "\n"), "\n") == [""];
      assert st.names == [] by {
        if st.names != [] {
          RenderLength(st.names, st.sections, orders);
        }
      }
      assert st.sections == map[];
    } else {
      RenderNewlineFree(st.names, st.sections, orders);
      forall k | 0 <= k < |lines| ensures !Contains(lines[k], "\n") {
        assert lines[k] in lines;
        NoNewlineFree(lines[k]);
      }
      SplitJoin(lines, "\n");
    }
  }

  /** The round trip on the class: a fresh parser loading the lines of `p` ends up with the state of `p`. */
  method ReloadIntoFreshParser(p: Parser) returns (q: Parser, err: Option<ParseError>)
    requires forall n | n in p.myMap :: PlainSection(p.myMap[n])
    requires forall n :: n in p.sectionsNames <==> n in p.myMap
    ensures fresh(q) && err == None && q.View() == p.View()
  {
    var lines, orders := p.ToString();
    q := new Parser();
    err := q.ParseLines(lines);
    RoundTrip(p.View(), orders);
  }
}
