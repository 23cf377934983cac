/** Whole runs of the hook and the emission on the seeded registry, for macros of the SDK
    header: a family of event codes, a code whose name starts with a digit after its prefix,
    and constants that match no prefix. */
module Scenarios {
  import opened Wrappers
  import Text
  import Ordering
  import opened Enums
  import Emission

  /** A macro whose name starts with one of the seeded prefixes lands in that prefix's enum. */
  lemma SeedMatch(name: string, i: nat)
    requires i < |SeedPrefixes| && Text.IsPrefix(SeedPrefixes[i], name)
    ensures FirstMatch(SeedPrefixes, name) == Some(i)
  {
    SeedPrefixFree();
    OnlyMatch(SeedPrefixes, name, i);
  }

  /** The hook on one event macro with a letter after `EVT_`: `value -> rest` in `Event`. */
  lemma EventStep(enums: map<string, Enum>, name: string, value: Value)
    requires enums.Keys == SeedEnums().Keys
    requires |name| > 4 && name[..4] == "EVT_" && !Text.IsDigit(name[4])
    ensures Registered(SeedPrefixes, enums)
    ensures var o := IntMacro(SeedPrefixes, enums, name, value);
      && o.enums.Keys == enums.Keys
      && o.kind == Some(enums["EVT_"].kind)
      && o.enums["EVT_"] == enums["EVT_"].(variant := enums["EVT_"].variant[value := name[4..]])
  {
    SeedRegistered();
    SeedMatch(name, 2);
  }

  /** The three event macros, classified in this order, leave `Event` with three variants. */
  lemma EventVariants()
    ensures Registered(SeedPrefixes, SeedEnums())
    ensures var o1 := IntMacro(SeedPrefixes, SeedEnums(), "EVT_SHOW", 1);
      && Registered(SeedPrefixes, o1.enums)
      && var o2 := IntMacro(SeedPrefixes, o1.enums, "EVT_HIDE", 2);
      && Registered(SeedPrefixes, o2.enums)
      && var o3 := IntMacro(SeedPrefixes, o2.enums, "EVT_KEYDOWN", 3);
      && o1.kind == Some(I32) && o2.kind == Some(I32) && o3.kind == Some(I32)
      && o3.enums["EVT_"] == Enum("Event", I32, map[1 := "SHOW", 2 := "HIDE", 3 := "KEYDOWN"])
  {
    assert "EVT_SHOW"[..4] == "EVT_" && "EVT_SHOW"[4..] == "SHOW";
    assert "EVT_HIDE"[..4] == "EVT_" && "EVT_HIDE"[4..] == "HIDE";
    assert "EVT_KEYDOWN"[..4] == "EVT_" && "EVT_KEYDOWN"[4..] == "KEYDOWN";
    var e0 := SeedEnums();
    EventStep(e0, "EVT_SHOW", 1);
    var o1 := IntMacro(SeedPrefixes, e0, "EVT_SHOW", 1);
    EventStep(o1.enums, "EVT_HIDE", 2);
    var o2 := IntMacro(SeedPrefixes, o1.enums, "EVT_HIDE", 2);
    EventStep(o2.enums, "EVT_KEYDOWN", 3);
    assert e0["EVT_"] == Enum("Event", I32, map[]);
  }

  /** The variant lines of the three event codes. */
  lemma EventLines()
    ensures Emission.VariantLine("SHOW", 1) == "    SHOW = 1,"
    ensures Emission.VariantLine("HIDE", 2) == "    HIDE = 2,"
    ensures Emission.VariantLine("KEYDOWN", 3) == "    KEYDOWN = 3,"
  {
    assert Text.IntToString(1) == "1" by { assert Text.DigitChar(1) == '1'; }
    assert Text.IntToString(2) == "2" by { assert Text.DigitChar(2) == '2'; }
    assert Text.IntToString(3) == "3" by { assert Text.DigitChar(3) == '3'; }
  }

  /** The keys of a three-entry variant map, ascending. */
  lemma ThreeKeys(a: int, b: int, c: int, x: string, y: string, z: string)
    requires a < b < c
    ensures Ordering.SortedKeys(map[a := x, b := y, c := z]) == [a, b, c]
  {
    var m := map[a := x, b := y, c := z];
    assert Ordering.Elements([a, b, c]) == m.Keys;
    Ordering.SortedKeysUnique(m, [a, b, c]);
  }

  /** The lines of three keys, each looked up in the variant map. */
  lemma ThreeLines(keys: seq<int>, m: map<int, string>, x: string, y: string, z: string)
    requires |keys| == 3 && keys[0] in m && keys[1] in m && keys[2] in m
    requires m[keys[0]] == x && m[keys[1]] == y && m[keys[2]] == z
    ensures Emission.VariantLines(keys, m) ==
      [Emission.VariantLine(x, keys[0]), Emission.VariantLine(y, keys[1]), Emission.VariantLine(z, keys[2])]
  {
    var r := Emission.VariantLines(keys, m);
    Emission.VariantLinesAt(keys, m, 0);
    Emission.VariantLinesAt(keys, m, 1);
    Emission.VariantLinesAt(keys, m, 2);
  }

  /** An enum with three variants lists them by ascending value. */
  lemma ThreeVariantBody(name: string, kind: IntKind, a: int, b: int, c: int, x: string, y: string, z: string)
    requires a < b < c
    ensures Emission.Body(Enum(name, kind, map[a := x, b := y, c := z])) ==
      [Emission.VariantLine(x, a), Emission.VariantLine(y, b), Emission.VariantLine(z, c)]
  {
    var m := map[a := x, b := y, c := z];
    ThreeKeys(a, b, c, x, y, z);
    ThreeLines([a, b, c], m, x, y, z);
  }

  /** The variant lines of `Event`, in ascending value order (spelled out by `EventLines`). */
  lemma EventBody()
    ensures Emission.Body(Enum("Event", I32, map[1 := "SHOW", 2 := "HIDE", 3 := "KEYDOWN"])) ==
      [Emission.VariantLine("SHOW", 1), Emission.VariantLine("HIDE", 2), Emission.VariantLine("KEYDOWN", 3)]
  {
    ThreeVariantBody("Event", I32, 1, 2, 3, "SHOW", "HIDE", "KEYDOWN");
  }

  /** The header line of `Event`. */
  lemma EventHeader()
    ensures Emission.Header("Event") == "pub enum Event {"
  {
  }

  /** The block of an `I32` enum with three variant lines. */
  lemma ThreeLineBlock(e: Enum, l1: string, l2: string, l3: string)
    requires e.kind == I32 && Emission.Body(e) == [l1, l2, l3]
    ensures Emission.Block(e) == [Emission.ReprI32, Emission.Derive, Emission.Header(e.name), l1, l2, l3, Emission.Close]
  {
    Emission.I32Block(e);
  }

  /** The `Event` enum with those three variants is written as its `i32` representation,
      the derive line, its header `pub enum Event {`, the three variant lines (spelled out by
      `EventLines`) and the closing brace. */
  lemma EventBlock()
    ensures Emission.Block(Enum("Event", I32, map[1 := "SHOW", 2 := "HIDE", 3 := "KEYDOWN"])) ==
      [Emission.ReprI32, Emission.Derive, Emission.Header("Event"),
       Emission.VariantLine("SHOW", 1), Emission.VariantLine("HIDE", 2), Emission.VariantLine("KEYDOWN", 3),
       Emission.Close]
    ensures Emission.Header("Event") == "pub enum Event {"
  {
    var e := Enum("Event", I32, map[1 := "SHOW", 2 := "HIDE", 3 := "KEYDOWN"]);
    EventHeader();
    EventBody();
    ThreeLineBlock(e, Emission.VariantLine("SHOW", 1), Emission.VariantLine("HIDE", 2), Emission.VariantLine("KEYDOWN", 3));
  }

  /** Every seeded prefix has its enum. */
  lemma SeedRegistered()
    ensures Registered(SeedPrefixes, SeedEnums())
  {
    assert forall j :: 0 <= j < |SeedPrefixes| ==> SeedPrefixes[j] in Ordering.Elements(SeedPrefixes);
  }

  /** The seeded `Icon` enum. */
  lemma SeedIcon()
    ensures "ICON_" in SeedEnums() && SeedEnums()["ICON_"] == NewEnum("Icon", I32)
  {
  }

  /** A variant map whose only key is `value` is the one-entry map. */
  lemma OnlyVariant(variant: map<int, string>, value: int, v: string)
    requires variant.Keys == {value} && variant[value] == v
    ensures variant == map[value := v]
  {
  }

  /** The hook on a fresh registry and a macro starting with `ICON_`: the `Icon` enum gets its
      first variant. */
  lemma IconStep(name: string, value: Value)
    requires |name| >= 5 && name[..5] == "ICON_"
    ensures Registered(SeedPrefixes, SeedEnums())
    ensures var o := IntMacro(SeedPrefixes, SeedEnums(), name, value);
      o.kind == Some(I32) && o.enums["ICON_"].variant == map[value := VariantName(name[5..], "Icon")]
  {
    SeedRegistered();
    SeedMatch(name, 3);
    IntMacroMatched(SeedPrefixes, SeedEnums(), name, value, 3);
    SeedIcon();
    var o := IntMacro(SeedPrefixes, SeedEnums(), name, value);
    OnlyVariant(o.enums["ICON_"].variant, value, VariantName(name[5..], "Icon"));
  }

  /** `ICON_7DAYS = 7`: the remainder `7DAYS` starts with a digit, so the variant is named
      `ICON7DAYS`. */
  lemma IconScenario()
    ensures Registered(SeedPrefixes, SeedEnums())
    ensures var o := IntMacro(SeedPrefixes, SeedEnums(), "ICON_7DAYS", 7);
      o.kind == Some(I32) && o.enums["ICON_"].variant == map[7 := "ICON7DAYS"]
  {
    assert "ICON_7DAYS"[..5] == "ICON_" && "ICON_7DAYS"[5..] == "7DAYS";
    IconStep("ICON_7DAYS", 7);
    IconName();
  }

  /** The upper-cased `Icon` in front of `7DAYS`. */
  lemma IconName()
    ensures VariantName("7DAYS", "Icon") == "ICON7DAYS"
  {
    assert Text.UpperChar('c') == 'C' && Text.UpperChar('o') == 'O' && Text.UpperChar('n') == 'N';
    assert Text.Upper("Icon") == "ICON";
  }

  /** Whatever macros the parse reports, each of the six blocks of the seeded registry opens
      with `#[repr(i32)]`. */
  lemma SeededBlocksReprI32(macros: seq<(string, Value)>, i: nat)
    requires i < |SeedPrefixes|
    ensures Registered(SeedPrefixes, SeedEnums())
    ensures var r := Classify(SeedPrefixes, SeedEnums(), macros);
      Registered(SeedPrefixes, r) && Emission.Block(r[SeedPrefixes[i]])[0] == Emission.ReprI32
  {
    SeedRegistered();
    assert SeedPrefixes[i] in SeedEnums();
    Emission.ClassifiedBlockReprI32(SeedPrefixes, SeedEnums(), macros, SeedPrefixes[i]);
  }

  /** `MAXMSGSIZE = 4096` matches no prefix: no enum changes and the constant is an `i32`;
      a value outside the `i32` range gets no preference. */
  lemma UnmatchedScenario()
    ensures IntMacro(SeedPrefixes, SeedEnums(), "MAXMSGSIZE", 4096) == Outcome(SeedEnums(), Some(I32))
    ensures IntMacro(SeedPrefixes, SeedEnums(), "MAXMSGSIZE", 0x1_0000_0000) == Outcome(SeedEnums(), None)
  {
    forall j | 0 <= j < |SeedPrefixes| ensures !Text.IsPrefix(SeedPrefixes[j], "MAXMSGSIZE") {
      assert SeedPrefixes[j][0] != 'M';
    }
  }
}
