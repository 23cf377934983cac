/** The virtual enums of the build script and the pure part of its `int_macro` hook: how a
    macro is matched against the registered prefixes, how its variant is named, and what
    the hook answers. The registry object that holds these enums is in module `Registry`. */
module Enums {
  import opened Wrappers
  import Text
  import Ordering

  /** bindgen's `IntKind`: the integer type chosen for a macro constant. */
  datatype IntKind =
    | Bool | SChar | UChar | WChar | Char(isSigned: bool)
    | Short | UShort | Int | UInt | Long | ULong | LongLong | ULongLong
    | I8 | U8 | I16 | U16 | I32 | U32 | I64 | U64 | I128 | U128
    | Custom(name: string, isSigned: bool)

  const I32Min: int := -0x8000_0000
  const I32Max: int := 0x7fff_ffff

  /** The `i64` value bindgen hands to `int_macro`. */
  type Value = v: int | -0x8000_0000_0000_0000 <= v <= 0x7fff_ffff_ffff_ffff

  /** `struct Enum`: the display name of the enum, the kind of every variant, and the
      variants as a map from value to name. */
  datatype Enum = Enum(name: string, kind: IntKind, variant: map<int, string>)

  /** `Enum::new`: a group with no variants yet. */
  function NewEnum(name: string, kind: IntKind): (e: Enum)
    ensures e.name == name && e.kind == kind
    ensures e.variant == map[]
  {
    Enum(name, kind, map[])
  }

  /** The stored variant name for the remainder `rest` of a macro name after its prefix:
      a remainder that starts with a decimal digit gets the upper-cased enum name in front. */
  function VariantName(rest: string, enumName: string): (r: string)
    ensures |r| >= |rest| && r[|r| - |rest|..] == rest
  {
    if rest != [] && Text.IsDigit(rest[0]) then Text.Upper(enumName) + rest else rest
  }

  /** The variant name is the remainder, or the upper-cased enum name followed by it, and the
      remainder is kept as it is exactly when it does not start with a digit. */
  lemma VariantNameCases(rest: string, enumName: string)
    ensures var r := VariantName(rest, enumName);
      (r == rest) || (r == Text.Upper(enumName) + rest && Text.IsDigit(rest[0]))
    ensures VariantName(rest, enumName) == rest <==>
      rest == [] || !Text.IsDigit(rest[0]) || Text.Upper(enumName) == []
    ensures VariantName([], enumName) == []
  {
  }

  /** With a non-empty enum name that does not start with a digit, a variant name never
      starts with a digit: the fix-up makes every non-empty name a legal identifier start. */
  lemma VariantNameNotDigitLeading(rest: string, enumName: string)
    requires enumName != [] && !Text.IsDigit(enumName[0])
    ensures var r := VariantName(rest, enumName); r == [] || !Text.IsDigit(r[0])
  {
    if rest != [] && Text.IsDigit(rest[0]) {
      assert Text.Upper(enumName)[0] == Text.UpperChar(enumName[0]);
    }
  }

  /** The answer when no prefix matches: `I32` for a value inside the `i32` range, no
      preference otherwise. */
  function FallbackKind(value: Value): (k: Option<IntKind>)
    ensures k == Some(I32) <==> I32Min <= value <= I32Max
    ensures k.None? <==> !(I32Min <= value <= I32Max)
  {
    if I32Min <= value <= I32Max then Some(I32) else None
  }

  /** The index of the first prefix, from index `from` on, that starts `name`. */
  function FirstMatchFrom(prefixes: seq<string>, name: string, from: nat): (r: Option<nat>)
    requires from <= |prefixes|
    ensures r.Some? ==> from <= r.value < |prefixes| && Text.IsPrefix(prefixes[r.value], name)
    ensures r.Some? ==> forall j :: from <= j < r.value ==> !Text.IsPrefix(prefixes[j], name)
    ensures r.None? ==> forall j :: from <= j < |prefixes| ==> !Text.IsPrefix(prefixes[j], name)
    decreases |prefixes| - from
  {
    if from == |prefixes| then None
    else if Text.IsPrefix(prefixes[from], name) then Some(from)
    else FirstMatchFrom(prefixes, name, from + 1)
  }

  /** The index of the first prefix, in registry order, that starts `name`. */
  function FirstMatch(prefixes: seq<string>, name: string): (r: Option<nat>)
    ensures r.Some? ==> r.value < |prefixes| && Text.IsPrefix(prefixes[r.value], name)
    ensures r.Some? ==> forall j :: 0 <= j < r.value ==> !Text.IsPrefix(prefixes[j], name)
    ensures r.None? <==> forall j :: 0 <= j < |prefixes| ==> !Text.IsPrefix(prefixes[j], name)
  {
    FirstMatchFrom(prefixes, name, 0)
  }

  /** The first prefix that starts `name` is at `i` when it does and none before it does. */
  lemma FirstMatchAt(prefixes: seq<string>, name: string, i: nat)
    requires i < |prefixes| && Text.IsPrefix(prefixes[i], name)
    requires forall j :: 0 <= j < i ==> !Text.IsPrefix(prefixes[j], name)
    ensures FirstMatch(prefixes, name) == Some(i)
  {
    var r := FirstMatch(prefixes, name);
    assert r.Some?;
    if r.value < i {
      assert false;
    }
  }

  /** No registered prefix starts another one. */
  predicate PrefixFree(prefixes: seq<string>)
  {
    forall i, j :: 0 <= i < |prefixes| && 0 <= j < |prefixes| && i != j ==>
      !Text.IsPrefix(prefixes[i], prefixes[j])
  }

  /** With prefix-free keys at most one prefix matches, so the first match is the only one
      and the order in which the registry is walked does not matter. */
  lemma OnlyMatch(prefixes: seq<string>, name: string, j: nat)
    requires PrefixFree(prefixes)
    requires j < |prefixes| && Text.IsPrefix(prefixes[j], name)
    ensures FirstMatch(prefixes, name) == Some(j)
  {
    var r := FirstMatch(prefixes, name);
    if r != Some(j) {
      var i := r.value;
      Text.PrefixesComparable(prefixes[i], prefixes[j], name);
      assert false;
    }
  }

  /** What the hook returns, and the registry's enums after it. */
  datatype Outcome = Outcome(enums: map<string, Enum>, kind: Option<IntKind>)

  /** Every registered prefix has its enum. */
  predicate Registered(prefixes: seq<string>, enums: map<string, Enum>)
  {
    forall i :: 0 <= i < |prefixes| ==> prefixes[i] in enums
  }

  /** `int_macro(name, value)` on a registry whose keys, in order, are `prefixes`. */
  function IntMacro(prefixes: seq<string>, enums: map<string, Enum>, name: string, value: Value): (o: Outcome)
    requires Registered(prefixes, enums)
    ensures o.enums.Keys == enums.Keys
  {
    match FirstMatch(prefixes, name)
    case Some(i) =>
      var prefix := prefixes[i];
      var e := enums[prefix];
      var variantName := VariantName(name[|prefix|..], e.name);
      Outcome(enums[prefix := e.(variant := e.variant[value := variantName])], Some(e.kind))
    case None =>
      Outcome(enums, FallbackKind(value))
  }

  /** On a match: the matched enum gets `value -> name without its prefix` (fixed up), keeps
      its display name, its kind and its other variants; every other enum is unchanged; and
      the hook answers the matched enum's kind. */
  lemma IntMacroMatched(prefixes: seq<string>, enums: map<string, Enum>, name: string, value: Value, i: nat)
    requires Registered(prefixes, enums)
    requires FirstMatch(prefixes, name) == Some(i)
    ensures var o := IntMacro(prefixes, enums, name, value);
      var p := prefixes[i];
      && o.kind == Some(enums[p].kind)
      && o.enums[p].name == enums[p].name
      && o.enums[p].kind == enums[p].kind
      && o.enums[p].variant.Keys == enums[p].variant.Keys + {value}
      && o.enums[p].variant[value] == VariantName(name[|p|..], enums[p].name)
      && (forall v :: v in enums[p].variant && v != value ==> o.enums[p].variant[v] == enums[p].variant[v])
      && (forall q :: q in enums && q != p ==> o.enums[q] == enums[q])
  {
  }

  /** The outcome when the first match is at `i`, written out. */
  lemma IntMacroAt(prefixes: seq<string>, enums: map<string, Enum>, name: string, value: Value, i: nat)
    requires Registered(prefixes, enums)
    requires FirstMatch(prefixes, name) == Some(i)
    ensures var p := prefixes[i]; var e := enums[p];
      IntMacro(prefixes, enums, name, value)
        == Outcome(enums[p := e.(variant := e.variant[value := VariantName(name[|p|..], e.name)])], Some(e.kind))
  {
  }

  /** With no match nothing changes, and the answer depends on the `i32` range alone. */
  lemma IntMacroUnmatched(prefixes: seq<string>, enums: map<string, Enum>, name: string, value: Value)
    requires Registered(prefixes, enums)
    requires forall j :: 0 <= j < |prefixes| ==> !Text.IsPrefix(prefixes[j], name)
    ensures IntMacro(prefixes, enums, name, value) == Outcome(enums, FallbackKind(value))
  {
  }

  /** The hook never changes an enum's kind: only variant maps grow. So a registry seeded
      with `I32` enums is still all `I32` however many macros the parse reports. */
  lemma IntMacroKeepsKinds(prefixes: seq<string>, enums: map<string, Enum>, name: string, value: Value)
    requires Registered(prefixes, enums)
    ensures var o := IntMacro(prefixes, enums, name, value);
      forall p :: p in o.enums ==> o.enums[p].kind == enums[p].kind
  {
  }

  /** The registry's enums after the hook has seen `macros`, name and value, in the order the
      parse reports them. */
  function Classify(prefixes: seq<string>, enums: map<string, Enum>, macros: seq<(string, Value)>): (r: map<string, Enum>)
    requires Registered(prefixes, enums)
    ensures r.Keys == enums.Keys
    decreases |macros|
  {
    if macros == [] then enums
    else
      var o := IntMacro(prefixes, enums, macros[0].0, macros[0].1);
      Classify(prefixes, o.enums, macros[1..])
  }

  /** However many macros the parse reports, every enum keeps the kind it was seeded with. */
  lemma {:induction false} ClassifyKeepsKinds(prefixes: seq<string>, enums: map<string, Enum>, macros: seq<(string, Value)>)
    requires Registered(prefixes, enums)
    ensures var r := Classify(prefixes, enums, macros);
      forall p :: p in r ==> r[p].kind == enums[p].kind
    decreases |macros|
  {
    if macros != [] {
      var o := IntMacro(prefixes, enums, macros[0].0, macros[0].1);
      IntMacroKeepsKinds(prefixes, enums, macros[0].0, macros[0].1);
      ClassifyKeepsKinds(prefixes, o.enums, macros[1..]);
    }
  }

  /** The hook never drops a stored value: variant maps only grow. */
  lemma IntMacroKeepsValues(prefixes: seq<string>, enums: map<string, Enum>, name: string, value: Value, p: string, v: int)
    requires Registered(prefixes, enums) && p in enums && v in enums[p].variant
    ensures var o := IntMacro(prefixes, enums, name, value);
      p in o.enums && v in o.enums[p].variant
  {
    match FirstMatch(prefixes, name)
    case Some(i) =>
      IntMacroMatched(prefixes, enums, name, value, i);
    case None =>
      IntMacroUnmatched(prefixes, enums, name, value);
  }

  /** However many macros the parse reports, a value once stored in an enum stays stored. */
  lemma {:induction false} ClassifyKeepsValues(prefixes: seq<string>, enums: map<string, Enum>, macros: seq<(string, Value)>, p: string, v: int)
    requires Registered(prefixes, enums) && p in enums && v in enums[p].variant
    ensures var r := Classify(prefixes, enums, macros);
      p in r && v in r[p].variant
    decreases |macros|
  {
    if macros != [] {
      var o := IntMacro(prefixes, enums, macros[0].0, macros[0].1);
      IntMacroKeepsValues(prefixes, enums, macros[0].0, macros[0].1, p, v);
      ClassifyKeepsValues(prefixes, o.enums, macros[1..], p, v);
    }
  }

  /** The value of every macro a registered prefix takes is in that prefix's enum at the end
      of the parse. */
  lemma {:induction false} MatchedValueKept(prefixes: seq<string>, enums: map<string, Enum>, macros: seq<(string, Value)>, k: nat, i: nat)
    requires Registered(prefixes, enums) && k < |macros|
    requires FirstMatch(prefixes, macros[k].0) == Some(i)
    ensures var r := Classify(prefixes, enums, macros);
      prefixes[i] in r && macros[k].1 in r[prefixes[i]].variant
    decreases k
  {
    var o := IntMacro(prefixes, enums, macros[0].0, macros[0].1);
    if k == 0 {
      IntMacroMatched(prefixes, enums, macros[0].0, macros[0].1, i);
      ClassifyKeepsValues(prefixes, o.enums, macros[1..], prefixes[i], macros[0].1);
    } else {
      assert macros[1..][k - 1] == macros[k];
      MatchedValueKept(prefixes, o.enums, macros[1..], k - 1, i);
    }
  }

  /** Two macros with the same value in the same enum: the later name replaces the earlier
      one, and no error is raised. */
  lemma LastWriterWins(prefixes: seq<string>, enums: map<string, Enum>, first: string, second: string, value: Value, i: nat)
    requires Registered(prefixes, enums)
    requires FirstMatch(prefixes, first) == Some(i) && FirstMatch(prefixes, second) == Some(i)
    ensures var o1 := IntMacro(prefixes, enums, first, value);
      var o2 := IntMacro(prefixes, o1.enums, second, value);
      var p := prefixes[i];
      o2.enums[p].variant == enums[p].variant[value := VariantName(second[|p|..], enums[p].name)]
  {
    IntMacroMatched(prefixes, enums, first, value, i);
  }

  /** The prefixes of the seeded registry, in the ascending order of its `BTreeMap`. */
  const SeedPrefixes: seq<string> := ["DEF_", "DITHER_", "EVT_", "ICON_", "IV_KEY_", "REQ_"]

  /** The six enums the build script registers before parsing starts. */
  function SeedEnums(): (m: map<string, Enum>)
    ensures m.Keys == Ordering.Elements(SeedPrefixes)
    ensures forall p :: p in m ==> m[p].kind == I32 && m[p].variant == map[]
  {
    map[
      "EVT_" := NewEnum("Event", I32),
      "IV_KEY_" := NewEnum("Key", I32),
      "REQ_" := NewEnum("Request", I32),
      "ICON_" := NewEnum("Icon", I32),
      "DEF_" := NewEnum("Button", I32),
      "DITHER_" := NewEnum("Dither", I32)
    ]
  }

  /** The seeded prefixes are listed in ascending order. */
  lemma SeedSorted()
    ensures Ordering.StringsSorted(SeedPrefixes)
  {
    var s := SeedPrefixes;
    assert Text.Less(s[0], s[1]) && Text.Less(s[1], s[2]) && Text.Less(s[2], s[3]);
    assert Text.Less(s[3], s[4]) && Text.Less(s[4], s[5]);
    forall i, j | 0 <= i < j < |s| ensures Text.Less(s[i], s[j]) {
      var k := i;
      while k + 1 < j
        invariant i <= k < j && Text.Less(s[i], s[k + 1])
      {
        Text.LessTransitive(s[i], s[k + 1], s[k + 2]);
        k := k + 1;
      }
    }
  }

  /** None of the seeded prefixes starts another one. */
  lemma SeedPrefixFree()
    ensures PrefixFree(SeedPrefixes)
  {
    var s := SeedPrefixes;
    // The first two characters already tell the six prefixes apart.
    forall i, j | 0 <= i < |s| && 0 <= j < |s| && i != j ensures !Text.IsPrefix(s[i], s[j]) {
      assert s[i][0] != s[j][0] || s[i][1] != s[j][1];
    }
  }
}
