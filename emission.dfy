/** The text the build script appends to the generated bindings: one `pub enum` block per
    registered enum, in the order of the registry's prefixes. Lines are modelled without
    their trailing newline. */
module Emission {
  import Text
  import Ordering
  import Wrappers
  import opened Enums

  const ReprI32: string := "#[repr(i32)]"
  const ReprU32: string := "#[repr(u32)]"
  const Derive: string := "#[derive(Debug, Copy, Clone, PartialEq, Eq, Hash, FromPrimitive)]"
  const Close: string := "}"

  /** The representation attribute: one for `I32` and `U32`, none for any other kind. */
  function ReprLines(kind: IntKind): (r: seq<string>)
    ensures |r| <= 1
  {
    match kind
    case I32 => [ReprI32]
    case U32 => [ReprU32]
    case _ => []
  }

  lemma ReprLinesCases(kind: IntKind)
    ensures ReprLines(kind) == [ReprI32] <==> kind == I32
    ensures ReprLines(kind) == [ReprU32] <==> kind == U32
    ensures ReprLines(kind) == [] <==> kind != I32 && kind != U32
  {
  }

  function Header(name: string): string
  {
    "pub enum " + name + " {"
  }

  /** One variant line: the name, then its value in decimal. */
  function VariantLine(name: string, value: int): string
  {
    "    " + name + " = " + Text.IntToString(value) + ","
  }

  /** The value can be read back from its line: the text between ` = ` and the final comma
      is the decimal rendering of the value. */
  lemma VariantLineValue(name: string, value: int)
    ensures var r := VariantLine(name, value);
      && 8 + |name| < |r|
      && r[..4] == "    "
      && r[4..4 + |name|] == name
      && r[4 + |name|..7 + |name|] == " = "
      && r[7 + |name|..|r| - 1] == Text.IntToString(value)
      && Text.ParseInt(r[7 + |name|..|r| - 1]) == value
      && r[|r| - 1] == ','
  {
    Text.ParseIntToString(value);
  }

  /** Variant lines for the given keys, in the given order. */
  function VariantLines(keys: seq<int>, variant: map<int, string>): (r: seq<string>)
    requires forall i :: 0 <= i < |keys| ==> keys[i] in variant
    ensures |r| == |keys|
  {
    if keys == [] then []
    else VariantLines(keys[..|keys| - 1], variant) + [VariantLine(variant[keys[|keys| - 1]], keys[|keys| - 1])]
  }

  /** The `i`-th variant line is the line of the `i`-th key. */
  lemma {:induction false} VariantLinesAt(keys: seq<int>, variant: map<int, string>, i: nat)
    requires forall j :: 0 <= j < |keys| ==> keys[j] in variant
    requires i < |keys|
    ensures VariantLines(keys, variant)[i] == VariantLine(variant[keys[i]], keys[i])
  {
    if i < |keys| - 1 {
      var init := keys[..|keys| - 1];
      VariantLinesAt(init, variant, i);
    }
  }

  /** The lines before the variants: the attribute, the derive line and the header. */
  function Prologue(e: Enum): (r: seq<string>)
    ensures |r| == |ReprLines(e.kind)| + 2
  {
    ReprLines(e.kind) + [Derive, Header(e.name)]
  }

  /** The variant lines of an enum, in ascending value order. */
  function Body(e: Enum): (r: seq<string>)
    ensures |r| == |e.variant|
  {
    VariantLines(Ordering.SortedKeys(e.variant), e.variant)
  }

  /** The block written for one enum. */
  function Block(e: Enum): (b: seq<string>)
    ensures |b| == |ReprLines(e.kind)| + 3 + |e.variant|
    ensures b[|b| - 1] == Close
  {
    Prologue(e) + Body(e) + [Close]
  }

  /** Everything appended for the enums under `prefixes`, one block after another. */
  function Output(prefixes: seq<string>, enums: map<string, Enum>): seq<string>
    requires Registered(prefixes, enums)
  {
    if prefixes == [] then []
    else Output(prefixes[..|prefixes| - 1], enums) + Block(enums[prefixes[|prefixes| - 1]])
  }

  /** Every registered enum adds at least its derive line, header and brace, and a
      non-empty output ends with the brace of the last enum. */
  lemma {:induction false} OutputShape(prefixes: seq<string>, enums: map<string, Enum>)
    requires Registered(prefixes, enums)
    ensures |Output(prefixes, enums)| >= 3 * |prefixes|
    ensures prefixes != [] ==> Output(prefixes, enums)[|Output(prefixes, enums)| - 1] == Close
    decreases |prefixes|
  {
    if prefixes != [] {
      OutputShape(prefixes[..|prefixes| - 1], enums);
    }
  }

  /** The `j`-th variant line of an enum is the line of its `j`-th key in ascending order. */
  lemma BodyAt(e: Enum, j: nat)
    requires j < |e.variant|
    ensures var ks := Ordering.SortedKeys(e.variant);
      Body(e)[j] == VariantLine(e.variant[ks[j]], ks[j])
  {
    VariantLinesAt(Ordering.SortedKeys(e.variant), e.variant, j);
  }

  /** The layout of a block: the attribute for the kind, the derive line, the header, one line
      per variant in the order of `SortedKeys` (strictly ascending values), and the closing
      brace. */
  lemma BlockLayout(e: Enum)
    ensures Block(e)[..|ReprLines(e.kind)|] == ReprLines(e.kind)
    ensures Block(e)[|ReprLines(e.kind)|] == Derive
    ensures Block(e)[|ReprLines(e.kind)| + 1] == Header(e.name)
    ensures forall j :: 0 <= j < |e.variant| ==> Block(e)[|ReprLines(e.kind)| + 2 + j] == Body(e)[j]
  {
    var repr := ReprLines(e.kind);
    assert Prologue(e) == repr + [Derive, Header(e.name)];
    assert Block(e)[..|Prologue(e)|] == Prologue(e);
  }

  /** The block of an `I32` enum: its `i32` representation, the derive line, its header, its
      variant lines and the closing brace. */
  lemma I32Block(e: Enum)
    requires e.kind == I32
    ensures Block(e) == [ReprI32, Derive, Header(e.name)] + Body(e) + [Close]
  {
    assert Prologue(e) == [ReprI32, Derive, Header(e.name)];
  }

  /** Every variant of the enum is written, with its own value. */
  lemma VariantEmitted(e: Enum, v: int)
    requires v in e.variant
    ensures VariantLine(e.variant[v], v) in Block(e)
  {
    var ks := Ordering.SortedKeys(e.variant);
    assert v in Ordering.Elements(ks);
    var j :| 0 <= j < |ks| && ks[j] == v;
    BodyAt(e, j);
    BlockLayout(e);
    assert Block(e)[|ReprLines(e.kind)| + 2 + j] == VariantLine(e.variant[v], v);
  }

  /** Only the enum's variants are written: each line between header and brace is one of them. */
  lemma OnlyVariantsEmitted(e: Enum, n: nat)
    requires |ReprLines(e.kind)| + 2 <= n < |Block(e)| - 1
    ensures exists v :: v in e.variant && Block(e)[n] == VariantLine(e.variant[v], v)
  {
    BlockLayout(e);
    var ks := Ordering.SortedKeys(e.variant);
    var j := n - |ReprLines(e.kind)| - 2;
    BodyAt(e, j);
    assert ks[j] in Ordering.Elements(ks);
    assert Block(e)[n] == VariantLine(e.variant[ks[j]], ks[j]);
  }

  /** An enum without variants still gets a block, with an empty body. */
  lemma EmptyEnumBlock(e: Enum)
    requires e.variant == map[]
    ensures Block(e) == ReprLines(e.kind) + [Derive, Header(e.name), Close]
  {
    assert Body(e) == [];
  }

  lemma {:induction false} OutputAppend(a: seq<string>, b: seq<string>, enums: map<string, Enum>)
    requires Registered(a, enums) && Registered(b, enums)
    ensures Registered(a + b, enums)
    ensures Output(a + b, enums) == Output(a, enums) + Output(b, enums)
    decreases |b|
  {
    if b != [] {
      var c := b[..|b| - 1];
      assert (a + b)[..|a + b| - 1] == a + c;
      OutputAppend(a, c, enums);
    } else {
      assert a + b == a;
    }
  }

  /** The block of the `i`-th prefix sits in the output right after the blocks of the
      prefixes before it. */
  lemma BlockInOutput(prefixes: seq<string>, enums: map<string, Enum>, i: nat)
    requires Registered(prefixes, enums) && i < |prefixes|
    ensures var start := |Output(prefixes[..i], enums)|;
      var b := Block(enums[prefixes[i]]);
      start + |b| <= |Output(prefixes, enums)|
      && Output(prefixes, enums)[start..start + |b|] == b
  {
    var before, after := prefixes[..i + 1], prefixes[i + 1..];
    assert prefixes == before + after;
    OutputAppend(before, after, enums);
    assert before[..i] == prefixes[..i];
  }

  /** A block of an `I32` enum opens with `#[repr(i32)]`, one of a `U32` enum with
      `#[repr(u32)]`, and any other block with the derive line. */
  lemma BlockOpening(e: Enum)
    ensures e.kind == I32 ==> Block(e)[0] == ReprI32
    ensures e.kind == U32 ==> Block(e)[0] == ReprU32
    ensures e.kind != I32 && e.kind != U32 ==> Block(e)[0] == Derive
  {
    assert Block(e)[0] == Prologue(e)[0];
  }

  /** Whatever macros the parse reports, an enum registered as `I32` is still `I32` at
      emission time, so its block opens with `#[repr(i32)]`. */
  lemma ClassifiedBlockReprI32(prefixes: seq<string>, enums: map<string, Enum>, macros: seq<(string, Value)>, p: string)
    requires Registered(prefixes, enums) && p in enums && enums[p].kind == I32
    ensures var r := Classify(prefixes, enums, macros);
      p in r && Block(r[p])[0] == ReprI32
  {
    var r := Classify(prefixes, enums, macros);
    ClassifyKeepsKinds(prefixes, enums, macros);
    BlockOpening(r[p]);
  }

  /** Every macro that a registered prefix takes during the parse is written, by its value,
      in the block of that prefix's enum. Which name the line carries is the last one stored
      for the value. */
  lemma MatchedMacroEmitted(prefixes: seq<string>, enums: map<string, Enum>, macros: seq<(string, Value)>, k: nat, i: nat)
    requires Registered(prefixes, enums) && k < |macros|
    requires FirstMatch(prefixes, macros[k].0) == Wrappers.Some(i)
    ensures var r := Classify(prefixes, enums, macros);
      var p, v := prefixes[i], macros[k].1;
      p in r && v in r[p].variant && VariantLine(r[p].variant[v], v) in Block(r[p])
  {
    var r := Classify(prefixes, enums, macros);
    MatchedValueKept(prefixes, enums, macros, k, i);
    VariantEmitted(r[prefixes[i]], macros[k].1);
  }

  /** With every enum of kind `I32`, as in the seeded registry, the block of each prefix
      sits in the output after the blocks before it and opens with `#[repr(i32)]`. */
  lemma AllBlocksReprI32(prefixes: seq<string>, enums: map<string, Enum>, i: nat)
    requires Registered(prefixes, enums) && i < |prefixes|
    requires forall p :: p in enums ==> enums[p].kind == I32
    ensures var start := |Output(prefixes[..i], enums)|;
      var b := Block(enums[prefixes[i]]);
      && start + |b| <= |Output(prefixes, enums)|
      && Output(prefixes, enums)[start..start + |b|] == b
      && b[0] == ReprI32
  {
    BlockInOutput(prefixes, enums, i);
    BlockOpening(enums[prefixes[i]]);
  }
}
