/** The registry object of the build script: the `BTreeMap<String, Enum>` from prefix to
    virtual enum, seeded before parsing, updated by the `int_macro` hook and written out after
    the bindings. A `BTreeMap` is kept here as the ascending sequence of its keys together
    with the map from key to enum. */
module Registry {
  import opened Wrappers
  import Text
  import Ordering
  import opened Enums
  import Emission

  class EnumRegistry {
    /** The keys of the map, in the ascending order the map is walked in. */
    var prefixes: seq<string>
    var enums: map<string, Enum>

    predicate Valid()
      reads this
    {
      Ordering.StringsSorted(prefixes) && Ordering.Elements(prefixes) == enums.Keys
    }

    /** `BTreeMap::new`. */
    constructor ()
      ensures Valid() && prefixes == [] && enums == map[]
    {
      prefixes, enums := [], map[];
    }

    /** `BTreeMap::insert`: a new key takes its place in the order; an existing key keeps
        its place and gets the new enum. */
    method Insert(prefix: string, e: Enum)
      requires Valid()
      modifies this
      ensures Valid()
      ensures enums == old(enums)[prefix := e]
      ensures Ordering.Elements(prefixes) == Ordering.Elements(old(prefixes)) + {prefix}
    {
      var i := 0;
      while i < |prefixes| && Text.Less(prefixes[i], prefix)
        invariant 0 <= i <= |prefixes|
        invariant forall j :: 0 <= j < i ==> Text.Less(prefixes[j], prefix)
      {
        i := i + 1;
      }
      if i == |prefixes| || prefixes[i] != prefix {
        Ordering.InsertKeepsSorted(prefixes, i, prefix);
        Ordering.InsertElements(prefixes, i, prefix);
        prefixes := prefixes[..i] + [prefix] + prefixes[i..];
      }
      enums := enums[prefix := e];
    }

    /** The registry as the build script seeds it: six enums, all of kind `I32`, none with a
        variant yet, keyed in ascending order. */
    constructor Seeded()
      ensures Valid()
      ensures prefixes == SeedPrefixes && enums == SeedEnums()
    {
      prefixes, enums := [], map[];
      new;
      Insert("EVT_", NewEnum("Event", I32));
      Insert("IV_KEY_", NewEnum("Key", I32));
      Insert("REQ_", NewEnum("Request", I32));
      Insert("ICON_", NewEnum("Icon", I32));
      Insert("DEF_", NewEnum("Button", I32));
      Insert("DITHER_", NewEnum("Dither", I32));
      assert enums == SeedEnums();
      assert Ordering.Elements(prefixes) == Ordering.Elements(SeedPrefixes);
      SeedSorted();
      Ordering.StringOrderAsymmetric();
      Ordering.SortedUnique(prefixes, SeedPrefixes, Text.Less);
    }

    /** `int_macro(name, value)`: walks the prefixes in ascending order; the first one that
        starts `name` gets the variant and its enum's kind is returned; with no match the
        `i32` range decides. */
    method IntMacro(name: string, value: Value) returns (kind: Option<IntKind>)
      requires Valid()
      modifies this
      ensures Valid() && prefixes == old(prefixes)
      ensures Registered(old(prefixes), old(enums))
      ensures enums == Enums.IntMacro(old(prefixes), old(enums), name, value).enums
      ensures kind == Enums.IntMacro(old(prefixes), old(enums), name, value).kind
    {
      var ps, es := prefixes, enums;
      assert Registered(ps, es) by {
        assert forall j :: 0 <= j < |ps| ==> ps[j] in Ordering.Elements(ps);
      }
      ghost var o := Enums.IntMacro(ps, es, name, value);
      var i := 0;
      while i < |ps|
        invariant 0 <= i <= |ps|
        invariant forall j :: 0 <= j < i ==> !Text.IsPrefix(ps[j], name)
      {
        var prefix := ps[i];
        if |prefix| <= |name| && name[..|prefix|] == prefix {
          FirstMatchAt(ps, name, i);
          IntMacroAt(ps, es, name, value, i);
          var e := es[prefix];
          var variantName := VariantName(name[|prefix|..], e.name);
          enums := es[prefix := e.(variant := e.variant[value := variantName])];
          assert enums == o.enums;
          return Some(e.kind);
        }
        i := i + 1;
      }
      IntMacroUnmatched(ps, es, name, value);
      kind := FallbackKind(value);
    }

    /** The emission loop: the block of each enum, in prefix order. */
    method Emit() returns (lines: seq<string>)
      requires Valid()
      ensures Registered(prefixes, enums)
      ensures lines == Emission.Output(prefixes, enums)
    {
      var ps, es := prefixes, enums;
      assert Registered(ps, es) by {
        assert forall j :: 0 <= j < |ps| ==> ps[j] in Ordering.Elements(ps);
      }
      lines := [];
      var i := 0;
      while i < |ps|
        invariant 0 <= i <= |ps|
        invariant Registered(ps[..i], es)
        invariant lines == Emission.Output(ps[..i], es)
      {
        var block := EmitBlock(es[ps[i]]);
        assert ps[..i + 1][..i] == ps[..i];
        assert ps[..i + 1][i] == ps[i];
        lines := lines + block;
        i := i + 1;
      }
      assert ps[..i] == ps;
    }
  }

  /** The body of the emission loop for one enum: the attribute line for `I32` or `U32`, the
      derive line, the header, one line per variant in ascending value order, the brace. */
  method EmitBlock(e: Enum) returns (lines: seq<string>)
    ensures lines == Emission.Block(e)
  {
    lines := [];
    match e.kind {
      case I32 => lines := lines + [Emission.ReprI32];
      case U32 => lines := lines + [Emission.ReprU32];
      case _ =>
    }
    assert lines == Emission.ReprLines(e.kind);
    lines := lines + [Emission.Derive, Emission.Header(e.name)];
    assert lines == Emission.Prologue(e);
    var keys := Ordering.SortedKeys(e.variant);
    assert forall k :: 0 <= k < |keys| ==> keys[k] in e.variant by {
      assert forall k :: 0 <= k < |keys| ==> keys[k] in Ordering.Elements(keys);
    }
    var variantLines := EmitVariants(keys, e.variant);
    assert variantLines == Emission.Body(e);
    lines := lines + variantLines + [Emission.Close];
  }

  /** The inner emission loop: a line per key of the variant map, in the order given. */
  method EmitVariants(keys: seq<int>, variant: map<int, string>) returns (lines: seq<string>)
    requires forall k :: 0 <= k < |keys| ==> keys[k] in variant
    ensures lines == Emission.VariantLines(keys, variant)
  {
    lines := [];
    var j := 0;
    while j < |keys|
      invariant 0 <= j <= |keys|
      invariant lines == Emission.VariantLines(keys[..j], variant)
    {
      assert keys[..j + 1][..j] == keys[..j];
      lines := lines + [Emission.VariantLine(variant[keys[j]], keys[j])];
      j := j + 1;
    }
    assert keys[..j] == keys;
  }
}
