# Enum synthesis of the inkview build script

The build script of the Rust bindings to the PocketBook `inkview` SDK (`build.rs`) runs
bindgen over the SDK header. While bindgen parses the header, the script collects the
integer macros of six families into virtual enums. It then appends a Rust `enum`
declaration for each family to the generated bindings. This project models that part of
the script:

- **The registry.** A `BTreeMap<String, Enum>` maps a macro-name prefix to an enum with a
  display name, an integer kind and a `BTreeMap<i64, String>` of variants. Before parsing,
  the script seeds it with `EVT_`→`Event`, `IV_KEY_`→`Key`, `REQ_`→`Request`,
  `ICON_`→`Icon`, `DEF_`→`Button` and `DITHER_`→`Dither`, all of kind `I32`.
- **The `int_macro` hook.** It walks the prefixes in ascending order. The first prefix that
  starts the macro name takes the macro: the remainder of the name becomes the variant name,
  with the upper-cased enum name in front when the remainder starts with a digit. The hook
  then answers that enum's kind. A macro that no prefix matches gets `I32` when its value
  fits in an `i32`, and no preference otherwise.
- **The rename hooks.** `enum_variant_name` strips the first six characters of the variants
  of `PANEL_FLAGS`. `item_name` publishes `PANEL_FLAGS` as `PanelType`.
- **The emission loop.** For each enum, in prefix order, it writes:
  - a `#[repr(i32)]` or `#[repr(u32)]` line for kinds `I32` and `U32`;
  - the derive line;
  - `pub enum Name {`;
  - one `    NAME = value,` line per variant, in ascending value order;
  - `}`.

Modules:

- `Wrappers`: `Option`.
- `Text`: prefixes, digits, ASCII upper-casing, the byte-wise string order of `String`, and
  decimal formatting of integers with its parse round trip.
- `Ordering`: strictly sorted sequences, and `SortedKeys`, the ascending key order of a
  `BTreeMap<i64, _>`.
- `Enums`: the datatypes `IntKind` and `Enum`, the hook as a function of the registry
  (`IntMacro`), and the hook over all the macros of a parse (`Classify`).
- `Hooks`: the two rename hooks.
- `Emission`: the lines written, as functions.
- `Registry`: the registry as a class holding the ordered keys and the map. Its methods are
  the seeding, the hook loop and the emission loops, each proved equal to its function.
- `Scenarios`: concrete runs of the hook and the emission on the seeded registry.

Every registered enum is written, also one with no variants: `build.rs:311-327` has no
check, so its block is `pub enum Name {` followed directly by `}` (`Emission.EmptyEnumBlock`).

## Model

| member | source | states |
|---|---|---|
| Enums.NewEnum | build.rs:19-27 | a new enum has the given name and kind and an empty variant map |
| Enums.VariantName | build.rs:47-52 | the variant name ends with the remainder of the macro name after the prefix |
| Enums.VariantNameCases | build.rs:47-52 | the variant name is the remainder unchanged, or the upper-cased enum name followed by a remainder that starts with a digit; it is unchanged exactly when the remainder is empty or starts with a non-digit (or the enum name is empty) |
| Enums.VariantNameNotDigitLeading | build.rs:47-52 | with an enum name that does not start with a digit, no stored variant name starts with a digit |
| Enums.FallbackKind | build.rs:57-62 | an unmatched macro gets `Some(I32)` exactly when its value lies in the `i32` range, and `None` exactly when it does not |
| Enums.FirstMatch | build.rs:45-46 | the result is the index of a prefix that starts the name, with no earlier prefix starting it; `None` exactly when no prefix starts the name |
| Enums.FirstMatchAt | build.rs:45-46 | when prefix `i` starts the name and none before it does, the first match is `i` |
| Enums.OnlyMatch | build.rs:45-46 | with prefix-free keys, any prefix that starts the name is the first match |
| Enums.IntMacro | build.rs:42-63 | the hook never adds or removes a registry key |
| Enums.IntMacroMatched | build.rs:45-55 | on a match the enum gets the value mapped to the fixed-up variant name, keeps its name, kind and other variants, every other enum is unchanged, and the hook answers the enum's kind |
| Enums.IntMacroUnmatched | build.rs:45-62 | with no matching prefix the registry is unchanged and the answer is the `i32`-range fallback |
| Enums.LastWriterWins | build.rs:53 | a second macro with the same value in the same enum replaces the first one's name |
| Enums.IntMacroKeepsKinds | build.rs:45-55 | the hook never changes the kind of any enum; only variant maps change |
| Enums.Classify | build.rs:290-297 | the hook applied to every macro the parse reports, in order, keeps the registry's keys |
| Enums.ClassifyKeepsKinds | build.rs:42-63 | however many macros the parse reports, every enum keeps the kind it was registered with |
| Enums.IntMacroKeepsValues | build.rs:53 | the hook never drops a stored value; variant maps only grow |
| Enums.ClassifyKeepsValues | build.rs:42-63 | however many macros the parse reports, a value once stored in an enum stays stored |
| Enums.MatchedValueKept | build.rs:45-55 | the value of every macro a registered prefix takes is in that prefix's enum at the end of the parse |
| Enums.SeedEnums | build.rs:80-89 | the seeded registry has exactly the six prefixes, each with kind `I32` and no variants |
| Enums.SeedSorted | build.rs:80-89 | the seeded prefixes are in ascending string order |
| Enums.SeedPrefixFree | build.rs:80-89 | no seeded prefix starts another one, so at most one prefix matches any macro |
| Hooks.EnumVariantName | build.rs:65-70 | a new name is returned exactly for `PANEL_FLAGS`; it is the original with its first six characters removed |
| Hooks.ItemName | build.rs:72-77 | a new name is returned exactly for `PANEL_FLAGS`, and it is `PanelType` |
| Hooks.RenamedEnumNotStrippedAgain | build.rs:65-77 | `PANEL_FLAGS` is published as `PanelType`, and the variant hook strips nothing for an enum called `PanelType` |
| Text.IsPrefixSplit | build.rs:46-47 | a prefix test holds exactly when the name is the prefix followed by the rest that the hook slices off |
| Text.DigitsExactly | build.rs:49 | the digit test accepts exactly the ten characters `0` to `9` |
| Text.Upper | build.rs:50 | upper-casing keeps the length and upper-cases each character |
| Text.IntToString | build.rs:324 | the `{}` text of a value is non-empty and starts with `-` exactly when the value is negative |
| Text.ParseIntToString | build.rs:324 | the decimal text of a value parses back to that value |
| Text.IntToStringInjective | build.rs:324 | distinct values are written as distinct decimal texts |
| Text.Less | build.rs:45 | the `String` key order of the registry's map is strict: a key never comes before itself |
| Text.LessTransitive | build.rs:45 | the key order of the registry's map is transitive |
| Text.LessTotal | build.rs:45 | any two distinct keys are ordered one way or the other |
| Ordering.SortedUnique | build.rs:45 | a set of keys has only one strictly sorted listing, so the map's walk order is determined by its keys |
| Ordering.SortedKeys | build.rs:323 | the variant keys are listed in strictly ascending order, each key of the map exactly once |
| Ordering.InsertKeepsSorted | build.rs:83-88 | inserting a new key at its place keeps the keys sorted |
| Emission.ReprLinesCases | build.rs:312-320 | the representation line is `#[repr(i32)]` exactly for `I32`, `#[repr(u32)]` exactly for `U32`, and absent for every other kind |
| Emission.ReprLines | build.rs:312-320 | an enum gets at most one representation line |
| Emission.Block | build.rs:312-326 | a block has the representation line (if any), the derive line, the header, one line per variant and the brace, and it ends with the brace |
| Emission.VariantLineValue | build.rs:324 | a variant line is four spaces and the name, then ` = `, then the value's decimal text, which reads back to the value, then a comma |
| Emission.MatchedMacroEmitted | build.rs:323-325 | every macro a registered prefix takes during the parse is written, by its value, in that prefix's enum block |
| Emission.BlockLayout | build.rs:312-326 | a block is the representation line, the derive line, the header, the variant lines in ascending value order and the closing brace |
| Emission.VariantEmitted | build.rs:323-325 | every variant of an enum is written as a line with its name and value |
| Emission.OnlyVariantsEmitted | build.rs:323-325 | every line between the header and the brace is the line of one of the enum's variants |
| Emission.EmptyEnumBlock | build.rs:311-327 | an enum with no variants still gets a declaration, with nothing between its header and brace |
| Emission.BlockInOutput | build.rs:311-327 | the block of the `i`-th prefix sits in the output right after the blocks of the prefixes before it |
| Emission.OutputShape | build.rs:311-327 | each registered enum adds at least three lines, and a non-empty output ends with a closing brace |
| Emission.BlockOpening | build.rs:312-321 | a block opens with the `i32` or `u32` representation line, or with the derive line for any other kind |
| Emission.AllBlocksReprI32 | build.rs:80-89 | when every enum is `I32`, as after seeding, every block is in place in the output and opens with `#[repr(i32)]` |
| Emission.ClassifiedBlockReprI32 | build.rs:311-314 | an enum registered as `I32` still opens its block with `#[repr(i32)]` after any sequence of hook calls |
| Registry.EnumRegistry.constructor | build.rs:30 | a new registry is empty and its keys are sorted |
| Registry.EnumRegistry.Insert | build.rs:83-88 | inserting maps the key to the enum, adds exactly that key and keeps the keys sorted |
| Registry.EnumRegistry.Seeded | build.rs:80-89 | the six inserts in source order leave the keys in ascending order with the seeded enums |
| Registry.EnumRegistry.IntMacro | build.rs:42-63 | the hook loop leaves the keys in place and yields the registry and answer of `Enums.IntMacro` on the old state |
| Registry.EnumRegistry.Emit | build.rs:308-328 | the emission loop writes exactly `Emission.Output` of the registry |
| Registry.EmitBlock | build.rs:312-326 | the loop body writes exactly the block of the enum |
| Registry.EmitVariants | build.rs:323-325 | the inner loop writes one variant line per key, in the order of the keys |
| Scenarios.SeedMatch | build.rs:45-46 | a macro starting with a seeded prefix is matched by that prefix |
| Scenarios.EventVariants | build.rs:42-55 | `EVT_SHOW = 1`, `EVT_HIDE = 2` and `EVT_KEYDOWN = 3` each get `I32` and leave `Event` with variants `1 → SHOW`, `2 → HIDE`, `3 → KEYDOWN` |
| Scenarios.EventLines | build.rs:324 | the three event variants are written `    SHOW = 1,`, `    HIDE = 2,` and `    KEYDOWN = 3,` |
| Scenarios.EventBody | build.rs:323-325 | the event variants are written in ascending value order |
| Scenarios.EventBlock | build.rs:312-326 | the `Event` block is `#[repr(i32)]`, the derive line, the header `pub enum Event {`, the three variant lines and `}` |
| Scenarios.IconScenario | build.rs:47-54 | `ICON_7DAYS = 7` gets `I32` and is stored as `7 → ICON7DAYS` |
| Scenarios.SeededBlocksReprI32 | build.rs:80-89 | after any parse, each of the six seeded blocks opens with `#[repr(i32)]` |
| Scenarios.UnmatchedScenario | build.rs:57-62 | `MAXMSGSIZE = 4096` changes no enum and gets `I32`; a value of 2^32 gets no preference |

## Left out

- The bindgen configuration, the header and the generation of the bindings (`build.rs:91-297`) are left out. They are a foreign library's work; the model starts from the calls bindgen makes into the hooks.
- The cargo link directive (`build.rs:36`) and the opening and writing of `bindings.rs` (`build.rs:299-307`) are I/O and are left out. Each emitted line is a string without its trailing newline, and write errors are not modelled.
- `lazy_static`, `Arc` and `Mutex` around the registry (`build.rs:29-31`, `43-44`, `81-82`, `309-310`) are left out. The model has one registry object, and lock poisoning and concurrency are not modelled.
- Hooks.EnumVariantName: the model requires a variant name of at least six characters for `PANEL_FLAGS`. The build script panics on a shorter name, and also on a slice that falls inside a multi-byte UTF-8 character. Neither panic is modelled.
- Text.Upper: upper-casing covers ASCII letters only. Rust's `to_uppercase` also maps non-ASCII letters, and may change their length. The seeded enum names are ASCII.
- Text.IsDigit: only the ASCII digits `0`-`9` count. This matches `is_digit(10)`.
- Strings are sequences of characters. The byte/character distinction of Rust's `String` is not modelled.
- Enums.IntMacro: variant naming is not injective. For example `ICON_7` and `ICON_ICON7` would both produce `ICON7`. The model states what the code does and proves no uniqueness of emitted names.
- Which macros bindgen reports, and in which order, is decided by bindgen's parse of the header; `Enums.Classify` takes that sequence as a parameter.
- Bindgen's `EnumVariantValue` argument of `enum_variant_name` is unused by the hook and is not modelled.
