# Arius NumberFormatter: spellout extender resolution and dispatch

`Arius\NumberFormatter` extends PHP's intl `NumberFormatter`. In spellout mode
(the style that writes numbers as words), setting the `DEFAULT_RULESET` or
`PUBLIC_RULESETS` text attribute to a value such as
`%spellout-cardinal-feminine` makes the formatter look for a custom
"spellout extender" class. The class name comes from the locale and the value:
`\Arius\Lang\` + ucfirst(locale) + `\` + the `ucfirst`-ed words of the value
with its first character dropped. If that class exists and can be
instantiated, an instance of it is held until the next `setTextAttribute` call,
of any attribute, replaces or clears it; while held, it renders `format()` if it implements
`SpelloutInterface`. The attribute value is recorded and echoed back by
`getTextAttribute()` from then on. Otherwise the attribute goes to the parent
intl formatter, which also formats whenever no rendering extender is held.

The model has five modules:

- `PhpStrings` (`php_strings.dfy`): the PHP builtins used by the naming rule:
  `ucfirst` (ASCII rule), `substr($s, 1)`, `explode`, and `implode` as
  explode's inverse.
- `SpelloutNaming` (`spellout_naming.dfy`): `getSpelloutNamespace` as the
  function `SpelloutNamespace`. `Camelize` is an independent
  character-by-character reading of the same rule, and the module proves the
  two agree.
- `FormatterSpec` (`formatter_spec.dfy`): the object's fields as a value
  (`Snapshot`), and every operation as a function from the fields before a call
  to its result and the fields after it. The lemmas state the dispatch rules,
  the set/get round trip, the format dispatch, and properties of any sequence of
  calls (`Replay`).
- `AriusNumberFormatter` (`number_formatter.dfy`): the class itself.
  `isSpellout` is a `const` fixed by the constructor. `attributes`,
  `spelloutExtender` and the parent state `base` are fields the methods update
  in place. Each method is proved to do what the matching `FormatterSpec`
  function says. `getTextAttribute` and `format` are functions that read the
  object, so they change no field. `GetSpelloutNamespace` keeps the source's
  loop, which appends one word at a time.
- `Wrappers` (`wrappers.dfy`): `Option`, used for PHP's nullable references.

The collaborators that are not part of this code are parameters:

- The parent intl formatter is an `Engine`: its constructor, `getLocale`,
  `setTextAttribute`, `getTextAttribute` and `format`, given as functions of an
  opaque parent state.
- `class_exists`, `ReflectionClass::isInstantiable` and
  `instanceof SpelloutInterface` are a `Registry`, a map from class name to
  `ClassInfo(instantiable, spellout)`. A registry is passed to each
  `setTextAttribute` call.
- An extender's own `format` is `render(className, value)`.
- Numbers (`V`) are opaque.

The intl constants are fixed at their ICU/PHP values: `SPELLOUT` = 5,
`DEFAULT_RULESET` = 6, `PUBLIC_RULESETS` = 7, `TYPE_DEFAULT` = 0.

Three behaviours of the code are worth knowing:

- The words are appended with no separator, not nested one namespace level
  per word. `%spellout-cardinal-feminine` gives
  `\Arius\Lang\Pl\SpelloutCardinalFeminine` (`PolishCardinalFeminine`), and
  `%spellout-cardinal` and `%spelloutCardinal` name the same class
  (`WordsAreNotNamespaceLevels`).
- Overrides are never removed, so a stale value outlives its extender and is
  still returned after a later fallback (`StaleOverrideSurvivesFallback`,
  `OverridesPersist`).
- `format` also requires `instanceof SpelloutInterface`. A class that can be
  instantiated but does not implement the interface still takes the attribute
  (`setTextAttribute` returns true), yet `format` falls back to the parent
  (`SetThenFormat`). Called on its own, the public `isExtendedSpelloutAvailable`
  installs an extender without recording an override, so `format` and
  `getTextAttribute` then disagree (`CheckAloneSplitsFormatAndGet`).

## Model

| member | source | states |
|---|---|---|
| `PhpStrings.UpperAscii` | src/NumberFormatter.php:85 | `ucfirst`'s character rule: `a`..`z` become the matching upper-case letter 32 code points lower; every other character is unchanged |
| `PhpStrings.Ucfirst` | src/NumberFormatter.php:85 | `ucfirst` keeps the length, upper-cases only the first character, and leaves the rest and the empty string unchanged |
| `PhpStrings.DropFirst` | src/NumberFormatter.php:84 | `substr($value, 1)` drops exactly one character, whatever it is, and gives "" for "" |
| `PhpStrings.Explode` | src/NumberFormatter.php:87 | `explode('-', …)` gives at least one piece, and no piece contains the separator |
| `PhpStrings.ImplodeExplode` | src/NumberFormatter.php:87 | splitting loses nothing: joining the pieces with the separator gives back the input |
| `PhpStrings.ExplodeImplode` | src/NumberFormatter.php:87 | pieces without the separator, joined and then split, come back unchanged |
| `SpelloutNaming.LocaleNamespace` | src/NumberFormatter.php:85 | the name is `\Arius\Lang\`, then exactly ucfirst(locale), then a final `\` |
| `SpelloutNaming.UcfirstEach` | src/NumberFormatter.php:87-88 | every word is `ucfirst`-ed in place; order and count are kept |
| `SpelloutNaming.SpelloutNamespace` | src/NumberFormatter.php:82-92 | the derived name always begins with the locale's namespace |
| `SpelloutNaming.Camelize` | src/NumberFormatter.php:84-89 | reference rule: the result has no `-` and is shorter than its input by exactly the number of `-` |
| `SpelloutNaming.CamelizeExplode` | src/NumberFormatter.php:87-89 | splitting on `-` and `ucfirst`-ing each word equals the character-wise rule |
| `SpelloutNaming.NamespaceByCharacters` | src/NumberFormatter.php:82-92 | the derived name is the locale namespace followed by the character-wise rule applied to the value without its first character |
| `SpelloutNaming.CamelizeKeepsCharacters` | src/NumberFormatter.php:87-89 | the character-wise rule keeps every non-`-` character in order, changing a character only by `ucfirst`'s upper-casing |
| `SpelloutNaming.NamespaceDropsSeparators` | src/NumberFormatter.php:84-89 | after the locale namespace no `-` remains, the length drops by exactly the number of `-`, and the rest is `value[1..]` without its `-`, at most upper-cased character by character |
| `SpelloutNaming.NamespaceIgnoresMarker` | src/NumberFormatter.php:84 | only the position of the first character matters: any two values that differ only there give the same name |
| `SpelloutNaming.NamespaceOfWords` | src/NumberFormatter.php:82-92 | for a marker followed by `-`-joined words, the name is the locale namespace plus the `ucfirst`-ed words, appended in order |
| `SpelloutNaming.PolishCardinalFeminine` | src/NumberFormatter.php:82-92 | locale `pl` and `%spellout-cardinal-feminine` give `\Arius\Lang\Pl\SpelloutCardinalFeminine` |
| `SpelloutNaming.WordsAreNotNamespaceLevels` | src/NumberFormatter.php:87-89 | words are appended, not nested: `a-b` and `a` + ucfirst(`b`) name the same class |
| `FormatterSpec.Construct` | src/NumberFormatter.php:34-41 | spellout mode holds iff the style is strictly `SPELLOUT`; the parent is built from the same arguments; no overrides, no extender, and the invariant holds |
| `FormatterSpec.IsSpelloutRuleset` | src/NumberFormatter.php:76-80 | true exactly for `DEFAULT_RULESET` and `PUBLIC_RULESETS`, and never outside spellout mode |
| `FormatterSpec.InitializeExtender` | src/NumberFormatter.php:94-104 | answers true iff the class is instantiable, and then holds exactly an instance of that class; changes nothing when it cannot be instantiated; never touches overrides, parent or mode |
| `FormatterSpec.CheckExtended` | src/NumberFormatter.php:64-74 | the availability check keeps the invariant, never touches overrides, the parent or the mode, and changes nothing when it answers false |
| `FormatterSpec.SetTextAttribute` | src/NumberFormatter.php:46-55 | keeps the invariant and the mode; overrides only grow, and no override of another attribute changes |
| `FormatterSpec.GetTextAttribute` | src/NumberFormatter.php:109-112 | an override is echoed; the parent is asked only for an attribute without one |
| `FormatterSpec.Format` | src/NumberFormatter.php:117-124 | in spellout mode an extender implementing the interface renders the value; with no extender, outside spellout mode, or with an extender lacking the interface, the parent formats with the type hint |
| `FormatterSpec.ExtenderIgnoresTypeHint` | src/NumberFormatter.php:130-133 | `extendedFormat` passes only the value to the extender: while it renders, `format` gives the same text for every type hint |
| `FormatterSpec.NoLookupOutsideRulesets` | src/NumberFormatter.php:76-80 | outside spellout mode, or for any other attribute, the check answers false and the fields are unchanged |
| `FormatterSpec.CheckExtendedAnswers` | src/NumberFormatter.php:64-74 | answers true iff the attribute is a ruleset in spellout mode and the derived class exists and is instantiable; an instance of that class is then held |
| `FormatterSpec.SetTextAttributeCustom` | src/NumberFormatter.php:48-51 | when an extender takes the value, it is installed and the value is recorded; the result is true and the parent state is untouched |
| `FormatterSpec.SetTextAttributeFallback` | src/NumberFormatter.php:53-54 | otherwise the extender is cleared, overrides are unchanged, and the result and new parent state are exactly the parent setter's |
| `FormatterSpec.SetThenGet` | src/NumberFormatter.php:109-112 | set-then-get returns the value when an extender took it; otherwise a stale override if there is one, else the parent's value |
| `FormatterSpec.SetThenFormat` | src/NumberFormatter.php:117-133 | after a set, the new extender renders for every type hint if it took the value and implements the interface; otherwise the parent formats, never a stale extender |
| `FormatterSpec.StaleOverrideSurvivesFallback` | src/NumberFormatter.php:49-54 | a custom set followed by a fallback set of the same attribute clears the extender, yet the getter still returns the first value |
| `FormatterSpec.CheckAloneSplitsFormatAndGet` | src/NumberFormatter.php:64-74 | a direct call of the public check installs the extender without an override: `format` goes to the extender while the getter still asks the parent |
| `FormatterSpec.PolishFeminineScenario` | src/NumberFormatter.php:46-55 | with `\Arius\Lang\Pl\SpelloutCardinalFeminine` registered, setting the default ruleset returns true, echoes the value, and routes `format` to that class |
| `FormatterSpec.Apply` | src/NumberFormatter.php:46-74 | one call of either public mutator keeps the mode and the invariant and only adds overrides; the check alone changes neither overrides nor parent |
| `FormatterSpec.Replay` | src/NumberFormatter.php:46-74 | over any sequence of `setTextAttribute` and `isExtendedSpelloutAvailable` calls: the mode never changes, the invariant is kept, and overrides only grow |
| `FormatterSpec.PlainFormatterOnlyDelegates` | src/NumberFormatter.php:76-80 | a non-spellout formatter never holds an extender or an override over any sequence of calls to either public mutator, and always formats through the parent |
| `FormatterSpec.OverridesPersist` | src/NumberFormatter.php:109-112 | once an attribute has an override, no later sequence of calls makes the getter ask the parent |
| `AriusNumberFormatter.NumberFormatter.constructor` | src/NumberFormatter.php:34-41 | the new object's fields are those of `Construct`, and the invariant holds |
| `AriusNumberFormatter.NumberFormatter.SetTextAttribute` | src/NumberFormatter.php:46-55 | result and new fields are those of `FormatterSpec.SetTextAttribute` on the old fields; the invariant is kept |
| `AriusNumberFormatter.NumberFormatter.IsExtendedSpelloutAvailable` | src/NumberFormatter.php:64-74 | modifies only the extender field; answer and new fields are those of `CheckExtended` |
| `AriusNumberFormatter.NumberFormatter.GetSpelloutNamespace` | src/NumberFormatter.php:82-92 | the name built word by word in the loop equals `SpelloutNamespace(getLocale(), value)` |
| `AriusNumberFormatter.NumberFormatter.InitializeSpelloutExtender` | src/NumberFormatter.php:94-104 | for an existing class, answer and new extender are those of `InitializeExtender` |
| `AriusNumberFormatter.NumberFormatter.IsSpelloutRuleset` | src/NumberFormatter.php:76-80 | true exactly in spellout mode for `DEFAULT_RULESET` or `PUBLIC_RULESETS` |
| `AriusNumberFormatter.NumberFormatter.GetTextAttribute` | src/NumberFormatter.php:109-112 | reads the object only: the override field when it has the attribute, else the parent's value |
| `AriusNumberFormatter.NumberFormatter.Format` | src/NumberFormatter.php:117-124 | reads the object only: the held extender's rendering in spellout mode when it implements the interface, else the parent's output for the value and type hint (default `TYPE_DEFAULT`) |
| `AriusNumberFormatter.PolishClient` | src/NumberFormatter.php:117-124 | on a real object: the extender renders after the feminine cardinal ruleset is set, and the parent formats again after an unresolvable ruleset |

## Left out

- The parent intl `NumberFormatter` (ICU) is an uninterpreted `Engine`. Its
  formatting, attribute storage, locale canonicalisation and construction
  failures (exceptions) are not modelled. Its failures reach the caller through
  its own results (`False`, `false`) unchanged.
- `class_exists` autoloading and reflection are a given `Registry` map,
  not a type lookup. The map is read as `class_exists`'s answer for each
  exact string: PHP ignores a leading `\` and matches class names without
  regard to case, so `\Arius\Lang\PL\…` and `\Arius\Lang\Pl\…` find the same
  loaded class; the model does not relate such spellings. A
  `ReflectionClass` for a missing class is never built, because
  `InitializeSpelloutExtender` requires an existing name, as its only caller
  guarantees.
- `SpelloutInterface` implementations are not part of this model. An
  extender's output is an abstract `render(className, value)`. The extender
  constructor receiving the formatter (`new $namespace($this)`), any callback
  it makes into the formatter, and any exception it throws are not modelled.
- Numeric values and the `$type` hint are opaque and passed through.
  There is no float or integer semantics.
- `ucfirst` follows only PHP 8.2's ASCII rule on one byte. Locale-dependent
  behaviour of earlier PHP versions is not modelled.
- A Dafny `char` stands for one byte of a PHP string. Values and locales with
  non-ASCII (multibyte) characters are not modelled: for them `substr($value, 1)`
  drops one byte, not one character.
- SpelloutNaming.NamespaceIgnoresMarker: holds for a one-byte first character
  only; a multibyte first character leaves its trailing bytes in the name.
- PHP's loose typing is not modelled: attribute codes and styles are `int`,
  and values are strings. With these types, the source's strict comparisons
  (`===`) are plain equality.
