/** The behaviour of `Arius\NumberFormatter`, stated on values: the fields of
    one formatter are a `Snapshot`, and every operation is a function from
    the fields before the call to its result and the fields after it.
    The class in module `AriusNumberFormatter` is proved to follow these
    functions; the lemmas here state what the dispatch promises.

    Two collaborators are parameters rather than code:
    - the parent intl formatter is an `Engine`: its constructor, `getLocale`,
      `setTextAttribute`, `getTextAttribute` and `format` as functions of an
      opaque parent state `E` (numbers are an opaque `V`);
    - the class loader and reflection are a `Registry` from class name to
      what `class_exists`, `isInstantiable` and `instanceof SpelloutInterface`
      answer for it. An extender's own `format` is `render(className, value)`. */
module FormatterSpec {
  import opened Wrappers
  import SpelloutNaming

  /** The intl constants the class compares against (ICU's UNUM_SPELLOUT,
      UNUM_DEFAULT_RULESET, UNUM_PUBLIC_RULESETS and PHP's TYPE_DEFAULT). */
  const SPELLOUT: int := 5
  const DEFAULT_RULESET: int := 6
  const PUBLIC_RULESETS: int := 7
  const TYPE_DEFAULT: int := 0

  /** PHP's `string|false`. */
  datatype Text = Str(s: string) | False

  /** What the runtime knows about one existing class. */
  datatype ClassInfo = ClassInfo(instantiable: bool, spellout: bool)

  /** Existing classes by fully qualified name: `class_exists($n)` is `n in registry`. */
  type Registry = map<string, ClassInfo>

  /** An extender object: an instance of the class `className`; `spellout`
      says whether it implements `SpelloutInterface`. */
  datatype Extender = Extender(className: string, spellout: bool)

  /** The parent intl `NumberFormatter`, seen only through its operations. */
  datatype Engine<!E, !V> = Engine(
    construct: (string, int, Option<string>) -> E,
    getLocale: E -> string,
    setTextAttribute: (E, int, string) -> (E, bool),
    getTextAttribute: (E, int) -> Text,
    format: (E, V, int) -> Text)

  /** The fields of one formatter, and the state of its parent part. */
  datatype Snapshot<E> = Snapshot(
    isSpellout: bool,
    attributes: map<int, string>,
    extender: Option<Extender>,
    base: E)

  /** The object invariant: an extender is only ever held in spellout mode. */
  predicate Consistent<E>(s: Snapshot<E>)
  {
    s.extender.Some? ==> s.isSpellout
  }

  /** The boolean a call returns, and the fields after it. */
  datatype Step<E> = Step(result: bool, after: Snapshot<E>)

  /** `__construct`: the parent is built from the arguments; spellout mode is
      decided here, once, by a strict comparison of the style. */
  function Construct<E, V>(engine: Engine<E, V>, locale: string, style: int, pattern: Option<string>): (s: Snapshot<E>)
    ensures Consistent(s)
    ensures s.isSpellout <==> style == SPELLOUT
    ensures s.attributes == map[] && s.extender == None
    ensures s.base == engine.construct(locale, style, pattern)
  {
    Snapshot(style == SPELLOUT, map[], None, engine.construct(locale, style, pattern))
  }

  /** `isSpelloutRuleset`: only the two ruleset attributes, and only in spellout mode. */
  function IsSpelloutRuleset(isSpellout: bool, attr: int): (b: bool)
    ensures b ==> isSpellout
    ensures b <==> isSpellout && attr in {DEFAULT_RULESET, PUBLIC_RULESETS}
  {
    isSpellout && (attr == DEFAULT_RULESET || attr == PUBLIC_RULESETS)
  }

  /** `getSpelloutNamespace`, with the locale the parent reports. */
  function ClassName<E, V>(engine: Engine<E, V>, s: Snapshot<E>, value: string): string
  {
    SpelloutNaming.SpelloutNamespace(engine.getLocale(s.base), value)
  }

  /** When a custom extender takes the value: the attribute is a ruleset in
      spellout mode and the derived class exists and can be instantiated. */
  predicate ExtenderAvailable<E, V>(engine: Engine<E, V>, s: Snapshot<E>, registry: Registry, attr: int, value: string)
  {
    && IsSpelloutRuleset(s.isSpellout, attr)
    && ClassName(engine, s, value) in registry
    && registry[ClassName(engine, s, value)].instantiable
  }

  /** `initializeSpelloutExtender`, for a class that exists. */
  function InitializeExtender<E>(s: Snapshot<E>, registry: Registry, name: string): (r: Step<E>)
    requires name in registry
    ensures r.after.attributes == s.attributes && r.after.base == s.base && r.after.isSpellout == s.isSpellout
    ensures r.result <==> registry[name].instantiable
    ensures r.result ==> r.after == s.(extender := Some(Extender(name, registry[name].spellout)))
    ensures !r.result ==> r.after == s
  {
    if registry[name].instantiable then Step(true, s.(extender := Some(Extender(name, registry[name].spellout))))
    else Step(false, s)
  }

  /** `isExtendedSpelloutAvailable`: answers whether a custom extender takes
      the value and, when it does, installs it; it touches nothing else. */
  function CheckExtended<E, V>(engine: Engine<E, V>, s: Snapshot<E>, registry: Registry, attr: int, value: string): (r: Step<E>)
    ensures Consistent(s) ==> Consistent(r.after)
    ensures r.after.attributes == s.attributes && r.after.base == s.base && r.after.isSpellout == s.isSpellout
    ensures !r.result ==> r.after == s
  {
    if IsSpelloutRuleset(s.isSpellout, attr) then
      var name := ClassName(engine, s, value);
      if name in registry then InitializeExtender(s, registry, name) else Step(false, s)
    else Step(false, s)
  }

  /** `setTextAttribute`: a value a custom extender takes is recorded as an
      override; any other value clears the extender and goes to the parent. */
  function SetTextAttribute<E, V>(engine: Engine<E, V>, s: Snapshot<E>, registry: Registry, attr: int, value: string): (r: Step<E>)
    ensures Consistent(s) ==> Consistent(r.after)
    ensures r.after.isSpellout == s.isSpellout
    ensures s.attributes.Keys <= r.after.attributes.Keys
    ensures forall a :: a in s.attributes && a != attr ==> r.after.attributes[a] == s.attributes[a]
  {
    var c := CheckExtended(engine, s, registry, attr, value);
    if c.result then
      Step(true, c.after.(attributes := c.after.attributes[attr := value]))
    else
      var parent := engine.setTextAttribute(s.base, attr, value);
      Step(parent.1, c.after.(extender := None, base := parent.0))
  }

  /** `getTextAttribute`: an override wins over the parent's value. */
  function GetTextAttribute<E, V>(engine: Engine<E, V>, s: Snapshot<E>, attr: int): (t: Text)
    ensures attr in s.attributes ==> t == Str(s.attributes[attr])
    ensures attr !in s.attributes ==> t == engine.getTextAttribute(s.base, attr)
  {
    if attr in s.attributes then Str(s.attributes[attr]) else engine.getTextAttribute(s.base, attr)
  }

  /** `extendedFormat`: the extender's own rendering of the value. */
  function ExtendedFormat<V>(render: (string, V) -> string, x: Extender, value: V): string
  {
    render(x.className, value)
  }

  /** `format`: an extender that implements `SpelloutInterface` renders the
      value in spellout mode, whatever the type hint; otherwise the parent does. */
  function Format<E, V>(engine: Engine<E, V>, render: (string, V) -> string, s: Snapshot<E>, value: V, typ: int): (t: Text)
    ensures s.isSpellout && s.extender.Some? && s.extender.value.spellout
            ==> t == Str(render(s.extender.value.className, value))
    ensures !s.isSpellout || s.extender.None? ==> t == engine.format(s.base, value, typ)
    ensures s.extender.Some? && !s.extender.value.spellout ==> t == engine.format(s.base, value, typ)
  {
    if s.isSpellout && s.extender.Some? && s.extender.value.spellout then
      Str(ExtendedFormat(render, s.extender.value, value))
    else
      engine.format(s.base, value, typ)
  }

  // ---------------------------------------------------------------------
  // One call

  /** `extendedFormat` passes only the value on: while an extender that
      implements the interface is held in spellout mode, the type hint makes
      no difference to `format`. */
  lemma ExtenderIgnoresTypeHint<E, V>(engine: Engine<E, V>, render: (string, V) -> string, s: Snapshot<E>,
                                      x: V, t1: int, t2: int)
    requires s.isSpellout && s.extender.Some? && s.extender.value.spellout
    ensures Format(engine, render, s, x, t1) == Format(engine, render, s, x, t2)
    ensures Format(engine, render, s, x, t1) == Str(ExtendedFormat(render, s.extender.value, x))
  {
  }

  /** Outside spellout mode, or for any other attribute, nothing is looked
      up and the extender is left exactly as it was. */
  lemma NoLookupOutsideRulesets<E, V>(engine: Engine<E, V>, s: Snapshot<E>, registry: Registry, attr: int, value: string)
    requires !IsSpelloutRuleset(s.isSpellout, attr)
    ensures var r := CheckExtended(engine, s, registry, attr, value);
      !r.result && r.after == s
  {
  }

  /** `isExtendedSpelloutAvailable` answers true exactly when an extender is
      available, and then holds an instance of the derived class. */
  lemma CheckExtendedAnswers<E, V>(engine: Engine<E, V>, s: Snapshot<E>, registry: Registry, attr: int, value: string)
    ensures var r := CheckExtended(engine, s, registry, attr, value);
      && (r.result <==> ExtenderAvailable(engine, s, registry, attr, value))
      && (r.result ==> r.after.extender == Some(Extender(ClassName(engine, s, value), registry[ClassName(engine, s, value)].spellout)))
  {
  }

  /** A value an extender takes: the extender is installed, the value is
      recorded, true is returned and the parent is not called. */
  lemma SetTextAttributeCustom<E, V>(engine: Engine<E, V>, s: Snapshot<E>, registry: Registry, attr: int, value: string)
    requires ExtenderAvailable(engine, s, registry, attr, value)
    ensures var name := ClassName(engine, s, value);
      SetTextAttribute(engine, s, registry, attr, value)
        == Step(true, s.(attributes := s.attributes[attr := value], extender := Some(Extender(name, registry[name].spellout))))
  {
  }

  /** Any other value: the extender is cleared, the overrides stay as they
      were, and the result is exactly the parent's. */
  lemma SetTextAttributeFallback<E, V>(engine: Engine<E, V>, s: Snapshot<E>, registry: Registry, attr: int, value: string)
    requires !ExtenderAvailable(engine, s, registry, attr, value)
    ensures var parent := engine.setTextAttribute(s.base, attr, value);
      SetTextAttribute(engine, s, registry, attr, value)
        == Step(parent.1, s.(extender := None, base := parent.0))
  {
  }

  /** Setting then reading an attribute: the value comes back when an
      extender took it; otherwise an older override, if there is one, still
      wins, and only then is the parent asked. */
  lemma SetThenGet<E, V>(engine: Engine<E, V>, s: Snapshot<E>, registry: Registry, attr: int, value: string)
    ensures var after := SetTextAttribute(engine, s, registry, attr, value).after;
      GetTextAttribute(engine, after, attr)
        == if ExtenderAvailable(engine, s, registry, attr, value) then Str(value)
           else if attr in s.attributes then Str(s.attributes[attr])
           else engine.getTextAttribute(after.base, attr)
  {
    if ExtenderAvailable(engine, s, registry, attr, value) {
      SetTextAttributeCustom(engine, s, registry, attr, value);
    } else {
      SetTextAttributeFallback(engine, s, registry, attr, value);
    }
  }

  /** Setting then formatting: the new extender renders the value, whatever
      the type hint, when it took the value and implements the interface;
      in every other case the parent formats it, never a stale extender. */
  lemma SetThenFormat<E, V>(engine: Engine<E, V>, render: (string, V) -> string, s: Snapshot<E>,
                            registry: Registry, attr: int, value: string, x: V, typ: int)
    ensures var name := ClassName(engine, s, value);
      var after := SetTextAttribute(engine, s, registry, attr, value).after;
      Format(engine, render, after, x, typ)
        == if ExtenderAvailable(engine, s, registry, attr, value) && registry[name].spellout
           then Str(render(name, x))
           else engine.format(after.base, x, typ)
  {
    if ExtenderAvailable(engine, s, registry, attr, value) {
      SetTextAttributeCustom(engine, s, registry, attr, value);
    } else {
      SetTextAttributeFallback(engine, s, registry, attr, value);
    }
  }

  /** An override outlives its extender: after a value an extender took,
      a later value for the same attribute that no extender takes goes to
      the parent, yet reading the attribute still gives the first value. */
  lemma StaleOverrideSurvivesFallback<E, V>(engine: Engine<E, V>, s: Snapshot<E>, r1: Registry, r2: Registry,
                                            attr: int, v1: string, v2: string)
    requires ExtenderAvailable(engine, s, r1, attr, v1)
    requires !ExtenderAvailable(engine, SetTextAttribute(engine, s, r1, attr, v1).after, r2, attr, v2)
    ensures var mid := SetTextAttribute(engine, s, r1, attr, v1).after;
      var last := SetTextAttribute(engine, mid, r2, attr, v2).after;
      last.extender == None && GetTextAttribute(engine, last, attr) == Str(v1)
  {
    SetTextAttributeCustom(engine, s, r1, attr, v1);
    var mid := SetTextAttribute(engine, s, r1, attr, v1).after;
    SetTextAttributeFallback(engine, mid, r2, attr, v2);
  }

  /** The Polish feminine cardinal ruleset: with a class registered under
      `\Arius\Lang\Pl\SpelloutCardinalFeminine` that can be instantiated and
      implements the interface, setting the default ruleset succeeds and
      formatting goes to that class, whatever the type hint. */
  lemma PolishFeminineScenario<E, V>(engine: Engine<E, V>, render: (string, V) -> string, s: Snapshot<E>,
                                     registry: Registry, x: V, typ: int)
    requires s.isSpellout && engine.getLocale(s.base) == "pl"
    requires SpelloutNaming.Root + "Pl" + "\\" + "SpelloutCardinalFeminine" in registry
    requires registry[SpelloutNaming.Root + "Pl" + "\\" + "SpelloutCardinalFeminine"] == ClassInfo(true, true)
    ensures var r := SetTextAttribute(engine, s, registry, DEFAULT_RULESET, "%spellout-cardinal-feminine");
      && r.result
      && r.after.base == s.base
      && GetTextAttribute(engine, r.after, DEFAULT_RULESET) == Str("%spellout-cardinal-feminine")
      && Format(engine, render, r.after, x, typ)
         == Str(render(SpelloutNaming.Root + "Pl" + "\\" + "SpelloutCardinalFeminine", x))
  {
    var value := "%spellout-cardinal-feminine";
    var name := SpelloutNaming.Root + "Pl" + "\\" + "SpelloutCardinalFeminine";
    SpelloutNaming.PolishCardinalFeminine();
    assert ClassName(engine, s, value) == name;
    SetTextAttributeCustom(engine, s, registry, DEFAULT_RULESET, value);
    var after := s.(attributes := s.attributes[DEFAULT_RULESET := value], extender := Some(Extender(name, true)));
    assert SetTextAttribute(engine, s, registry, DEFAULT_RULESET, value) == Step(true, after);
    assert GetTextAttribute(engine, after, DEFAULT_RULESET) == Str(value);
    assert Format(engine, render, after, x, typ) == Str(render(name, x));
  }

  /** `isExtendedSpelloutAvailable` is public. Called on its own, it installs
      an extender but records no override, so `format` goes to the extender
      while reading the attribute still asks the parent. */
  lemma CheckAloneSplitsFormatAndGet<E, V>(engine: Engine<E, V>, render: (string, V) -> string, s: Snapshot<E>,
                                           registry: Registry, attr: int, value: string, x: V, typ: int)
    requires ExtenderAvailable(engine, s, registry, attr, value)
    requires registry[ClassName(engine, s, value)].spellout
    requires attr !in s.attributes
    ensures var r := CheckExtended(engine, s, registry, attr, value);
      && r.result
      && Format(engine, render, r.after, x, typ) == Str(render(ClassName(engine, s, value), x))
      && GetTextAttribute(engine, r.after, attr) == engine.getTextAttribute(s.base, attr)
  {
    CheckExtendedAnswers(engine, s, registry, attr, value);
  }

  // ---------------------------------------------------------------------
  // Any sequence of calls

  /** One call of a public method that changes the object, with the classes
      known at that moment: `setTextAttribute` or `isExtendedSpelloutAvailable`. */
  datatype Call =
    | Set(attr: int, value: string, registry: Registry)
    | Check(attr: int, value: string, registry: Registry)

  /** The fields after one call. */
  function Apply<E, V>(engine: Engine<E, V>, s: Snapshot<E>, c: Call): (t: Snapshot<E>)
    ensures t.isSpellout == s.isSpellout
    ensures Consistent(s) ==> Consistent(t)
    ensures s.attributes.Keys <= t.attributes.Keys
    ensures c.Check? ==> t.attributes == s.attributes && t.base == s.base
  {
    match c
    case Set(attr, value, registry) => SetTextAttribute(engine, s, registry, attr, value).after
    case Check(attr, value, registry) => CheckExtended(engine, s, registry, attr, value).after
  }

  /** The fields after a sequence of calls. */
  function Replay<E, V>(engine: Engine<E, V>, s: Snapshot<E>, calls: seq<Call>): (t: Snapshot<E>)
    ensures t.isSpellout == s.isSpellout
    ensures Consistent(s) ==> Consistent(t)
    ensures s.attributes.Keys <= t.attributes.Keys
    decreases |calls|
  {
    if |calls| == 0 then s
    else Replay(engine, Apply(engine, s, calls[0]), calls[1..])
  }

  /** A formatter built with any other style than spellout never holds an
      extender and never records an override, whatever is called on it, so its
      attributes and its output always come from the parent. */
  lemma {:induction false} PlainFormatterOnlyDelegates<E, V>(engine: Engine<E, V>, render: (string, V) -> string,
                                                            s: Snapshot<E>, calls: seq<Call>)
    requires !s.isSpellout && Consistent(s)
    ensures var t := Replay(engine, s, calls);
      && t.extender == None
      && t.attributes == s.attributes
      && forall x: V, typ: int :: Format(engine, render, t, x, typ) == engine.format(t.base, x, typ)
    decreases |calls|
  {
    if |calls| > 0 {
      var c := calls[0];
      NoLookupOutsideRulesets(engine, s, c.registry, c.attr, c.value);
      if c.Set? {
        SetTextAttributeFallback(engine, s, c.registry, c.attr, c.value);
      }
      PlainFormatterOnlyDelegates(engine, render, Apply(engine, s, c), calls[1..]);
    }
  }

  /** Overrides are never removed: once an attribute has one, reading it
      never asks the parent again, whatever is called afterwards. */
  lemma OverridesPersist<E, V>(engine: Engine<E, V>, s: Snapshot<E>, calls: seq<Call>, attr: int)
    requires attr in s.attributes
    ensures var t := Replay(engine, s, calls);
      attr in t.attributes && GetTextAttribute(engine, t, attr) == Str(t.attributes[attr])
  {
  }
}
