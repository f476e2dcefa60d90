/** `Arius\NumberFormatter`, the object: the parent intl formatter's state
    and the three fields the class adds, updated in place by
    `setTextAttribute` and read by `getTextAttribute` and `format`.
    Every method is proved to do what the matching function of
    `FormatterSpec` says, so the lemmas there hold of the object too. */
module AriusNumberFormatter {
  import opened Wrappers
  import opened PhpStrings
  import opened SpelloutNaming
  import Spec = FormatterSpec

  class NumberFormatter<E, V> {
    /** The parent intl formatter's operations and an extender's rendering. */
    const engine: Spec.Engine<E, V>
    const render: (string, V) -> string

    /** Decided by the constructor and never assigned again. */
    const isSpellout: bool
    /** Attribute values an extender took, echoed by `GetTextAttribute`. */
    var attributes: map<int, string>
    var spelloutExtender: Option<Spec.Extender>
    /** The state of the parent part of the object. */
    var base: E

    /** The fields as a value. */
    function Model(): Spec.Snapshot<E>
      reads this
    {
      Spec.Snapshot(isSpellout, attributes, spelloutExtender, base)
    }

    ghost predicate Valid()
      reads this
    {
      Spec.Consistent(Model())
    }

    constructor(engine: Spec.Engine<E, V>, render: (string, V) -> string,
                locale: string, style: int, pattern: Option<string> := None)
      ensures Valid()
      ensures Model() == Spec.Construct(engine, locale, style, pattern)
      ensures this.engine == engine && this.render == render
    {
      this.engine := engine;
      this.render := render;
      isSpellout := style == Spec.SPELLOUT;
      base := engine.construct(locale, style, pattern);
      attributes := map[];
      spelloutExtender := None;
    }

    method SetTextAttribute(attr: int, value: string, registry: Spec.Registry) returns (ok: bool)
      requires Valid()
      modifies this
      ensures Valid()
      ensures Spec.Step(ok, Model()) == Spec.SetTextAttribute(engine, old(Model()), registry, attr, value)
      ensures old(attributes).Keys <= attributes.Keys
    {
      var available := IsExtendedSpelloutAvailable(attr, value, registry);
      if available {
        attributes := attributes[attr := value];
        return true;
      }
      spelloutExtender := None;
      var parent := engine.setTextAttribute(base, attr, value);
      base := parent.0;
      ok := parent.1;
    }

    method IsExtendedSpelloutAvailable(attr: int, value: string, registry: Spec.Registry) returns (available: bool)
      requires Valid()
      modifies this`spelloutExtender
      ensures Valid()
      ensures Spec.Step(available, Model()) == Spec.CheckExtended(engine, old(Model()), registry, attr, value)
    {
      if IsSpelloutRuleset(attr) {
        var name := GetSpelloutNamespace(value);
        if name in registry {
          available := InitializeSpelloutExtender(name, registry);
          return;
        }
      }
      return false;
    }

    function IsSpelloutRuleset(attr: int): (b: bool)
      reads this
      ensures b <==> isSpellout && (attr == Spec.DEFAULT_RULESET || attr == Spec.PUBLIC_RULESETS)
    {
      Spec.IsSpelloutRuleset(isSpellout, attr)
    }

    /** Builds the class name word by word, as the source's loop does. */
    method GetSpelloutNamespace(value: string) returns (namespace: string)
      ensures namespace == SpelloutNamespace(engine.getLocale(base), value)
    {
      var rest := DropFirst(value);
      namespace := Root + Ucfirst(engine.getLocale(base)) + "\\";
      var words := Explode(Separator, rest);
      for i := 0 to |words|
        invariant namespace == LocaleNamespace(engine.getLocale(base)) + Concat(UcfirstEach(words[..i]))
      {
        ConcatUcfirstSnoc(words, i);
        AppendAssociates(LocaleNamespace(engine.getLocale(base)), Concat(UcfirstEach(words[..i])), Ucfirst(words[i]));
        namespace := namespace + Ucfirst(words[i]);
      }
      assert words[..|words|] == words;
    }

    method InitializeSpelloutExtender(name: string, registry: Spec.Registry) returns (ok: bool)
      requires name in registry
      modifies this`spelloutExtender
      ensures Spec.Step(ok, Model()) == Spec.InitializeExtender(old(Model()), registry, name)
    {
      if registry[name].instantiable {
        spelloutExtender := Some(Spec.Extender(name, registry[name].spellout));
        return true;
      }
      return false;
    }

    /** An override wins; the parent is asked only when there is none. */
    function GetTextAttribute(attr: int): (t: Spec.Text)
      reads this
      ensures attr in attributes ==> t == Spec.Str(attributes[attr])
      ensures attr !in attributes ==> t == engine.getTextAttribute(base, attr)
    {
      Spec.GetTextAttribute(engine, Model(), attr)
    }

    /** The held extender renders in spellout mode when it implements the
        interface; otherwise the parent formats, with the type hint. */
    function Format(value: V, typ: int := Spec.TYPE_DEFAULT): (t: Spec.Text)
      reads this
      ensures isSpellout && spelloutExtender.Some? && spelloutExtender.value.spellout
              ==> t == Spec.Str(render(spelloutExtender.value.className, value))
      ensures !(isSpellout && spelloutExtender.Some? && spelloutExtender.value.spellout)
              ==> t == engine.format(base, value, typ)
    {
      Spec.Format(engine, render, Model(), value, typ)
    }
  }

  /** A client: a Polish spellout formatter whose feminine cardinal ruleset
      has an extender and whose `%spellout-ordinal` has none. The first
      value is taken by the extender and formatting goes to it; after the
      second, formatting is the parent's again. */
  method PolishClient<E, V>(engine: Spec.Engine<E, V>, render: (string, V) -> string,
                            registry: Spec.Registry, x: V)
    returns (ok: bool, custom: Spec.Text, fallback: Spec.Text)
    requires engine.getLocale(engine.construct("pl", Spec.SPELLOUT, None)) == "pl"
    requires Root + "Pl" + "\\" + "SpelloutCardinalFeminine" in registry
    requires registry[Root + "Pl" + "\\" + "SpelloutCardinalFeminine"] == Spec.ClassInfo(true, true)
    requires SpelloutNamespace("pl", "%spellout-ordinal") !in registry
    ensures ok && custom == Spec.Str(render(Root + "Pl" + "\\" + "SpelloutCardinalFeminine", x))
    ensures var base := engine.construct("pl", Spec.SPELLOUT, None);
      fallback == engine.format(engine.setTextAttribute(base, Spec.DEFAULT_RULESET, "%spellout-ordinal").0, x, Spec.TYPE_DEFAULT)
  {
    var f := new NumberFormatter(engine, render, "pl", Spec.SPELLOUT);
    ghost var s0 := f.Model();
    Spec.PolishFeminineScenario(engine, render, s0, registry, x, Spec.TYPE_DEFAULT);
    ok := f.SetTextAttribute(Spec.DEFAULT_RULESET, "%spellout-cardinal-feminine", registry);
    custom := f.Format(x);
    ghost var s1 := f.Model();
    assert s1.base == s0.base;
    Spec.SetTextAttributeFallback(engine, s1, registry, Spec.DEFAULT_RULESET, "%spellout-ordinal");
    var _ := f.SetTextAttribute(Spec.DEFAULT_RULESET, "%spellout-ordinal", registry);
    fallback := f.Format(x);
  }
}
