/**
 * Translation lookup of the frontend: a dotted key is walked through the
 * nested table of the current language, then through the Portuguese table,
 * and finally the key itself is shown. The chosen language is kept in
 * browser storage under "lang".
 */
module I18n {
  import opened Text
  import opened JsValue

  const DefaultLang := "pt"
  const LangStorageKey := "lang"

  /** `translations[lang] || translations.pt` */
  function SelectTable(translations: map<string, Js>, lang: string): (table: Js)
    ensures Truthy(Field(translations, lang)) ==> table == translations[lang]
    ensures !Truthy(Field(translations, lang)) ==> table == Field(translations, DefaultLang)
  {
    Either(Field(translations, lang), Field(translations, DefaultLang))
  }

  /**
   * `cur = cur?.[p]` for every segment in turn. Once a segment is missing
   * the walk stays at `undefined`.
   */
  function Walk(cur: Js, path: seq<string>): (r: Js)
    ensures |path| > 0 && Nullish(cur) ==> r == Undefined
    ensures |path| > 0 && cur.Obj? && path[0] !in cur.fields ==> r == Undefined
    decreases |path|
  {
    if |path| == 0 then cur else Walk(OptProp(cur, path[0]), path[1..])
  }

  /** Walking a path in two pieces is walking it whole. */
  lemma {:induction false} WalkAppend(cur: Js, a: seq<string>, b: seq<string>)
    ensures Walk(cur, a + b) == Walk(Walk(cur, a), b)
    decreases |a|
  {
    if |a| > 0 {
      assert (a + b)[0] == a[0];
      assert (a + b)[1..] == a[1..] + b;
      WalkAppend(OptProp(cur, a[0]), a[1..], b);
    } else {
      assert a + b == b;
    }
  }

  /**
   * The loop of `t`: read one segment after another and stop at the first
   * one that is missing.
   */
  method WalkLoop(table: Js, parts: seq<string>) returns (cur: Js)
    ensures cur == Walk(table, parts)
  {
    cur := table;
    var i := 0;
    while i < |parts|
      invariant 0 <= i <= |parts|
      invariant Walk(cur, parts[i..]) == Walk(table, parts)
    {
      assert parts[i..][1..] == parts[i + 1..];
      cur := OptProp(cur, parts[i]);
      if cur == Undefined {
        break;
      }
      i := i + 1;
    }
  }

  /**
   * `t(key)`: the value at the dotted path in the selected table; failing
   * that, the value at the same path in the Portuguese table; failing that,
   * the key itself. It never yields `undefined`.
   */
  function Translate(translations: map<string, Js>, lang: string, key: string): (r: Js)
    ensures !r.Undefined?
    ensures var found := Walk(SelectTable(translations, lang), Split(key, '.'));
      && (!found.Undefined? ==> r == found)
      && (found.Undefined? && !Nullish(Walk(Field(translations, DefaultLang), Split(key, '.'))) ==>
            r == Walk(Field(translations, DefaultLang), Split(key, '.')))
      && (found.Undefined? && Nullish(Walk(Field(translations, DefaultLang), Split(key, '.'))) ==> r == Str(key))
  {
    var parts := Split(key, '.');
    var cur := Walk(SelectTable(translations, lang), parts);
    if cur.Undefined? then Coalesce(Walk(Field(translations, DefaultLang), parts), Str(key))
    else cur
  }

  /** `t` as the component runs it, with the two walking loops. */
  method TranslateLoop(translations: map<string, Js>, lang: string, key: string) returns (r: Js)
    ensures r == Translate(translations, lang, key)
  {
    var table := SelectTable(translations, lang);
    var parts := Split(key, '.');
    var cur := WalkLoop(table, parts);
    if cur == Undefined {
      var curDef := WalkLoop(Field(translations, DefaultLang), parts);
      return Coalesce(curDef, Str(key));
    }
    return cur;
  }

  /** A language without a table reads from the Portuguese one. */
  lemma UnknownLanguageIsPortuguese(translations: map<string, Js>, lang: string, key: string)
    requires lang !in translations
    ensures Translate(translations, lang, key) == Translate(translations, DefaultLang, key)
  {
  }

  /**
   * Nested lookup: `t("a.b")` finds field `b` of the object at `a`, when
   * `b` has no dot and is present.
   */
  lemma NestedLookup(translations: map<string, Js>, lang: string, prefix: string, name: string)
    requires '.' !in name
    requires var v := Walk(SelectTable(translations, lang), Split(prefix, '.'));
      v.Obj? && name in v.fields && !v.fields[name].Undefined?
    ensures var v := Walk(SelectTable(translations, lang), Split(prefix, '.'));
      Translate(translations, lang, prefix + "." + name) == v.fields[name]
  {
    var table := SelectTable(translations, lang);
    SplitAppend(prefix, name, '.');
    assert prefix + "." + name == prefix + ['.'] + name;
    SplitHead(name, '.');
    WalkAppend(table, Split(prefix, '.'), [name]);
  }

  /** An index segment reads an element of an array: `t("a.0")` is the first item of the array at `a`. */
  lemma IndexedLookup(translations: map<string, Js>, lang: string, prefix: string, i: nat)
    requires var v := Walk(SelectTable(translations, lang), Split(prefix, '.'));
      v.Arr? && i < |v.items| && !v.items[i].Undefined?
    ensures var v := Walk(SelectTable(translations, lang), Split(prefix, '.'));
      Translate(translations, lang, prefix + "." + NatToString(i)) == v.items[i]
  {
    var table := SelectTable(translations, lang);
    var name := NatToString(i);
    assert '.' !in name by {
      assert forall k :: 0 <= k < |name| ==> IsDigit(name[k]);
    }
    SplitAppend(prefix, name, '.');
    assert prefix + "." + name == prefix + ['.'] + name;
    SplitHead(name, '.');
    WalkAppend(table, Split(prefix, '.'), [name]);
    ArrayIndexRead(Walk(table, Split(prefix, '.')).items, i);
  }

  /** A key that resolves nowhere is shown as it is. */
  lemma MissingKeyShownAsIs(translations: map<string, Js>, lang: string, key: string)
    requires Walk(SelectTable(translations, lang), Split(key, '.')).Undefined?
    requires Walk(Field(translations, DefaultLang), Split(key, '.')).Undefined?
    ensures Translate(translations, lang, key) == Str(key)
  {
  }

  /** The language of the provider and the browser storage it writes. */
  datatype LangState = LangState(lang: string, storage: map<string, string>)

  /** The effect that runs whenever the language changes: write it back. */
  function Persist(lang: string, storage: map<string, string>): (st: LangState)
    ensures st.lang == lang && st.storage.Keys == storage.Keys + {LangStorageKey}
    ensures st.storage[LangStorageKey] == lang
    ensures forall k :: k in storage && k != LangStorageKey ==> st.storage[k] == storage[k]
  {
    LangState(lang, storage[LangStorageKey := lang])
  }

  /** Mounting the provider: the saved language unless absent or empty, else Portuguese. */
  function Mount(storage: map<string, string>): (st: LangState)
    ensures LangStorageKey in storage && storage[LangStorageKey] != "" ==> st.lang == storage[LangStorageKey]
    ensures !(LangStorageKey in storage && storage[LangStorageKey] != "") ==> st.lang == DefaultLang
    ensures LangStorageKey in st.storage && st.storage[LangStorageKey] == st.lang
    ensures st.storage.Keys == storage.Keys + {LangStorageKey}
    ensures forall k :: k in storage && k != LangStorageKey ==> st.storage[k] == storage[k]
  {
    var saved := if LangStorageKey in storage then storage[LangStorageKey] else "";
    Persist(if saved != "" then saved else DefaultLang, storage)
  }

  /** `setLang(lang)` followed by the effect. */
  function SetLanguage(st: LangState, lang: string): (r: LangState)
    ensures r.lang == lang && LangStorageKey in r.storage && r.storage[LangStorageKey] == lang
    ensures r.storage.Keys == st.storage.Keys + {LangStorageKey}
    ensures forall k :: k in st.storage && k != LangStorageKey ==> r.storage[k] == st.storage[k]
  {
    Persist(lang, st.storage)
  }

  /** A chosen language survives a reload; the empty choice comes back as Portuguese. */
  lemma LanguageSurvivesReload(st: LangState, lang: string)
    ensures Mount(SetLanguage(st, lang).storage).lang == (if lang != "" then lang else DefaultLang)
  {
  }

  /** Mounting twice in a row (a reload without a change) keeps the language. */
  lemma MountStable(storage: map<string, string>)
    ensures Mount(Mount(storage).storage) == Mount(storage)
  {
    var st := Mount(storage);
    assert st.storage[LangStorageKey] != "";
    assert st.storage[LangStorageKey := st.lang] == st.storage;
  }
}
