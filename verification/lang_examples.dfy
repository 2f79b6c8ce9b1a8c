/** Concrete scenarios: the expected behaviour of the store on small
    configurations, including the one the demo application uses (an inline
    Indonesian table and a lazily imported English one). */
module LangExamples {
  import opened Wrappers
  import opened Strings
  import opened LocaleTree
  import opened Translate
  import opened Entries
  import opened Lang
  import opened LangProperties

  function ItemTable(): LocaleData {
    Node(map["item" := Leaf("one item"), "item_plural" := Leaf("{count} items")])
  }

  lemma ItemLookups()
    ensures GetNested(ItemTable(), "item") == Some(Leaf("one item"))
    ensures GetNested(ItemTable(), "item" + PluralSuffix) == Some(Leaf("{count} items"))
  {
    var d := ItemTable();
    assert !HasChar("item", PathSeparator);
    assert "item" + PluralSuffix == "item_plural";
    assert !HasChar("item_plural", PathSeparator);
    GetNestedSingle(d, "item");
    GetNestedSingle(d, "item_plural");
  }

  lemma SingularExample()
    ensures Resolve(ItemTable(), "item", [("count", Num(1))]) == Text("one item")
  {
    ItemLookups();
    var one: Params := [("count", Num(1))];
    assert Lookup(one, CountParam) == Some(Num(1));
    assert SelectKey(ItemTable(), "item", one) == "item";
    CountIsPlain();
    ResolveLeaf(ItemTable(), "item", one, "one item");
    OneItemHasNoCount();
  }

  lemma CountIsPlain()
    ensures IsPlainName(CountParam)
    ensures AllPlainNames([("count", Num(1))]) && AllPlainNames([("count", Num(5))])
  {
    assert CountParam == "count";
  }

  lemma OneItemHasNoCount()
    ensures !Occurs("one item", Placeholder("count"))
  {
    assert !HasChar("one item", '{');
    AbsentFirstChar("one item", Placeholder("count"));
  }

  lemma PluralFiveExample()
    ensures Resolve(ItemTable(), "item", [("count", Num(5))]) == Text("5 items")
  {
    ItemLookups();
    var five: Params := [("count", Num(5))];
    assert Lookup(five, CountParam) == Some(Num(5));
    assert SelectKey(ItemTable(), "item", five) == "item" + PluralSuffix;
    CountIsPlain();
    ResolveLeaf(ItemTable(), "item", five, "{count} items");
    PluralSubstitution();
  }

  /** `count` 1 uses the singular entry; `count` 5 uses the plural entry
      with the count substituted. */
  lemma PluralExample()
    ensures Resolve(ItemTable(), "item", [("count", Num(1))]) == Text("one item")
    ensures Resolve(ItemTable(), "item", [("count", Num(5))]) == Text("5 items")
  {
    SingularExample();
    PluralFiveExample();
  }

  lemma PluralSubstitution()
    ensures Substitute("{count} items", [("count", Num(5))]) == "5 items"
  {
    var s := "{count} items";
    var p := Placeholder("count");
    assert p == "{count}";
    assert Stringify(Num(5)) == "5";
    assert StartsWith(s, p);
    assert s[|p|..] == " items";
    assert ReplaceAll(" items", p, "5") == " items";
    assert ReplaceAll(s, p, "5") == "5 items";
  }

  function GreetTable(): LocaleData {
    Node(map["greet" := Leaf("Hello {name}")])
  }

  lemma GreetLookups()
    ensures GetNested(GreetTable(), "greet") == Some(Leaf("Hello {name}"))
    ensures GetNested(GreetTable(), "greet" + PluralSuffix) == None
  {
    assert !HasChar("greet", PathSeparator);
    assert "greet" + PluralSuffix == "greet_plural";
    assert !HasChar("greet_plural", PathSeparator);
    GetNestedSingle(GreetTable(), "greet");
    GetNestedSingle(GreetTable(), "greet_plural");
  }

  lemma GreetSubstitution()
    ensures Substitute("Hello {name}", [("name", Str("Ana"))]) == "Hello Ana"
  {
    var p := Placeholder("name");
    assert p == "{name}";
    assert !HasChar("Hello ", '{');
    ReplaceAllSkipsPrefix("Hello ", "{name}", p, "Ana");
    assert "Hello " + "{name}" == "Hello {name}";
    assert StartsWith("{name}", p);
    assert "{name}"[|p|..] == "";
    assert ReplaceAll("{name}", p, "Ana") == "Ana";
  }

  lemma NameIsPlain()
    ensures IsPlainName("name")
    ensures AllPlainNames([("name", Str("Ana"))])
  {
  }

  /** A matching parameter fills its placeholder; without parameters the
      placeholder stays literal. */
  lemma GreetingExample()
    ensures Resolve(GreetTable(), "greet", [("name", Str("Ana"))]) == Text("Hello Ana")
    ensures Resolve(GreetTable(), "greet", []) == Text("Hello {name}")
  {
    GreetLookups();
    var ps: Params := [("name", Str("Ana"))];
    assert Lookup(ps, CountParam) == None;
    assert SelectKey(GreetTable(), "greet", ps) == "greet";
    NameIsPlain();
    ResolveLeaf(GreetTable(), "greet", ps, "Hello {name}");
    GreetSubstitution();
    ResolveVerbatim(GreetTable(), "greet", "Hello {name}");
  }

  /** A dotted key that does not resolve comes back unchanged. */
  lemma MissingKeyExample()
    ensures Resolve(ItemTable(), "no.such.key", []) == Text("no.such.key")
  {
    var d := ItemTable();
    assert !HasChar("no", PathSeparator);
    assert "no" + [PathSeparator] + "such.key" == "no.such.key";
    GetNestedDot(d, "no", "such.key");
    assert "no" !in d.entries;
    assert GetNested(d, "no.such.key") == None;
    assert SelectKey(d, "no.such.key", []) == "no.such.key";
  }

  /** A digit-only parameter name makes the pattern `{0}`, a quantifier
      with nothing to repeat: `t` throws a `SyntaxError`. */
  lemma QuantifierNameExample()
    ensures Resolve(GreetTable(), "greet", [("0", Str("Ana"))]) == Thrown(SyntaxError)
  {
    GreetLookups();
    var ps: Params := [("0", Str("Ana"))];
    assert Lookup(ps, CountParam) == None;
    assert SelectKey(GreetTable(), "greet", ps) == "greet";
    assert FormsQuantifier(ps[0].0);
    ResolveLeaf(GreetTable(), "greet", ps, "Hello {name}");
  }

  /** A key naming an inner node, asked for with parameters: `.replace` is
      called on an object and `t` throws a `TypeError`. */
  lemma InnerNodeExample()
    ensures Resolve(Node(map["menu" := GreetTable()]), "menu", [("name", Str("Ana"))]) == Thrown(TypeError)
  {
    var d := Node(map["menu" := GreetTable()]);
    MenuLookups();
    var ps: Params := [("name", Str("Ana"))];
    assert Lookup(ps, CountParam) == None;
    assert SelectKey(d, "menu", ps) == "menu";
    NameIsPlain();
    ResolveInnerNode(d, "menu", ps, GreetTable().entries);
  }

  lemma MenuLookups()
    ensures GetNested(Node(map["menu" := GreetTable()]), "menu") == Some(GreetTable())
    ensures GetNested(Node(map["menu" := GreetTable()]), "menu" + PluralSuffix) == None
  {
    var d := Node(map["menu" := GreetTable()]);
    assert !HasChar("menu", PathSeparator);
    GetNestedSingle(d, "menu");
    assert "menu" + PluralSuffix == "menu_plural";
    assert !HasChar("menu_plural", PathSeparator);
    GetNestedSingle(d, "menu_plural");
  }

  function IdTable(): LocaleData {
    Node(map["greeting" := Leaf("Halo")])
  }

  function EnTable(): LocaleData {
    Node(map["greeting" := Leaf("Hi")])
  }

  /** The demo application's configuration: Indonesian by default and
      inline, English behind a dynamic import. */
  function DemoConfig(): Config {
    Config("id", IdTable(), [("id", Inline(IdTable())), ("en", Producer(EnTable()))])
  }

  lemma GreetingLookup(d: LocaleData, text: string)
    requires d == Node(map["greeting" := Leaf(text)]) && text != ""
    ensures Resolve(d, "greeting", []) == Text(text)
  {
    assert !HasChar("greeting", PathSeparator);
    GetNestedSingle(d, "greeting");
    ResolveVerbatim(d, "greeting", text);
  }

  /** Switching the demo store to English loads the English table and `t`
      answers from it; an unknown locale changes nothing. */
  lemma DemoSwitch()
    ensures CreateLang(DemoConfig()).Success?
    ensures var st := CreateLang(DemoConfig()).value;
      && T(st, "greeting", []) == Text("Halo")
      && GetLocale(SetLocale(st, Some("en"))) == "en"
      && T(SetLocale(st, Some("en")), "greeting", []) == Text("Hi")
      && SetLocale(st, Some("xx")) == st
  {
    var cfg := DemoConfig();
    assert HasKey(cfg.sources, "id") by {
      assert cfg.sources[0].0 == "id";
    }
    var st := CreateLang(cfg).value;
    CreateLangValid(cfg);
    assert Lookup(st.sources, "en") == Some(Producer(EnTable())) by {
      assert st.sources[1] == ("en", Producer(EnTable()));
    }
    GreetingLookup(IdTable(), "Halo");
    GreetingLookup(EnTable(), "Hi");
    SetLocaleToProducer(cfg, st, "en", EnTable(), "greeting", []);
    assert !HasKey(st.sources, "xx");
  }

  /** The inline edge case on a concrete store: `fr` has inline data that
      contains the key, but switching to it caches nothing, so `t` returns
      the raw key. */
  lemma InlineSwitch()
    ensures var cfg := Config("id", IdTable(), [("id", Inline(IdTable())), ("fr", Inline(Node(map["greeting" := Leaf("Salut")])))]);
      && CreateLang(cfg).Success?
      && GetLocale(SetLocale(CreateLang(cfg).value, Some("fr"))) == "fr"
      && T(SetLocale(CreateLang(cfg).value, Some("fr")), "greeting", []) == Text("greeting")
  {
    var cfg := Config("id", IdTable(), [("id", Inline(IdTable())), ("fr", Inline(Node(map["greeting" := Leaf("Salut")])))]);
    assert HasKey(cfg.sources, "id") by {
      assert cfg.sources[0].0 == "id";
    }
    assert HasKey(cfg.sources, "fr") by {
      assert cfg.sources[1].0 == "fr";
    }
    var st := CreateLang(cfg).value;
    var r := SetLocale(st, Some("fr"));
    assert r.cache == st.cache;
    assert "fr" !in r.cache;
  }
}
