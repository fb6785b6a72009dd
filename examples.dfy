/** Worked conversions: the behaviour at the edges of scope resolution and grouping. */
module Examples {
  import opened Wrappers
  import opened Strings
  import opened OrderedDict
  import opened Snippets
  import opened Converter

  lemma SplitRustFoo()
    ensures Split("rust, foo", ',') == ["rust", " foo"]
  {
    assert Join(["rust", " foo"], ',') == "rust, foo";
    JoinSplit(["rust", " foo"], ',');
  }

  lemma SplitRustComma()
    ensures Split("rust,", ',') == ["rust", ""]
  {
    assert Join(["rust", ""], ',') == "rust,";
    JoinSplit(["rust", ""], ',');
  }

  lemma SplitReactPair()
    ensures Split("typescriptreact,javascriptreact", ',') == ["typescriptreact", "javascriptreact"]
  {
    assert Join(["typescriptreact", "javascriptreact"], ',') == "typescriptreact,javascriptreact";
    JoinSplit(["typescriptreact", "javascriptreact"], ',');
  }

  lemma TrimRustFoo()
    ensures TrimAll(["rust", " foo"]) == ["rust", "foo"]
  {
    assert Trim(" foo") == "foo" by {
      assert TrimStart(" foo") == "foo";
      TrimOfTrimmed("foo");
    }
    TrimOfTrimmed("rust");
  }

  lemma RustFooPieces(s: VSSnippet)
    requires s.scope == Some("rust, foo")
    ensures ScopePieces(s) == ["rust", "foo"]
  {
    SplitRustFoo();
    TrimRustFoo();
  }

  /** Pieces are trimmed before lookup, and an unknown piece is kept verbatim. */
  lemma RustAndUnknown(s: VSSnippet)
    requires s.scope == Some("rust, foo")
    ensures Languages(s) == ["rust.json", "foo"]
  {
    RustFooPieces(s);
    RustFooLanguages(s);
  }

  lemma RustFooLanguages(s: VSSnippet)
    requires ScopePieces(s) == ["rust", "foo"]
    ensures Languages(s) == ["rust.json", "foo"]
  {
  }

  /** Empty pieces are not dropped: a trailing comma yields the language "". */
  lemma TrailingCommaGivesEmptyLanguage(s: VSSnippet)
    requires s.scope == Some("rust,")
    ensures Languages(s) == ["rust.json", ""]
  {
    SplitRustComma();
    assert Trim("rust") == "rust";
    assert ScopePieces(s) == ["rust", ""];
  }

  /** A scope of two separator-free, already trimmed identifiers splits into those two. */
  lemma {:induction false} TwoPieceScope(s: VSSnippet, a: string, b: string)
    requires s.scope == Some(a + [','] + b)
    requires ',' !in a && ',' !in b && Trim(a) == a && Trim(b) == b
    ensures ScopePieces(s) == [a, b]
  {
    assert Join([a, b], ',') == a + [','] + b;
    JoinSplit([a, b], ',');
  }

  lemma ReactPairPieces(s: VSSnippet)
    requires s.scope == Some("typescriptreact,javascriptreact")
    ensures ScopePieces(s) == ["typescriptreact", "javascriptreact"]
  {
    TrimOfTrimmed("typescriptreact");
    TrimOfTrimmed("javascriptreact");
    assert "typescriptreact,javascriptreact" == "typescriptreact" + [','] + "javascriptreact";
    TwoPieceScope(s, "typescriptreact", "javascriptreact");
  }

  /** The two React aliases resolve to the same Zed language. */
  lemma ReactPairLanguages(s: VSSnippet)
    requires ScopePieces(s) == ["typescriptreact", "javascriptreact"]
    ensures Languages(s) == ["tsx.json", "tsx.json"]
  {
  }

  /** Two aliases of one Zed language give one group holding the snippet once. */
  lemma AliasesOfOneLanguageMerge(name: string, s: VSSnippet)
    requires Languages(s) == ["tsx.json", "tsx.json"]
    ensures Converted([(name, s)]) == [("tsx.json", [(name, ToZed(s))])]
  {
    var e := [(name, s)];
    assert e[..0] == [];
    var langs := Languages(s);
    assert langs[..1] == ["tsx.json"] && langs[..1][..0] == [];
    var g1 := Insert([], "tsx.json", name, ToZed(s));
    assert g1 == [("tsx.json", [(name, ToZed(s))])];
    assert AddSnippet([], name, ToZed(s), langs[..1]) == g1;
    assert GetOrEmpty(g1, "tsx.json") == [(name, ToZed(s))];
    assert Put([(name, ToZed(s))], name, ToZed(s)) == [(name, ToZed(s))];
    assert Insert(g1, "tsx.json", name, ToZed(s)) == g1;
    assert Converted(e) == AddSnippet([], name, ToZed(s), langs);
  }

  lemma TypescriptPieces(s: VSSnippet)
    requires s.scope == Some("typescript")
    ensures ScopePieces(s) == ["typescript"]
  {
    SplitWithout("typescript", ',');
    TrimOfTrimmed("typescript");
  }

  lemma TypescriptLanguages(s: VSSnippet)
    requires s.scope == Some("typescript")
    ensures Languages(s) == ["typescript.json"]
  {
    TypescriptPieces(s);
    TypescriptResolves(s);
  }

  lemma TypescriptResolves(s: VSSnippet)
    requires ScopePieces(s) == ["typescript"]
    ensures Languages(s) == ["typescript.json"]
  {
  }

  /** The same, starting from the scope string. */
  lemma ReactScopeGivesOneEntry(name: string, s: VSSnippet)
    requires s.scope == Some("typescriptreact,javascriptreact")
    ensures Converted([(name, s)]) == [("tsx.json", [(name, ToZed(s))])]
  {
    ReactPairPieces(s);
    ReactPairLanguages(s);
    AliasesOfOneLanguageMerge(name, s);
  }

  /** A one-snippet document with a known scope, converted in full. */
  lemma GreetExample()
    ensures var greet := VSSnippet("grt", Lines(["console.log($1);"]), None, Some("typescript"));
            Emit(Converted([("Greet", greet)])) ==
              [LanguageSnippets("typescript.json", [("Greet", ZedSnippet("grt", ["console.log($1);"], None))])]
  {
    var greet := VSSnippet("grt", Lines(["console.log($1);"]), None, Some("typescript"));
    TypescriptLanguages(greet);
    var e := [("Greet", greet)];
    assert e[..0] == [];
    assert Languages(greet)[..0] == [];
  }

  lemma SolidPieces(s: VSSnippet)
    requires s.scope == Some("typescript,javascript")
    ensures ScopePieces(s) == ["typescript", "javascript"]
  {
    TrimOfTrimmed("typescript");
    TrimOfTrimmed("javascript");
    assert "typescript,javascript" == "typescript" + [','] + "javascript";
    TwoPieceScope(s, "typescript", "javascript");
  }

  lemma SolidLanguages(s: VSSnippet)
    requires ScopePieces(s) == ["typescript", "javascript"]
    ensures Languages(s) == ["typescript.json", "javascript.json"]
  {
  }

  /** A snippet with two different languages gives two groups, in scope order, each holding it. */
  lemma TwoLanguagesTwoGroups(name: string, s: VSSnippet, a: string, b: string)
    requires Languages(s) == [a, b] && a != b
    ensures Converted([(name, s)]) == [(a, [(name, ToZed(s))]), (b, [(name, ToZed(s))])]
  {
    var e, z := [(name, s)], ToZed(s);
    assert e[..0] == [];
    var langs := Languages(s);
    assert langs[..1] == [a] && langs[..1][..0] == [];
    var g1 := Insert([], a, name, z);
    assert g1 == [(a, [(name, z)])];
    assert AddSnippet([], name, z, langs[..1]) == g1;
    assert GetOrEmpty(g1, b) == [];
    var v := [(name, z)];
    assert Put([], name, z) == v;
    assert Put(g1, b, v) == [g1[0]] + Put([], b, v);
    assert Insert(g1, b, name, z) == [(a, [(name, z)]), (b, [(name, z)])];
    assert Converted(e) == AddSnippet([], name, z, langs);
  }

  /**
   * The usage example of the converter's own documentation: one snippet scoped
   * to "typescript,javascript" lands in the groups "typescript.json" and
   * "javascript.json", in that order, with its fields unchanged.
   */
  lemma SolidPageExample()
    ensures var body := ["export default function ${1:MyAwesome}Page() {", "  return <></>;", "}"];
            var page := VSSnippet("newsolidpage", Lines(body), Some("Creates a new page in SolidJS."), Some("typescript,javascript"));
            var z := ZedSnippet("newsolidpage", body, Some("Creates a new page in SolidJS."));
            Emit(Converted([("New SolidJS Page", page)])) ==
              [LanguageSnippets("typescript.json", [("New SolidJS Page", z)]),
               LanguageSnippets("javascript.json", [("New SolidJS Page", z)])]
  {
    var body := ["export default function ${1:MyAwesome}Page() {", "  return <></>;", "}"];
    var page := VSSnippet("newsolidpage", Lines(body), Some("Creates a new page in SolidJS."), Some("typescript,javascript"));
    SolidScope(page);
    SolidPageGroups("New SolidJS Page", page);
  }

  /** The scope "typescript,javascript" resolves to two Zed languages, in that order. */
  lemma SolidScope(page: VSSnippet)
    requires page.scope == Some("typescript,javascript")
    ensures Languages(page) == ["typescript.json", "javascript.json"]
  {
    SolidPieces(page);
    SolidLanguages(page);
  }

  lemma SolidPageGroups(name: string, page: VSSnippet)
    requires Languages(page) == ["typescript.json", "javascript.json"]
    ensures Emit(Converted([(name, page)])) ==
              [LanguageSnippets("typescript.json", [(name, ToZed(page))]),
               LanguageSnippets("javascript.json", [(name, ToZed(page))])]
  {
    TwoLanguagesTwoGroups(name, page, "typescript.json", "javascript.json");
  }

  /** A plain-string body, an empty description and no scope: one line, no description, group "*". */
  lemma StringBodyNoScope()
    ensures var s := VSSnippet("log", Str("console.log($1)"), Some(""), None);
            Emit(Converted([("Log", s)])) ==
              [LanguageSnippets("*", [("Log", ZedSnippet("log", ["console.log($1)"], None))])]
  {
    var s := VSSnippet("log", Str("console.log($1)"), Some(""), None);
    UnscopedLanguages(s);
    var e := [("Log", s)];
    assert e[..0] == [];
    assert Languages(s)[..0] == [];
  }
}
