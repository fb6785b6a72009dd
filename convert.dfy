/**
 * `convertVSCodeToZedSnippets` from the point where the snippet document has
 * been parsed: the entries of the document, in key order, are projected onto
 * Zed's format and grouped by the Zed language each resolves to. A group is
 * keyed by language in first-seen order; inside a group, snippets are keyed by
 * name in first-written order, a later write to a name replacing its value.
 */
module Converter {
  import opened Wrappers
  import opened OrderedDict
  import opened Snippets

  /** One entry of the parsed VS Code document: the snippet's name and its record. */
  type Entry = (string, VSSnippet)

  /** The accumulator: Zed language to the snippets of that language. */
  type Groups = Dict<Dict<ZedSnippet>>

  /** One element of the result: a language and its Zed snippet document. */
  datatype LanguageSnippets = LanguageSnippets(language: string, snippets: Dict<ZedSnippet>)

  /** `snippetsByLanguage.get(lang)[name] = z`, the group created empty when absent. */
  function Insert(groups: Groups, lang: string, name: string, z: ZedSnippet): Groups
  {
    Put(groups, lang, Put(GetOrEmpty(groups, lang), name, z))
  }

  /** Writes one snippet into the group of each language of `langs`, left to right. */
  function AddSnippet(groups: Groups, name: string, z: ZedSnippet, langs: seq<string>): Groups
  {
    if langs == [] then groups
    else Insert(AddSnippet(groups, name, z, langs[..|langs| - 1]), langs[|langs| - 1], name, z)
  }

  /** The accumulator once every entry has been processed in order. */
  function Converted(entries: seq<Entry>): Groups
  {
    if entries == [] then []
    else
      var last := entries[|entries| - 1];
      AddSnippet(Converted(entries[..|entries| - 1]), last.0, ToZed(last.1), Languages(last.1))
  }

  /** `Array.from(snippetsByLanguage.entries()).map(...)`. */
  function Emit(groups: Groups): seq<LanguageSnippets>
  {
    seq(|groups|, k requires 0 <= k < |groups| => LanguageSnippets(groups[k].0, groups[k].1))
  }

  // ---------------------------------------------------------------------------
  // Reference definitions: what ends up in the result, stated per language.

  /** Every language the entries resolve to, in entry order and scope order, repeats included. */
  function AllLanguages(entries: seq<Entry>): seq<string>
  {
    if entries == [] then []
    else AllLanguages(entries[..|entries| - 1]) + Languages(entries[|entries| - 1].1)
  }

  /** The names of the entries that resolve to `lang`, in entry order. */
  function NamesIn(entries: seq<Entry>, lang: string): seq<string>
  {
    if entries == [] then []
    else
      var last := entries[|entries| - 1];
      NamesIn(entries[..|entries| - 1], lang) + if lang in Languages(last.1) then [last.0] else []
  }

  /** The projection of the last entry called `name` that resolves to `lang`, if any. */
  function LastWrite(entries: seq<Entry>, lang: string, name: string): Option<ZedSnippet>
  {
    if entries == [] then None
    else
      var last := entries[|entries| - 1];
      if last.0 == name && lang in Languages(last.1) then Some(ToZed(last.1))
      else LastWrite(entries[..|entries| - 1], lang, name)
  }

  /** The document of `lang` built on its own: each entry that resolves to `lang`, written in order. */
  function GroupFor(entries: seq<Entry>, lang: string): Dict<ZedSnippet>
  {
    if entries == [] then []
    else
      var last := entries[|entries| - 1];
      var g := GroupFor(entries[..|entries| - 1], lang);
      if lang in Languages(last.1) then Put(g, last.0, ToZed(last.1)) else g
  }

  predicate UniqueNames(entries: seq<Entry>)
  {
    forall i, j :: 0 <= i < j < |entries| ==> entries[i].0 != entries[j].0
  }

  // ---------------------------------------------------------------------------
  // The conversion loop.

  method ConvertVSCodeToZedSnippets(entries: seq<Entry>) returns (result: seq<LanguageSnippets>)
    ensures result == Emit(Converted(entries))
    ensures |result| == |Dedup(AllLanguages(entries))|
    ensures forall k :: 0 <= k < |result| ==>
              && result[k].language == Dedup(AllLanguages(entries))[k]
              && result[k].snippets == GroupFor(entries, result[k].language)
              && |result[k].snippets| > 0
    ensures |result| == 0 <==> |entries| == 0
  {
    var snippetsByLanguage: Groups := [];
    var i := 0;
    while i < |entries|
      invariant 0 <= i <= |entries|
      invariant snippetsByLanguage == Converted(entries[..i])
    {
      var name, snippet := entries[i].0, entries[i].1;
      var zedSnippet := ToZed(snippet);
      var languages := ScopePieces(snippet);
      snippetsByLanguage := AddToLanguages(snippetsByLanguage, name, zedSnippet, languages);
      ConvertedSnoc(entries, i);
      i := i + 1;
    }
    assert entries[..i] == entries;
    result := Emit(snippetsByLanguage);
    EmitMeaning(entries);
  }

  /** The inner `languages.forEach`: writes `z` under `name` into the group of each resolved piece. */
  method AddToLanguages(groups: Groups, name: string, z: ZedSnippet, languages: seq<string>)
    returns (snippetsByLanguage: Groups)
    ensures snippetsByLanguage == AddSnippet(groups, name, z, ResolveAll(languages))
  {
    snippetsByLanguage := groups;
    var j := 0;
    while j < |languages|
      invariant 0 <= j <= |languages|
      invariant snippetsByLanguage == AddSnippet(groups, name, z, ResolveAll(languages)[..j])
    {
      var zedLang := ResolveLanguage(languages[j]);
      ghost var prev := snippetsByLanguage;
      if zedLang !in Keys(snippetsByLanguage) {
        snippetsByLanguage := Put(snippetsByLanguage, zedLang, []);
      }
      var languageSnippets := Lookup(snippetsByLanguage, zedLang).value;
      snippetsByLanguage := Put(snippetsByLanguage, zedLang, Put(languageSnippets, name, z));
      InsertAsWritten(prev, zedLang, name, z);
      AddSnippetSnoc(groups, name, z, ResolveAll(languages), j);
      j := j + 1;
    }
    assert ResolveAll(languages)[..j] == ResolveAll(languages);
  }

  /** What the emitted result holds, in terms of the entries alone. */
  lemma EmitMeaning(entries: seq<Entry>)
    ensures var result := Emit(Converted(entries));
            && |result| == |Dedup(AllLanguages(entries))|
            && (forall k :: 0 <= k < |result| ==>
                  && result[k].language == Dedup(AllLanguages(entries))[k]
                  && result[k].snippets == GroupFor(entries, result[k].language)
                  && |result[k].snippets| > 0)
            && (|result| == 0 <==> |entries| == 0)
  {
    var groups := Converted(entries);
    var result := Emit(groups);
    var langs := Dedup(AllLanguages(entries));
    LanguageOrder(entries);
    GroupsNonEmpty(entries);
    GroupsArePerLanguage(entries);
    ResultEmptyIffNoEntries(entries);
    assert |result| == |groups| == |Keys(groups)| == |langs|;
    forall k | 0 <= k < |result|
      ensures && result[k].language == langs[k]
              && result[k].snippets == GroupFor(entries, result[k].language)
              && |result[k].snippets| > 0
    {
      assert result[k] == LanguageSnippets(groups[k].0, groups[k].1);
      assert Keys(groups)[k] == groups[k].0;
    }
  }

  /** Each group of the accumulator, read by position, is its language's group built on its own. */
  lemma GroupsArePerLanguage(entries: seq<Entry>)
    ensures var groups := Converted(entries);
            forall k :: 0 <= k < |groups| ==> groups[k].1 == GroupFor(entries, groups[k].0)
  {
    var groups := Converted(entries);
    LanguageOrder(entries);
    DedupIsFirstOccurrenceOrder(AllLanguages(entries));
    forall k | 0 <= k < |groups|
      ensures groups[k].1 == GroupFor(entries, groups[k].0)
    {
      GroupIsPerLanguage(entries, groups[k].0);
      LookupAt(groups, k);
    }
  }

  lemma ConvertedSnoc(entries: seq<Entry>, i: nat)
    requires i < |entries|
    ensures Converted(entries[..i + 1]) ==
            AddSnippet(Converted(entries[..i]), entries[i].0, ToZed(entries[i].1), ResolveAll(ScopePieces(entries[i].1)))
  {
    assert entries[..i + 1][..i] == entries[..i];
  }

  lemma AddSnippetSnoc(groups: Groups, name: string, z: ZedSnippet, langs: seq<string>, j: nat)
    requires j < |langs|
    ensures AddSnippet(groups, name, z, langs[..j + 1]) == Insert(AddSnippet(groups, name, z, langs[..j]), langs[j], name, z)
  {
    assert langs[..j + 1][..j] == langs[..j];
  }

  /** The has / set / get / write sequence of the loop body is one `Insert`. */
  lemma InsertAsWritten(groups: Groups, lang: string, name: string, z: ZedSnippet)
    ensures var g := if lang !in Keys(groups) then Put(groups, lang, []) else groups;
            Lookup(g, lang).Some? &&
            Put(g, lang, Put(Lookup(g, lang).value, name, z)) == Insert(groups, lang, name, z)
  {
    if lang !in Keys(groups) {
      LookupAfterPut(groups, lang, [], lang);
      PutPut(groups, lang, [], Put([], name, z));
    }
  }

  // ---------------------------------------------------------------------------
  // The result's languages.

  lemma {:induction false} KeysAfterAddSnippet(groups: Groups, name: string, z: ZedSnippet, langs: seq<string>)
    ensures Keys(AddSnippet(groups, name, z, langs)) == AppendNew(Keys(groups), langs)
  {
    if langs != [] {
      KeysAfterAddSnippet(groups, name, z, langs[..|langs| - 1]);
    }
  }

  /** The result's languages are the resolved languages in first-seen order. */
  lemma {:induction false} LanguageOrder(entries: seq<Entry>)
    ensures Keys(Converted(entries)) == Dedup(AllLanguages(entries))
  {
    if entries != [] {
      var p, last := entries[..|entries| - 1], entries[|entries| - 1];
      LanguageOrder(p);
      KeysAfterAddSnippet(Converted(p), last.0, ToZed(last.1), Languages(last.1));
      AppendNewConcat([], AllLanguages(p), Languages(last.1));
    }
  }

  /**
   * Spelled out: the result names each language once, names exactly the
   * languages some entry resolves to, and a language comes before another
   * exactly when it was resolved first.
   */
  lemma ResultLanguages(entries: seq<Entry>)
    ensures Distinct(Keys(Converted(entries)))
    ensures forall lang :: lang in Keys(Converted(entries)) <==> lang in AllLanguages(entries)
    ensures var ks, all := Keys(Converted(entries)), AllLanguages(entries);
            forall i, j, q :: 0 <= i < j < |ks| && 0 <= q < |all| && all[q] == ks[j] ==> ks[i] in all[..q]
  {
    LanguageOrder(entries);
    DedupIsFirstOccurrenceOrder(AllLanguages(entries));
  }

  /** No entries, no groups; and every entry creates at least one group. */
  lemma ResultEmptyIffNoEntries(entries: seq<Entry>)
    ensures |Converted(entries)| == 0 <==> |entries| == 0
  {
    if entries != [] {
      var p, last := entries[..|entries| - 1], entries[|entries| - 1];
      var langs := Languages(last.1);
      LanguagesOfScope(last.1);
      var h := AddSnippet(Converted(p), last.0, ToZed(last.1), langs[..|langs| - 1]);
      assert langs[|langs| - 1] in Keys(Insert(h, langs[|langs| - 1], last.0, ToZed(last.1)));
    }
  }

  // ---------------------------------------------------------------------------
  // The groups.

  lemma GroupAfterInsert(groups: Groups, lang: string, name: string, z: ZedSnippet, l: string)
    ensures GetOrEmpty(Insert(groups, lang, name, z), l) ==
              if l == lang then Put(GetOrEmpty(groups, l), name, z) else GetOrEmpty(groups, l)
  {
    LookupAfterPut(groups, lang, Put(GetOrEmpty(groups, lang), name, z), l);
  }

  /**
   * Writing a snippet under a list of languages changes exactly the groups of
   * those languages, and each of them by one write however often its language
   * is repeated (two aliases of one language give one entry).
   */
  lemma {:induction false} GroupAfterAddSnippet(groups: Groups, name: string, z: ZedSnippet, langs: seq<string>, l: string)
    ensures GetOrEmpty(AddSnippet(groups, name, z, langs), l) ==
              if l in langs then Put(GetOrEmpty(groups, l), name, z) else GetOrEmpty(groups, l)
  {
    if langs != [] {
      var init, lang := langs[..|langs| - 1], langs[|langs| - 1];
      assert langs == init + [lang];
      GroupAfterAddSnippet(groups, name, z, init, l);
      GroupAfterInsert(AddSnippet(groups, name, z, init), lang, name, z, l);
      if l == lang && l in init {
        PutPut(GetOrEmpty(groups, l), name, z, z);
      }
    }
  }

  /** The group of each language is the document built from that language's entries alone. */
  lemma {:induction false} GroupIsPerLanguage(entries: seq<Entry>, lang: string)
    ensures GetOrEmpty(Converted(entries), lang) == GroupFor(entries, lang)
  {
    if entries != [] {
      var p, last := entries[..|entries| - 1], entries[|entries| - 1];
      GroupIsPerLanguage(p, lang);
      GroupAfterAddSnippet(Converted(p), last.0, ToZed(last.1), Languages(last.1), lang);
    }
  }

  predicate AllNonEmpty(groups: Groups)
  {
    forall k :: 0 <= k < |groups| ==> groups[k].1 != []
  }

  lemma InsertKeepsNonEmpty(groups: Groups, lang: string, name: string, z: ZedSnippet)
    requires AllNonEmpty(groups)
    ensures AllNonEmpty(Insert(groups, lang, name, z))
  {
    var v := Put(GetOrEmpty(groups, lang), name, z);
    assert name in Keys(v);
    var r := Insert(groups, lang, name, z);
    PutPairs(groups, lang, v);
    forall k | 0 <= k < |r| ensures r[k].1 != [] {
      assert r[k] in r;
      if r[k] != (lang, v) {
        var i :| 0 <= i < |groups| && groups[i] == r[k];
      }
    }
  }

  lemma {:induction false} AddSnippetKeepsNonEmpty(groups: Groups, name: string, z: ZedSnippet, langs: seq<string>)
    requires AllNonEmpty(groups)
    ensures AllNonEmpty(AddSnippet(groups, name, z, langs))
  {
    if langs != [] {
      AddSnippetKeepsNonEmpty(groups, name, z, langs[..|langs| - 1]);
      InsertKeepsNonEmpty(AddSnippet(groups, name, z, langs[..|langs| - 1]), langs[|langs| - 1], name, z);
    }
  }

  /** A group is created only to receive a snippet, so no emitted group is empty. */
  lemma {:induction false} GroupsNonEmpty(entries: seq<Entry>)
    ensures forall k :: 0 <= k < |Converted(entries)| ==> |Converted(entries)[k].1| > 0
  {
    if entries != [] {
      var p, last := entries[..|entries| - 1], entries[|entries| - 1];
      GroupsNonEmpty(p);
      AddSnippetKeepsNonEmpty(Converted(p), last.0, ToZed(last.1), Languages(last.1));
    }
  }

  /** A group lists its names once each, in the order they were first written. */
  lemma {:induction false} GroupNameOrder(entries: seq<Entry>, lang: string)
    ensures Keys(GroupFor(entries, lang)) == Dedup(NamesIn(entries, lang))
  {
    if entries != [] {
      var p, last := entries[..|entries| - 1], entries[|entries| - 1];
      GroupNameOrder(p, lang);
      if lang in Languages(last.1) {
        var ns := NamesIn(p, lang) + [last.0];
        assert NamesIn(entries, lang) == ns;
        assert ns[..|ns| - 1] == NamesIn(p, lang);
        assert Dedup(ns) == if last.0 in Dedup(NamesIn(p, lang)) then Dedup(NamesIn(p, lang))
                            else Dedup(NamesIn(p, lang)) + [last.0];
        assert GroupFor(entries, lang) == Put(GroupFor(p, lang), last.0, ToZed(last.1));
      } else {
        assert NamesIn(entries, lang) == NamesIn(p, lang) + [];
        assert NamesIn(p, lang) + [] == NamesIn(p, lang);
      }
    }
  }

  /** A name is in its group for `lang` exactly when an entry of that name resolves to `lang`. */
  lemma NamesInMembers(entries: seq<Entry>, lang: string, name: string)
    ensures name in NamesIn(entries, lang) <==>
              exists i :: 0 <= i < |entries| && entries[i].0 == name && lang in Languages(entries[i].1)
  {
    if name in NamesIn(entries, lang) {
      var i := NameInNamesInHasEntry(entries, lang, name);
    }
    if exists i :: 0 <= i < |entries| && entries[i].0 == name && lang in Languages(entries[i].1) {
      var i :| 0 <= i < |entries| && entries[i].0 == name && lang in Languages(entries[i].1);
      EntryNameInNamesIn(entries, lang, i);
    }
  }

  lemma {:induction false} NameInNamesInHasEntry(entries: seq<Entry>, lang: string, name: string) returns (i: nat)
    requires name in NamesIn(entries, lang)
    ensures i < |entries| && entries[i].0 == name && lang in Languages(entries[i].1)
  {
    var p, n := entries[..|entries| - 1], |entries| - 1;
    if name in NamesIn(p, lang) {
      i := NameInNamesInHasEntry(p, lang, name);
      assert entries[i] == p[i];
    } else {
      i := n;
    }
  }

  lemma {:induction false} EntryNameInNamesIn(entries: seq<Entry>, lang: string, i: nat)
    requires i < |entries| && lang in Languages(entries[i].1)
    ensures entries[i].0 in NamesIn(entries, lang)
  {
    var p, n := entries[..|entries| - 1], |entries| - 1;
    if i < n {
      assert p[i] == entries[i];
      EntryNameInNamesIn(p, lang, i);
    }
  }

  lemma GroupMembership(entries: seq<Entry>, lang: string, name: string)
    ensures name in Keys(GetOrEmpty(Converted(entries), lang)) <==>
              exists i :: 0 <= i < |entries| && entries[i].0 == name && lang in Languages(entries[i].1)
    ensures Distinct(Keys(GetOrEmpty(Converted(entries), lang)))
  {
    GroupIsPerLanguage(entries, lang);
    GroupNameOrder(entries, lang);
    DedupIsFirstOccurrenceOrder(NamesIn(entries, lang));
    NamesInMembers(entries, lang, name);
  }

  /** Last write wins, per language: the value under a name is the last entry of that name for the language. */
  lemma {:induction false} GroupValues(entries: seq<Entry>, lang: string, name: string)
    ensures Lookup(GroupFor(entries, lang), name) == LastWrite(entries, lang, name)
  {
    if entries != [] {
      var p, last := entries[..|entries| - 1], entries[|entries| - 1];
      GroupValues(p, lang, name);
      LookupAfterPut(GroupFor(p, lang), last.0, ToZed(last.1), name);
    }
  }

  lemma {:induction false} LastWriteOfUnique(entries: seq<Entry>, i: nat, lang: string)
    requires UniqueNames(entries) && i < |entries| && lang in Languages(entries[i].1)
    ensures LastWrite(entries, lang, entries[i].0) == Some(ToZed(entries[i].1))
  {
    var p := entries[..|entries| - 1];
    if i < |entries| - 1 {
      assert entries[|entries| - 1].0 != entries[i].0;
      assert UniqueNames(p) by {
        assert forall a :: 0 <= a < |p| ==> p[a] == entries[a];
      }
      LastWriteOfUnique(p, i, lang);
    }
  }

  /** With distinct names (object keys), each group holds exactly the projection of each entry. */
  lemma SnippetInEveryScopeGroup(entries: seq<Entry>, i: nat, lang: string)
    requires UniqueNames(entries) && i < |entries| && lang in Languages(entries[i].1)
    ensures Lookup(GetOrEmpty(Converted(entries), lang), entries[i].0) == Some(ToZed(entries[i].1))
  {
    GroupIsPerLanguage(entries, lang);
    GroupValues(entries, lang, entries[i].0);
    LastWriteOfUnique(entries, i, lang);
  }

  /** With distinct names, an entry is in exactly the groups of the languages its scope resolves to. */
  lemma InExactlyItsGroups(entries: seq<Entry>, i: nat, lang: string)
    requires UniqueNames(entries) && i < |entries|
    ensures entries[i].0 in Keys(GetOrEmpty(Converted(entries), lang)) <==> lang in Languages(entries[i].1)
  {
    var name := entries[i].0;
    GroupMembership(entries, lang, name);
    if name in Keys(GetOrEmpty(Converted(entries), lang)) {
      var j :| 0 <= j < |entries| && entries[j].0 == name && lang in Languages(entries[j].1);
      assert j == i;
    }
  }

  /** An entry without a (non-empty) scope is placed in the "*" group and in no other. */
  lemma UnscopedOnlyInWildcard(entries: seq<Entry>, i: nat, lang: string)
    requires UniqueNames(entries) && i < |entries|
    requires entries[i].1.scope.None? || entries[i].1.scope == Some("")
    ensures entries[i].0 in Keys(GetOrEmpty(Converted(entries), lang)) <==> lang == "*"
  {
    UnscopedLanguages(entries[i].1);
    OnlyWildcardLanguage(entries, i, lang);
  }

  lemma OnlyWildcardLanguage(entries: seq<Entry>, i: nat, lang: string)
    requires UniqueNames(entries) && i < |entries| && Languages(entries[i].1) == ["*"]
    ensures entries[i].0 in Keys(GetOrEmpty(Converted(entries), lang)) <==> lang == "*"
  {
    InExactlyItsGroups(entries, i, lang);
  }
}
