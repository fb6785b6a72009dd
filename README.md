# VS Code to Zed snippet conversion, modelled in Dafny

This project models `convertVSCodeToZedSnippets` in
`utils/convert-vscode-to-zed-snippets.ts` and its alias table
`VSCODE_TO_ZED_LANGUAGE_MAP`. The function reads a VS Code snippet document
and produces one Zed snippet document per Zed language:

- Each snippet is projected onto Zed's fields. The body becomes an array of
  lines. The description is kept only when it is a non-empty string.
- The snippet's `scope` is split on commas and each piece is trimmed. Each
  piece is then looked up in the alias table, and an unknown piece is kept
  verbatim. An absent or empty scope means `"*"`.
- The snippet is written under its name into the group of every language it
  resolves to. Groups live in an insertion-ordered `Map`, and each group is a
  plain object.
- The groups are emitted in the order their languages were first seen.

Files:

- `wrappers.dfy`: `Option`.
- `ordered_dict.dfy`: an insertion-ordered dictionary with string keys. It
  models both the `Map` and the per-language plain objects: writing a new key
  appends it, and writing an existing key replaces its value in place. The file
  also defines `Dedup`, the first-occurrence order of a sequence.
- `strings.dfy`: ECMAScript `trim` over the WhiteSpace and LineTerminator
  characters, and `split`/`join` on a one-character separator.
- `snippets.dfy`: the two snippet formats, the projection `ToZed`, the alias
  table and scope resolution.
- `convert.dfy`: the conversion.
  - `ConvertVSCodeToZedSnippets` is an imperative method. Its two nested loops
    mirror the two `forEach` calls, and its inner loop does the same
    `has`/`set`/`get`/write steps as the source.
  - The method is proved equal to the left fold `Converted` followed by `Emit`.
  - `Converted` is then related to reference definitions stated from the
    entries alone. `AllLanguages` lists every resolved language. `GroupFor`
    builds one language's document on its own. `NamesIn` lists the names
    written to a language. `LastWrite` gives the last entry written under a
    name.
- `examples.dfy`: worked conversions. They include the usage example from the
  source's own documentation.

The input is the parsed document as a sequence of `(name, snippet)` entries in
key order. The method does not require names to be distinct, and its contract
gives the general last-write-wins result. Distinct names, which always hold for
the keys of a parsed object, are assumed only by the lemmas that require
`UniqueNames`: `LastWriteOfUnique`, `SnippetInEveryScopeGroup`,
`InExactlyItsGroups`, `UnscopedOnlyInWildcard` and `OnlyWildcardLanguage`.

The data model follows the source's interfaces (lines 3-27): `VSBody` and
`VSSnippet` for a VS Code snippet, `ZedSnippet` for a Zed snippet,
`LanguageSnippets` for one element of the result, and `Snippets.Aliases` for
the table `VSCODE_TO_ZED_LANGUAGE_MAP` (lines 34-40).

Empty scope pieces are not filtered: `"rust,"` gives the languages
`"rust.json"` and `""` (`Examples.TrailingCommaGivesEmptyLanguage`).

The usage comment at lines 121-145 labels the output groups `'typescript'` and
`'javascript'`. The code names them `typescript.json` and `javascript.json`
(`Examples.SolidPageExample`).

## Model

| member | source | states |
|---|---|---|
| Snippets.ToZed | utils/convert-vscode-to-zed-snippets.ts:52-59 | The prefix is copied. An array body is copied unchanged, and a string body becomes the one-line array holding that string. The description is present exactly when the source description is present and non-empty, and then it is equal to it. The result never carries an empty description. |
| Snippets.ToZedFromZed | utils/convert-vscode-to-zed-snippets.ts:52-59 | Every Zed snippet without an empty description is the projection of its own VS Code reading, so the projection loses nothing that Zed can hold. |
| Snippets.ProjectionIsInjectiveOnLines | utils/convert-vscode-to-zed-snippets.ts:52-59 | For array bodies with the same scope and no empty description, two snippets project to the same Zed snippet if and only if they are equal. |
| Snippets.ResolveLanguage | utils/convert-vscode-to-zed-snippets.ts:66 | `VSCODE_TO_ZED_LANGUAGE_MAP[vscodeLang] \|\| vscodeLang`: a piece that is a key of the table resolves to the table's value, and any other piece resolves to itself. |
| Snippets.TrimAll | utils/convert-vscode-to-zed-snippets.ts:62 | `.map((lang) => lang.trim())`: each piece trimmed, in order. What this gives is stated by `Snippets.LanguagesOfScope`. |
| Snippets.ResolveAll | utils/convert-vscode-to-zed-snippets.ts:65-66 | Each trimmed piece resolved through the table, in order. What this gives is stated by `Snippets.LanguagesOfScope`. |
| Snippets.Languages | utils/convert-vscode-to-zed-snippets.ts:62-66 | The Zed languages of one snippet, in scope order with repeats. Stated in full by `Snippets.LanguagesOfScope` and `Snippets.UnscopedLanguages`. |
| Snippets.ResolveIsLookupOrIdentity | utils/convert-vscode-to-zed-snippets.ts:34-40 | `MAP[piece] \|\| piece` is the table value when the piece is a key and the piece itself otherwise, because no table value is empty. A resolved language is a table value or the piece. |
| Snippets.ScopePieces | utils/convert-vscode-to-zed-snippets.ts:62 | A scope always yields at least one language piece. |
| Snippets.UnscopedLanguages | utils/convert-vscode-to-zed-snippets.ts:62 | An absent or empty scope resolves to `["*"]` alone. |
| Snippets.LanguagesOfScope | utils/convert-vscode-to-zed-snippets.ts:62-66 | Full scope resolution. There is at least one language. An absent or empty scope gives `["*"]`. Otherwise there is one language per comma-separated piece, in order. The pieces hold no comma and join back to the scope. Each language is the trimmed piece looked up in the table, or the trimmed piece when the table has no entry. |
| Snippets.ScopedLanguages | utils/convert-vscode-to-zed-snippets.ts:62-66 | The case of a non-empty scope in `LanguagesOfScope`. |
| Strings.IsWhitespace | utils/convert-vscode-to-zed-snippets.ts:62 | The characters `String.prototype.trim` removes: ECMAScript WhiteSpace (tab, vertical tab, form feed, space, no-break space, the byte order mark and the Zs category) and LineTerminator (line feed, carriage return, the line and paragraph separators). |
| Strings.TrimStart | utils/convert-vscode-to-zed-snippets.ts:62 | Drops leading whitespace. Stated by `Strings.TrimStartIsSuffix`. |
| Strings.TrimEnd | utils/convert-vscode-to-zed-snippets.ts:62 | Drops trailing whitespace. Stated by `Strings.TrimEndIsPrefix`. |
| Strings.Trim | utils/convert-vscode-to-zed-snippets.ts:62 | `lang.trim()`. Stated by `Strings.TrimIsInnerSlice` and `Strings.TrimIdempotent`. |
| Strings.TrimStartIsSuffix | utils/convert-vscode-to-zed-snippets.ts:62 | Trimming the start drops a whitespace-only prefix and leaves a string that is empty or starts with non-whitespace. |
| Strings.TrimEndIsPrefix | utils/convert-vscode-to-zed-snippets.ts:62 | Trimming the end drops a whitespace-only suffix and leaves a string that is empty or ends with non-whitespace. |
| Strings.TrimIsInnerSlice | utils/convert-vscode-to-zed-snippets.ts:62 | `trim` returns a slice of its input with only whitespace cut on either side, and the slice neither starts nor ends with whitespace. |
| Strings.TrimIdempotent | utils/convert-vscode-to-zed-snippets.ts:62 | Trimming twice is the same as trimming once. |
| Strings.IndexOf | utils/convert-vscode-to-zed-snippets.ts:62 | The position of the first separator: the character there is the separator, and no earlier character is. |
| Strings.Split | utils/convert-vscode-to-zed-snippets.ts:62 | `split` always returns at least one piece. Empty pieces are kept. |
| Strings.SplitJoin | utils/convert-vscode-to-zed-snippets.ts:62 | The split pieces hold no separator and join back to the original string. |
| Strings.JoinSplit | utils/convert-vscode-to-zed-snippets.ts:62 | Separator-free pieces joined by the separator split back into exactly those pieces. |
| OrderedDict.Keys | utils/convert-vscode-to-zed-snippets.ts:47 | The keys of a dictionary in insertion order: one key per stored pair, the k-th key being the key of the k-th pair. |
| OrderedDict.GetOrEmpty | utils/convert-vscode-to-zed-snippets.ts:68-71 | The group stored under a language, or an empty group when there is none. How the loop body uses it is stated by `Converter.InsertAsWritten`. |
| OrderedDict.Lookup | utils/convert-vscode-to-zed-snippets.ts:68-71 | `get` finds nothing exactly when `has` is false. When it finds a value, that key-value pair is stored. |
| OrderedDict.Put | utils/convert-vscode-to-zed-snippets.ts:69-72 | `set` keeps the key order when the key exists and appends the key when it is new. |
| OrderedDict.LookupAfterPut | utils/convert-vscode-to-zed-snippets.ts:69-72 | After a write, the written key reads back the new value and every other key reads as before. |
| OrderedDict.PutPairs | utils/convert-vscode-to-zed-snippets.ts:69-72 | A write adds the written pair and nothing that was not stored before. |
| OrderedDict.PutPut | utils/convert-vscode-to-zed-snippets.ts:72 | A second write to a key overrides the first, and the key keeps its first position. |
| OrderedDict.LookupAt | utils/convert-vscode-to-zed-snippets.ts:71 | With distinct keys, the key at a position reads back the value at that position. |
| OrderedDict.AppendNewFacts | utils/convert-vscode-to-zed-snippets.ts:68-70 | Adding keys one by one keeps the existing keys as a prefix. It adds each new key once and adds nothing else. |
| OrderedDict.DedupIsFirstOccurrenceOrder | utils/convert-vscode-to-zed-snippets.ts:47 | The first-occurrence order holds each element once and holds exactly the elements of the input. An element comes before another only if it has occurred before any occurrence of the other. |
| Converter.Insert | utils/convert-vscode-to-zed-snippets.ts:68-72 | One write of a snippet under its name into the group of one language, creating the group when absent. Stated by `Converter.InsertAsWritten` and `Converter.GroupAfterInsert`. |
| Converter.AddSnippet | utils/convert-vscode-to-zed-snippets.ts:65-73 | The inner `forEach`: one `Insert` per resolved language, left to right. Stated by `Converter.KeysAfterAddSnippet` and `Converter.GroupAfterAddSnippet`. |
| Converter.Converted | utils/convert-vscode-to-zed-snippets.ts:47-74 | The `Map` after the outer `forEach` over all entries in order. Stated by `Converter.LanguageOrder`, `Converter.GroupIsPerLanguage`, `Converter.GroupsNonEmpty` and `Converter.GroupValues`. |
| Converter.Emit | utils/convert-vscode-to-zed-snippets.ts:77-80 | `Array.from(snippetsByLanguage.entries()).map(...)`: one `LanguageSnippets` per group, in the `Map`'s order. Stated by `Converter.EmitMeaning`. |
| Converter.ConvertVSCodeToZedSnippets | utils/convert-vscode-to-zed-snippets.ts:42-81 | The emitted array is `Emit(Converted(entries))`. It has one element per distinct resolved language, in first-seen order. The k-th element's snippets are exactly that language's document built from its own entries (`GroupFor`), and that document is non-empty. The array is empty exactly when there are no entries. |
| Converter.AddToLanguages | utils/convert-vscode-to-zed-snippets.ts:65-73 | The inner loop over a snippet's language pieces leaves the accumulator as `AddSnippet` over the resolved pieces, in order. |
| Converter.InsertAsWritten | utils/convert-vscode-to-zed-snippets.ts:68-72 | The `has`/`set(zedLang, {})`/`get`/`[name] =` sequence never reads a missing group. It amounts to one `Insert` of the snippet into its language's group. |
| Converter.ConvertedSnoc | utils/convert-vscode-to-zed-snippets.ts:50-74 | Processing one more entry applies `AddSnippet` for that entry's resolved languages to the accumulator. |
| Converter.AddSnippetSnoc | utils/convert-vscode-to-zed-snippets.ts:65-73 | Processing one more language piece applies one `Insert` to the accumulator. |
| Converter.EmitMeaning | utils/convert-vscode-to-zed-snippets.ts:77-80 | The emitted array, described from the entries alone: languages in first-seen order, each with its own non-empty document, and empty exactly when there are no entries. |
| Converter.GroupsArePerLanguage | utils/convert-vscode-to-zed-snippets.ts:65-73 | Each group of the accumulator, read by position, is its language's document built on its own. |
| Converter.KeysAfterAddSnippet | utils/convert-vscode-to-zed-snippets.ts:68-70 | Writing a snippet under some languages appends, in order, those languages that had no group yet. |
| Converter.LanguageOrder | utils/convert-vscode-to-zed-snippets.ts:47 | The result's languages are the first-occurrence order of all resolved languages, walking the entries and then each scope left to right. |
| Converter.ResultLanguages | utils/convert-vscode-to-zed-snippets.ts:77 | The output languages are pairwise distinct, are exactly the languages some entry resolves to, and appear in the order they were first resolved. |
| Converter.ResultEmptyIffNoEntries | utils/convert-vscode-to-zed-snippets.ts:68-72 | The accumulator is empty exactly when there are no entries, since every entry resolves to at least one language. |
| Converter.GroupAfterInsert | utils/convert-vscode-to-zed-snippets.ts:68-72 | One write changes only the group of its own language, and that group by one `Put` of the name. |
| Converter.GroupAfterAddSnippet | utils/convert-vscode-to-zed-snippets.ts:65-73 | Writing a snippet under a list of languages changes exactly the groups of those languages. Each changes by a single write however often it is repeated, so two aliases of one language give one entry. |
| Converter.GroupIsPerLanguage | utils/convert-vscode-to-zed-snippets.ts:65-73 | Each language's group equals that language's document built only from the entries resolving to it. |
| Converter.InsertKeepsNonEmpty | utils/convert-vscode-to-zed-snippets.ts:68-72 | A group is created only to receive a snippet, so if all groups were non-empty they stay non-empty after a write. |
| Converter.AddSnippetKeepsNonEmpty | utils/convert-vscode-to-zed-snippets.ts:65-73 | Writing a snippet under several languages keeps every group non-empty. |
| Converter.GroupsNonEmpty | utils/convert-vscode-to-zed-snippets.ts:68-72 | Every group of the result is non-empty. |
| Converter.GroupNameOrder | utils/convert-vscode-to-zed-snippets.ts:72 | A group's names are unique and in the order they were first written. |
| Converter.NamesInMembers | utils/convert-vscode-to-zed-snippets.ts:65-73 | A name is written to a language exactly when some entry of that name resolves to the language. |
| Converter.NameInNamesInHasEntry | utils/convert-vscode-to-zed-snippets.ts:65-73 | A name written to a language comes from an entry of that name that resolves to the language. |
| Converter.EntryNameInNamesIn | utils/convert-vscode-to-zed-snippets.ts:65-73 | An entry's name is written to every language the entry resolves to. |
| Converter.GroupMembership | utils/convert-vscode-to-zed-snippets.ts:65-73 | A language's group holds a name exactly when some entry of that name resolves to the language, and the group's names are distinct. |
| Converter.GroupValues | utils/convert-vscode-to-zed-snippets.ts:72 | Last write wins per language: the value under a name is the projection of the last entry of that name that resolves to the language. |
| Converter.LastWriteOfUnique | utils/convert-vscode-to-zed-snippets.ts:72 | With distinct names, the last write to an entry's name for one of its languages is that entry's projection. |
| Converter.SnippetInEveryScopeGroup | utils/convert-vscode-to-zed-snippets.ts:65-73 | With distinct names, every group an entry's scope resolves to holds exactly that entry's projection under its name. |
| Converter.InExactlyItsGroups | utils/convert-vscode-to-zed-snippets.ts:65-73 | With distinct names, an entry is in a language's group exactly when its scope resolves to that language. |
| Converter.UnscopedOnlyInWildcard | utils/convert-vscode-to-zed-snippets.ts:62 | With distinct names, an entry with an absent or empty scope is in the `"*"` group and in no other. |
| Converter.OnlyWildcardLanguage | utils/convert-vscode-to-zed-snippets.ts:62 | With distinct names, an entry whose only language is `"*"` is in the `"*"` group and in no other. |
| Examples.RustAndUnknown | utils/convert-vscode-to-zed-snippets.ts:62-66 | `"rust, foo"` resolves to `["rust.json", "foo"]`: pieces are trimmed, and an unknown piece is kept verbatim. |
| Examples.TrailingCommaGivesEmptyLanguage | utils/convert-vscode-to-zed-snippets.ts:62 | `"rust,"` resolves to `["rust.json", ""]`: empty pieces are not dropped. |
| Examples.TwoPieceScope | utils/convert-vscode-to-zed-snippets.ts:62 | `a,b` with comma-free, already trimmed `a` and `b` gives the pieces `[a, b]`. |
| Examples.AliasesOfOneLanguageMerge | utils/convert-vscode-to-zed-snippets.ts:35-36 | A snippet resolving twice to `tsx.json` gives one group holding the snippet once. |
| Examples.ReactScopeGivesOneEntry | utils/convert-vscode-to-zed-snippets.ts:35-36 | `"typescriptreact,javascriptreact"` gives the single group `tsx.json` with one entry. |
| Examples.TwoLanguagesTwoGroups | utils/convert-vscode-to-zed-snippets.ts:65-80 | A snippet resolving to two different languages gives two groups, in scope order, each holding the snippet. |
| Examples.SolidScope | utils/convert-vscode-to-zed-snippets.ts:112 | The scope `"typescript,javascript"` resolves to `["typescript.json", "javascript.json"]`. |
| Examples.SolidPageGroups | utils/convert-vscode-to-zed-snippets.ts:121-145 | A snippet resolving to `typescript.json` and then `javascript.json` gives those two groups, in that order, each holding the snippet. |
| Examples.SolidPageExample | utils/convert-vscode-to-zed-snippets.ts:108-145 | The documented usage example, converted in full: two groups holding the snippet with its prefix, body and description unchanged. |
| Examples.GreetExample | utils/convert-vscode-to-zed-snippets.ts:42-81 | A one-snippet document scoped to `typescript`, converted in full, gives one group `typescript.json`. |
| Examples.StringBodyNoScope | utils/convert-vscode-to-zed-snippets.ts:52-62 | A string body, an empty description and no scope give one line, no description key and the group `"*"`. |

## Left out

- The `jsonc-parser` call (line 44) is left out. It is a foreign, error-tolerant parser. The model starts from the parsed document as a sequence of entries in key order, and the text of the document is not modelled.
- Only well-typed input is modelled. `prefix` is a string, `body` is a string or an array of strings, and `description` and `scope` are absent or strings. The source's behaviour on other JSON values, such as a missing body becoming `[undefined]`, is not modelled.
- Object-key quirks of JavaScript are left out because they have no counterpart in the logic:
  - Alias lookups that hit `Object.prototype`, such as a piece `"constructor"`.
  - Writing a name such as `"__proto__"` into a group object.
  - The reordering of integer-like keys in the parsed document and in the per-language objects.
- One `zedSnippet` object is shared by reference by all of its groups. In the value model each group holds an equal copy.
- `Strings.IsWhitespace` lists the ECMAScript WhiteSpace and LineTerminator code points, taking the Zs category as of current Unicode. Engines on an older Unicode version may differ.
- `pages/index/+Page.tsx` and `pages/+Layout.tsx` are not part of this model. They hold the editors, the debounced conversion, local storage, the clipboard, theming, the `JSON.stringify` output and page layout, all of which is UI and I/O.
