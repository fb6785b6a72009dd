/**
 * The two snippet formats and the per-snippet part of the conversion:
 * projecting a VS Code snippet onto Zed's fields, and resolving its `scope`
 * to the Zed language identifiers it belongs to.
 */
module Snippets {
  import opened Wrappers
  import opened Strings

  /** A VS Code body: one line, or an array of lines. */
  datatype VSBody = Str(text: string) | Lines(lines: seq<string>)

  datatype VSSnippet = VSSnippet(
    prefix: string,
    body: VSBody,
    description: Option<string>,
    scope: Option<string>)

  /** A Zed snippet: the body is always an array; `description` is an optional key. */
  datatype ZedSnippet = ZedSnippet(
    prefix: string,
    body: seq<string>,
    description: Option<string>)

  /** Zed output never carries an empty description; the key is left out instead. */
  predicate WellFormedZed(z: ZedSnippet)
  {
    z.description != Some("")
  }

  /** The Zed form of one snippet (body normalised, description kept only when non-empty). */
  function ToZed(s: VSSnippet): (z: ZedSnippet)
    ensures z.prefix == s.prefix
    ensures z.body == match s.body
                      case Str(line) => [line]
                      case Lines(lines) => lines
    ensures z.description.Some? <==> s.description.Some? && s.description.value != ""
    ensures z.description.Some? ==> z.description == s.description
    ensures WellFormedZed(z)
  {
    var body := if s.body.Lines? then s.body.lines else [s.body.text];
    var description := if s.description.Some? && s.description.value != "" then s.description else None;
    ZedSnippet(s.prefix, body, description)
  }

  /** A Zed snippet read back as a VS Code snippet that applies everywhere. */
  function FromZed(z: ZedSnippet): VSSnippet
  {
    VSSnippet(z.prefix, Lines(z.body), z.description, None)
  }

  /** Every well-formed Zed snippet is the projection of its own VS Code reading. */
  lemma ToZedFromZed(z: ZedSnippet)
    requires WellFormedZed(z)
    ensures ToZed(FromZed(z)) == z
  {
  }

  /** The projection keeps the whole snippet apart from its scope and the body's shape. */
  lemma ProjectionIsInjectiveOnLines(s: VSSnippet, t: VSSnippet)
    requires s.body.Lines? && t.body.Lines? && s.scope == t.scope
    requires s.description != Some("") && t.description != Some("")
    ensures ToZed(s) == ToZed(t) <==> s == t
  {
  }

  /** The VS Code language identifiers that Zed names differently. */
  const Aliases: map<string, string> := map[
    "typescriptreact" := "tsx.json",
    "javascriptreact" := "tsx.json",
    "typescript" := "typescript.json",
    "javascript" := "javascript.json",
    "rust" := "rust.json"
  ]

  /** `Aliases[piece] || piece`: the table entry if there is a non-empty one, else the piece verbatim. */
  function ResolveLanguage(piece: string): (lang: string)
    ensures piece in Aliases ==> lang == Aliases[piece]
    ensures piece !in Aliases ==> lang == piece
  {
    if piece in Aliases && Aliases[piece] != "" then Aliases[piece] else piece
  }

  /** Since no table value is empty, resolution is exactly lookup with an identity fallback. */
  lemma ResolveIsLookupOrIdentity(piece: string)
    ensures ResolveLanguage(piece) == if piece in Aliases then Aliases[piece] else piece
    ensures ResolveLanguage(piece) in Aliases.Values || ResolveLanguage(piece) == piece
  {
  }

  /** The scope's pieces, split on commas and trimmed, or `["*"]` for an absent or empty scope. */
  function ScopePieces(s: VSSnippet): (pieces: seq<string>)
    ensures |pieces| >= 1
  {
    if s.scope.None? || s.scope.value == "" then ["*"]
    else TrimAll(Split(s.scope.value, ','))
  }

  /** `pieces.map((lang) => lang.trim())`. */
  function TrimAll(pieces: seq<string>): seq<string>
  {
    seq(|pieces|, k requires 0 <= k < |pieces| => Trim(pieces[k]))
  }

  function ResolveAll(pieces: seq<string>): seq<string>
  {
    seq(|pieces|, k requires 0 <= k < |pieces| => ResolveLanguage(pieces[k]))
  }

  /** The Zed languages a snippet goes to, in scope order, repeats included. */
  function Languages(s: VSSnippet): seq<string>
  {
    ResolveAll(ScopePieces(s))
  }

  /** A snippet without a (non-empty) scope goes to `"*"` alone. */
  lemma UnscopedLanguages(s: VSSnippet)
    requires s.scope.None? || s.scope == Some("")
    ensures Languages(s) == ["*"]
  {
    assert "*" !in Aliases;
  }

  /**
   * Scope resolution in full: without a (non-empty) scope a snippet goes to
   * `"*"` alone; otherwise it goes, in order, to one language per comma
   * separated piece of the scope, the trimmed piece looked up in the alias
   * table and kept verbatim when the table has no entry. Some language
   * always results.
   */
  lemma LanguagesOfScope(s: VSSnippet)
    ensures |Languages(s)| >= 1
    ensures s.scope.None? || s.scope == Some("") ==> Languages(s) == ["*"]
    ensures s.scope.Some? && s.scope.value != "" ==>
              var pieces := Split(s.scope.value, ',');
              && |Languages(s)| == |pieces|
              && Join(pieces, ',') == s.scope.value && NoPieceHas(pieces, ',')
              && forall k :: 0 <= k < |pieces| ==>
                   var p := Trim(pieces[k]);
                   Languages(s)[k] == if p in Aliases then Aliases[p] else p
  {
    if s.scope.Some? && s.scope.value != "" {
      ScopedLanguages(s);
    } else {
      UnscopedLanguages(s);
    }
  }

  /** With a non-empty scope, one language per comma-separated piece, trimmed and then resolved. */
  lemma ScopedLanguages(s: VSSnippet)
    requires s.scope.Some? && s.scope.value != ""
    ensures var pieces := Split(s.scope.value, ',');
            && |Languages(s)| == |pieces|
            && Join(pieces, ',') == s.scope.value && NoPieceHas(pieces, ',')
            && forall k :: 0 <= k < |pieces| ==>
                 var p := Trim(pieces[k]);
                 Languages(s)[k] == if p in Aliases then Aliases[p] else p
  {
    var pieces := Split(s.scope.value, ',');
    SplitJoin(s.scope.value, ',');
    assert ScopePieces(s) == TrimAll(pieces);
    forall k | 0 <= k < |pieces|
      ensures var p := Trim(pieces[k]);
              Languages(s)[k] == if p in Aliases then Aliases[p] else p
    {
      assert Languages(s)[k] == ResolveLanguage(Trim(pieces[k]));
      ResolveIsLookupOrIdentity(Trim(pieces[k]));
    }
  }
}
