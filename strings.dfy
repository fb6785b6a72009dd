/**
 * The two JavaScript string operations the converter uses on a scope:
 * `String.prototype.split` with a one-character separator and
 * `String.prototype.trim`.
 */
module Strings {

  /**
   * The characters `trim` removes: ECMAScript's WhiteSpace (tab, vertical tab,
   * form feed, the byte order mark and every space separator of Unicode's
   * category Zs) and LineTerminator (line feed, carriage return, line and
   * paragraph separators).
   */
  predicate IsWhitespace(c: char)
  {
    || c == '\t' || c == '\U{000B}' || c == '\U{000C}' || c == ' ' || c == '\U{00A0}'
    || c == '\U{FEFF}' || c == '\U{1680}' || '\U{2000}' <= c <= '\U{200A}'
    || c == '\U{202F}' || c == '\U{205F}' || c == '\U{3000}'
    || c == '\n' || c == '\r' || c == '\U{2028}' || c == '\U{2029}'
  }

  predicate AllWhitespace(s: string)
  {
    forall k :: 0 <= k < |s| ==> IsWhitespace(s[k])
  }

  /** `s` with its leading whitespace removed. */
  function TrimStart(s: string): string
  {
    if s != [] && IsWhitespace(s[0]) then TrimStart(s[1..]) else s
  }

  /** `s` with its trailing whitespace removed. */
  function TrimEnd(s: string): string
  {
    if s != [] && IsWhitespace(s[|s| - 1]) then TrimEnd(s[..|s| - 1]) else s
  }

  /** `TrimStart` cuts exactly the longest whitespace run at the front. */
  lemma {:induction false} TrimStartIsSuffix(s: string) returns (i: nat)
    ensures i <= |s| && TrimStart(s) == s[i..] && AllWhitespace(s[..i])
    ensures TrimStart(s) != [] ==> !IsWhitespace(TrimStart(s)[0])
  {
    if s != [] && IsWhitespace(s[0]) {
      var i' := TrimStartIsSuffix(s[1..]);
      i := i' + 1;
      assert s[1..][i'..] == s[i..];
      assert forall k :: 1 <= k < i ==> s[..i][k] == s[1..][..i'][k - 1];
    } else {
      i := 0;
    }
  }

  /** `TrimEnd` cuts exactly the longest whitespace run at the back. */
  lemma {:induction false} TrimEndIsPrefix(s: string) returns (j: nat)
    ensures j <= |s| && TrimEnd(s) == s[..j] && AllWhitespace(s[j..])
    ensures TrimEnd(s) != [] ==> !IsWhitespace(TrimEnd(s)[|TrimEnd(s)| - 1])
  {
    if s != [] && IsWhitespace(s[|s| - 1]) {
      var p := s[..|s| - 1];
      j := TrimEndIsPrefix(p);
      assert p[..j] == s[..j];
      assert s[j..] == p[j..] + [s[|s| - 1]];
    } else {
      j := |s|;
      assert s[..j] == s;
    }
  }

  /** `s.trim()`. */
  function Trim(s: string): string
  {
    TrimEnd(TrimStart(s))
  }

  /**
   * What `trim` promises: the result is the slice of `s` left once a run of
   * whitespace is cut from each end, and it neither starts nor ends with
   * whitespace, so no longer whitespace run could have been cut.
   */
  lemma TrimIsInnerSlice(s: string)
    ensures exists i, j :: 0 <= i <= j <= |s| && Trim(s) == s[i..j]
              && AllWhitespace(s[..i]) && AllWhitespace(s[j..])
    ensures Trim(s) != [] ==> !IsWhitespace(Trim(s)[0]) && !IsWhitespace(Trim(s)[|Trim(s)| - 1])
  {
    var t := TrimStart(s);
    var i := TrimStartIsSuffix(s);
    var j := TrimEndIsPrefix(t);
    assert Trim(s) == s[i..i + j] && s[i + j..] == t[j..];
    if Trim(s) != [] {
      assert Trim(s)[0] == t[0];
    }
  }

  /** A string that is already trimmed is left alone, so `trim` is idempotent. */
  lemma {:induction false} TrimOfTrimmed(s: string)
    requires s != [] ==> !IsWhitespace(s[0]) && !IsWhitespace(s[|s| - 1])
    ensures Trim(s) == s
  {
  }

  lemma TrimIdempotent(s: string)
    ensures Trim(Trim(s)) == Trim(s)
  {
    TrimIsInnerSlice(s);
    TrimOfTrimmed(Trim(s));
  }

  /** The position of the first `c` in `s`. */
  function IndexOf(s: string, c: char): (i: nat)
    requires c in s
    ensures i < |s| && s[i] == c && c !in s[..i]
  {
    if s[0] == c then 0
    else
      var i := IndexOf(s[1..], c);
      assert s[..i + 1] == [s[0]] + s[1..][..i];
      i + 1
  }

  /** `s.split(sep)` for a one-character separator: never empty, empty pieces kept. */
  function Split(s: string, sep: char): (r: seq<string>)
    ensures |r| >= 1
    decreases |s|
  {
    if sep !in s then [s]
    else
      var i := IndexOf(s, sep);
      [s[..i]] + Split(s[i + 1..], sep)
  }

  /** `pieces.join(sep)`: the inverse of `Split`. */
  function Join(pieces: seq<string>, sep: char): string
    requires |pieces| >= 1
  {
    if |pieces| == 1 then pieces[0]
    else pieces[0] + [sep] + Join(pieces[1..], sep)
  }

  predicate NoPieceHas(pieces: seq<string>, sep: char)
  {
    forall k :: 0 <= k < |pieces| ==> sep !in pieces[k]
  }

  /** Splitting loses nothing: the pieces hold no separator and join back to `s`. */
  lemma {:induction false} SplitJoin(s: string, sep: char)
    ensures NoPieceHas(Split(s, sep), sep)
    ensures Join(Split(s, sep), sep) == s
    decreases |s|
  {
    if sep in s {
      var i := IndexOf(s, sep);
      var rest := Split(s[i + 1..], sep);
      SplitJoin(s[i + 1..], sep);
      var r := Split(s, sep);
      assert r == [s[..i]] + rest && r[1..] == rest;
      assert forall k :: 1 <= k < |r| ==> r[k] == rest[k - 1];
      assert s == s[..i] + [sep] + s[i + 1..];
    }
  }

  /** Conversely, separator-free pieces joined by `sep` split back into themselves. */
  lemma {:induction false} JoinSplit(pieces: seq<string>, sep: char)
    requires |pieces| >= 1 && NoPieceHas(pieces, sep)
    ensures Split(Join(pieces, sep), sep) == pieces
  {
    var p := pieces[0];
    assert sep !in p;
    if |pieces| == 1 {
      SplitWithout(p, sep);
    } else {
      var tail := Join(pieces[1..], sep);
      SplitAfterFirstPiece(p, sep, tail);
      assert NoPieceHas(pieces[1..], sep) by {
        forall k | 0 <= k < |pieces| - 1 ensures sep !in pieces[1..][k] {
          assert pieces[1..][k] == pieces[k + 1];
        }
      }
      JoinSplit(pieces[1..], sep);
      assert [p] + pieces[1..] == pieces;
    }
  }

  /** A separator-free first piece is split off whole, and splitting goes on after its separator. */
  lemma SplitAfterFirstPiece(p: string, sep: char, tail: string)
    requires sep !in p
    ensures Split(p + [sep] + tail, sep) == [p] + Split(tail, sep)
  {
    var s := p + [sep] + tail;
    assert s[|p|] == sep && s[..|p|] == p;
    var i := IndexOf(s, sep);
    assert i == |p| by {
      assert forall k :: 0 <= k < |p| ==> s[k] == p[k];
    }
    assert s[|p| + 1..] == tail;
  }

  lemma SplitWithout(s: string, sep: char)
    requires sep !in s
    ensures Split(s, sep) == [s]
  {
  }
}
