/**
 * Shell-style word splitting as performed by Python's `shlex.split` in POSIX
 * mode: whitespace splits words, single quotes keep everything literally,
 * double quotes keep everything except that a backslash escapes `"` and `\`,
 * and outside quotes a backslash escapes any character.  No comment
 * characters are recognised.  An unterminated quote or a trailing backslash
 * raises an error instead of producing words.
 */
module Shlex {
  import opened Results

  datatype LexError = NoClosingQuotation | NoEscapedCharacter

  /** Where the lexer is between two characters of the input. */
  datatype Mode =
    | Between       // outside any word
    | Word          // inside a word, outside quotes
    | SingleQuoted  // inside '...'
    | DoubleQuoted  // inside "..."

  /** The lexer's whitespace characters. */
  predicate IsSpace(c: char) {
    c == ' ' || c == '\t' || c == '\r' || c == '\n'
  }

  /** A finished word in front of the words still to come. */
  function Cons(tok: string, rest: Result<seq<string>, LexError>): Result<seq<string>, LexError> {
    match rest
    case Ok(ws) => Ok([tok] + ws)
    case Err(e) => Err(e)
  }

  /**
   * Scans `s` in `mode`, where `tok` is the part of the current word read so
   * far.  In `Word` mode the current word is always emitted at the next
   * whitespace or at the end of input, even when it is empty: a word can only
   * be empty there if it came from quotes (`''` is an empty word).
   */
  function Lex(s: string, mode: Mode, tok: string): Result<seq<string>, LexError>
    decreases |s|
  {
    if s == [] then
      match mode
      case Between => Ok([])
      case Word => Ok([tok])
      case SingleQuoted => Err(NoClosingQuotation)
      case DoubleQuoted => Err(NoClosingQuotation)
    else
      var c := s[0];
      match mode
      case Between =>
        if IsSpace(c) then Lex(s[1..], Between, [])
        else if c == '\\' then
          if |s| == 1 then Err(NoEscapedCharacter) else Lex(s[2..], Word, [s[1]])
        else if c == '\'' then Lex(s[1..], SingleQuoted, [])
        else if c == '"' then Lex(s[1..], DoubleQuoted, [])
        else Lex(s[1..], Word, [c])
      case Word =>
        if IsSpace(c) then Cons(tok, Lex(s[1..], Between, []))
        else if c == '\'' then Lex(s[1..], SingleQuoted, tok)
        else if c == '"' then Lex(s[1..], DoubleQuoted, tok)
        else if c == '\\' then
          if |s| == 1 then Err(NoEscapedCharacter) else Lex(s[2..], Word, tok + [s[1]])
        else Lex(s[1..], Word, tok + [c])
      case SingleQuoted =>
        if c == '\'' then Lex(s[1..], Word, tok)
        else Lex(s[1..], SingleQuoted, tok + [c])
      case DoubleQuoted =>
        if c == '"' then Lex(s[1..], Word, tok)
        else if c == '\\' then
          if |s| == 1 then Err(NoEscapedCharacter)
          else if s[1] == '"' || s[1] == '\\' then Lex(s[2..], DoubleQuoted, tok + [s[1]])
          else Lex(s[2..], DoubleQuoted, tok + ['\\', s[1]])
        else Lex(s[1..], DoubleQuoted, tok + [c])
  }

  /** `shlex.split(s)`. */
  function Split(s: string): Result<seq<string>, LexError> {
    Lex(s, Between, [])
  }

  // ---------------------------------------------------------------------
  // Writing words so that Split reads them back

  /** A character that stands for itself in an unquoted word. */
  predicate IsPlainChar(c: char) {
    !IsSpace(c) && c != '\'' && c != '"' && c != '\\'
  }

  /** A non-empty word that can be written without quotes or escapes. */
  predicate IsPlain(w: string) {
    |w| > 0 && forall i :: 0 <= i < |w| ==> IsPlainChar(w[i])
  }

  /** `w` with a backslash in front of every `"` and `\`. */
  function EscapeDouble(w: string): string {
    if w == [] then []
    else (if w[0] == '"' || w[0] == '\\' then ['\\', w[0]] else [w[0]]) + EscapeDouble(w[1..])
  }

  /** `w` written between double quotes. */
  function Quote(w: string): string {
    "\"" + EscapeDouble(w) + "\""
  }

  /** `t` is a way of writing the word `w`: bare, or double-quoted. */
  predicate Renders(t: string, w: string) {
    (t == w && IsPlain(w)) || t == Quote(w)
  }

  predicate RendersAll(ts: seq<string>, ws: seq<string>) {
    |ts| == |ws| && forall i :: 0 <= i < |ts| ==> Renders(ts[i], ws[i])
  }

  /** The texts `ts` separated by single spaces. */
  function Unwords(ts: seq<string>): string {
    if |ts| == 0 then ""
    else if |ts| == 1 then ts[0]
    else ts[0] + " " + Unwords(ts[1..])
  }

  // ---------------------------------------------------------------------
  // Properties

  /** Inside double quotes, an escaped word is read back up to its closing quote. */
  lemma {:induction false} LexEscapedDouble(w: string, rest: string, tok: string)
    ensures Lex(EscapeDouble(w) + "\"" + rest, DoubleQuoted, tok) == Lex(rest, Word, tok + w)
    decreases |w|
  {
    var s := EscapeDouble(w) + "\"" + rest;
    if w == [] {
      assert s == ['"'] + rest;
      assert s[1..] == rest;
      assert tok + w == tok;
    } else {
      var tail := EscapeDouble(w[1..]) + "\"" + rest;
      LexEscapedDouble(w[1..], rest, tok + [w[0]]);
      assert tok + [w[0]] + w[1..] == tok + w;
      if w[0] == '"' || w[0] == '\\' {
        assert s == ['\\', w[0]] + tail;
        assert s[2..] == tail;
      } else {
        assert s == [w[0]] + tail;
        assert s[1..] == tail;
      }
    }
  }

  /** An opening double quote whose escaped content runs to the end of the input is never closed. */
  lemma {:induction false} LexUnclosedDouble(w: string, tok: string)
    ensures Lex(EscapeDouble(w), DoubleQuoted, tok) == Err(NoClosingQuotation)
    decreases |w|
  {
    if w != [] {
      var s := EscapeDouble(w);
      LexUnclosedDouble(w[1..], tok + [w[0]]);
      if w[0] == '"' || w[0] == '\\' {
        assert s == ['\\', w[0]] + EscapeDouble(w[1..]);
        assert s[2..] == EscapeDouble(w[1..]);
      } else {
        assert s == [w[0]] + EscapeDouble(w[1..]);
        assert s[1..] == EscapeDouble(w[1..]);
      }
    }
  }

  /** Plain characters extend the current word. */
  lemma {:induction false} LexPlainChars(w: string, rest: string, tok: string)
    requires forall i :: 0 <= i < |w| ==> IsPlainChar(w[i])
    ensures Lex(w + rest, Word, tok) == Lex(rest, Word, tok + w)
    decreases |w|
  {
    if w == [] {
      assert w + rest == rest;
      assert tok + w == tok;
    } else {
      assert (w + rest)[0] == w[0];
      assert (w + rest)[1..] == w[1..] + rest;
      LexPlainChars(w[1..], rest, tok + [w[0]]);
      assert tok + [w[0]] + w[1..] == tok + w;
    }
  }

  /** Reading a rendered word leaves the lexer inside that word, with the word read. */
  lemma LexRendered(t: string, w: string, rest: string)
    requires Renders(t, w)
    ensures Lex(t + rest, Between, []) == Lex(rest, Word, w)
  {
    if t == Quote(w) {
      var s := t + rest;
      assert s == ['"'] + (EscapeDouble(w) + "\"" + rest);
      assert s[1..] == EscapeDouble(w) + "\"" + rest;
      LexEscapedDouble(w, rest, []);
      assert [] + w == w;
    } else {
      assert (t + rest)[0] == w[0];
      assert (t + rest)[1..] == w[1..] + rest;
      LexPlainChars(w[1..], rest, [w[0]]);
      assert [w[0]] + w[1..] == w;
    }
  }

  /**
   * Words written bare or in double quotes and separated by single spaces
   * split back into exactly those words: a quoted word keeps its spaces.
   */
  lemma {:induction false} SplitUnwords(ts: seq<string>, ws: seq<string>)
    requires RendersAll(ts, ws)
    ensures Split(Unwords(ts)) == Ok(ws)
    decreases |ts|
  {
    if |ts| == 1 {
      assert Renders(ts[0], ws[0]);
      LexRendered(ts[0], ws[0], "");
      assert ts[0] + "" == ts[0];
      assert ws == [ws[0]];
    } else if |ts| > 1 {
      assert RendersAll(ts[1..], ws[1..]) by {
        forall i | 0 <= i < |ts[1..]| ensures Renders(ts[1..][i], ws[1..][i]) {
          assert Renders(ts[i + 1], ws[i + 1]);
        }
      }
      SplitUnwords(ts[1..], ws[1..]);
      var rest := " " + Unwords(ts[1..]);
      assert Unwords(ts) == ts[0] + rest;
      LexRendered(ts[0], ws[0], rest);
      assert rest[1..] == Unwords(ts[1..]);
      assert ws == [ws[0]] + ws[1..];
    }
  }

  /**
   * A double quote left open after any rendered words fails the whole split
   * with NoClosingQuotation; the words before it are not returned.
   */
  lemma {:induction false} SplitUnclosedQuote(ts: seq<string>, ws: seq<string>, w: string)
    requires RendersAll(ts, ws)
    ensures Split(Unwords(ts + ["\"" + EscapeDouble(w)])) == Err(NoClosingQuotation)
    decreases |ts|
  {
    var open := "\"" + EscapeDouble(w);
    if |ts| == 0 {
      assert ts + [open] == [open];
      assert open[1..] == EscapeDouble(w);
      LexUnclosedDouble(w, []);
    } else {
      assert RendersAll(ts[1..], ws[1..]) by {
        forall i | 0 <= i < |ts[1..]| ensures Renders(ts[1..][i], ws[1..][i]) {
          assert Renders(ts[i + 1], ws[i + 1]);
        }
      }
      SplitUnclosedQuote(ts[1..], ws[1..], w);
      var all := ts + [open];
      assert all[0] == ts[0] && all[1..] == ts[1..] + [open];
      var rest := " " + Unwords(all[1..]);
      assert Unwords(all) == ts[0] + rest;
      LexRendered(ts[0], ws[0], rest);
      assert rest[1..] == Unwords(ts[1..] + [open]);
    }
  }

  /**
   * Two double-quoted words, as in the documented directive
   * `"another file.yml" "foo bar.snap crackle.pop"`, split into exactly those
   * two words, spaces and dots included.
   */
  lemma QuotedPair(a: string, b: string)
    requires forall i :: 0 <= i < |a| ==> a[i] != '"' && a[i] != '\\'
    requires forall i :: 0 <= i < |b| ==> b[i] != '"' && b[i] != '\\'
    ensures Split("\"" + a + "\" \"" + b + "\"") == Ok([a, b])
  {
    EscapeDoubleIdentity(a);
    EscapeDoubleIdentity(b);
    assert "\"" + a + "\" \"" + b + "\"" == Unwords([Quote(a), Quote(b)]);
    SplitUnwords([Quote(a), Quote(b)], [a, b]);
  }

  /** A word with no `"` and no `\` needs no escapes inside double quotes. */
  lemma {:induction false} EscapeDoubleIdentity(w: string)
    requires forall i :: 0 <= i < |w| ==> w[i] != '"' && w[i] != '\\'
    ensures EscapeDouble(w) == w
    decreases |w|
  {
    if w != [] {
      EscapeDoubleIdentity(w[1..]);
      assert [w[0]] + w[1..] == w;
    }
  }

}
