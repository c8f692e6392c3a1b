/**
 * The dotted key of a `!from_yaml` directive.  The key is split with the
 * regular expression `(?<!\\)\.`, that is at every `.` that is not
 * immediately preceded by a backslash in the key as written, and each piece
 * then has every `\.` replaced by `.` (left to right, without overlaps, as
 * Python's `str.replace` does).
 */
module KeyPath {

  /** Position `i` of `key` is a `.` that the split breaks at. */
  predicate IsSeparator(key: string, i: nat)
    requires i < |key|
  {
    key[i] == '.' && (i == 0 || key[i - 1] != '\\')
  }

  /**
   * The pieces of `key[start..]`, scanning from position `i`, where the
   * current piece began at `start`.
   */
  function SplitFrom(key: string, start: nat, i: nat): (r: seq<string>)
    requires start <= i <= |key|
    ensures |r| >= 1
    decreases |key| - i
  {
    if i == |key| then [key[start..]]
    else if IsSeparator(key, i) then [key[start..i]] + SplitFrom(key, i + 1, i + 1)
    else SplitFrom(key, start, i + 1)
  }

  /** `re.split(r'(?<!\\)\.', key)`. */
  function Split(key: string): seq<string> {
    SplitFrom(key, 0, 0)
  }

  /** `s.replace('\\.', '.')`. */
  function Unescape(s: string): string {
    if |s| >= 2 && s[0] == '\\' && s[1] == '.' then "." + Unescape(s[2..])
    else if s == [] then []
    else [s[0]] + Unescape(s[1..])
  }

  /** The mapping keys a dotted key stands for, in lookup order. */
  function Segments(key: string): seq<string> {
    var pieces := Split(key);
    seq(|pieces|, i requires 0 <= i < |pieces| => Unescape(pieces[i]))
  }

  // ---------------------------------------------------------------------
  // Reference definitions: counting separators, joining and escaping

  /** The number of separator positions at or after `i`. */
  function SeparatorsFrom(key: string, i: nat): nat
    requires i <= |key|
    decreases |key| - i
  {
    if i == |key| then 0
    else (if IsSeparator(key, i) then 1 else 0) + SeparatorsFrom(key, i + 1)
  }

  /** `'.'.join(pieces)`. */
  function JoinDots(pieces: seq<string>): string {
    if |pieces| == 0 then ""
    else if |pieces| == 1 then pieces[0]
    else pieces[0] + "." + JoinDots(pieces[1..])
  }

  /** `s` with every `.` written as `\.`. */
  function Escape(s: string): string {
    if s == [] then []
    else (if s[0] == '.' then "\\." else [s[0]]) + Escape(s[1..])
  }

  /** The dotted key that names the mapping keys `segs`, one after another. */
  function FormatKey(segs: seq<string>): string {
    JoinDots(seq(|segs|, i requires 0 <= i < |segs| => Escape(segs[i])))
  }

  predicate NoSeparator(s: string) {
    forall i :: 0 <= i < |s| ==> !IsSeparator(s, i)
  }

  predicate EndsWithBackslash(s: string) {
    |s| > 0 && s[|s| - 1] == '\\'
  }

  /**
   * The shape of everything Split can return: at least one piece, no piece
   * with a separator of its own, and no piece but the last ending with a
   * backslash (that backslash would have protected the following dot).
   */
  predicate WellFormedPieces(pieces: seq<string>) {
    && |pieces| >= 1
    && (forall i :: 0 <= i < |pieces| ==> NoSeparator(pieces[i]))
    && (forall i :: 0 <= i < |pieces| - 1 ==> !EndsWithBackslash(pieces[i]))
  }

  // ---------------------------------------------------------------------
  // Properties of Split

  /** Split returns one more piece than there are separators in the key. */
  lemma {:induction false} SplitCount(key: string)
    ensures |Split(key)| == SeparatorsFrom(key, 0) + 1
  {
    SplitFromCount(key, 0, 0);
  }

  lemma {:induction false} SplitFromCount(key: string, start: nat, i: nat)
    requires start <= i <= |key|
    ensures |SplitFrom(key, start, i)| == SeparatorsFrom(key, i) + 1
    decreases |key| - i
  {
    if i < |key| {
      if IsSeparator(key, i) {
        SplitFromCount(key, i + 1, i + 1);
      } else {
        SplitFromCount(key, start, i + 1);
      }
    }
  }

  /** Joining the pieces with dots gives back the key. */
  lemma SplitJoin(key: string)
    ensures JoinDots(Split(key)) == key
  {
    SplitFromJoin(key, 0, 0);
  }

  lemma {:induction false} SplitFromJoin(key: string, start: nat, i: nat)
    requires start <= i <= |key|
    ensures JoinDots(SplitFrom(key, start, i)) == key[start..]
    decreases |key| - i
  {
    if i < |key| {
      if IsSeparator(key, i) {
        SplitFromJoin(key, i + 1, i + 1);
        var rest := SplitFrom(key, i + 1, i + 1);
        assert JoinDots([key[start..i]] + rest) == key[start..i] + "." + JoinDots(rest);
        assert key[start..] == key[start..i] + "." + key[i + 1..];
      } else {
        SplitFromJoin(key, start, i + 1);
      }
    }
  }

  /** Seen from a suffix whose first character is not protected by a backslash, separators stay separators. */
  lemma SeparatorShift(key: string, off: nat, end: nat, j: nat)
    requires off <= end <= |key| && j < end - off
    requires off == 0 || key[off - 1] != '\\'
    ensures IsSeparator(key[off..end], j) == IsSeparator(key, off + j)
  {
  }

  /** Every piece Split returns is well formed. */
  lemma SplitWellFormed(key: string)
    ensures WellFormedPieces(Split(key))
  {
    SplitFromWellFormed(key, 0, 0);
  }

  lemma {:induction false} SplitFromWellFormed(key: string, start: nat, i: nat)
    requires start <= i <= |key|
    requires start == 0 || IsSeparator(key, start - 1)
    requires forall j :: start <= j < i ==> !IsSeparator(key, j)
    ensures WellFormedPieces(SplitFrom(key, start, i))
    decreases |key| - i
  {
    if i == |key| || IsSeparator(key, i) {
      var piece := key[start..i];
      forall j | 0 <= j < |piece| ensures !IsSeparator(piece, j) {
        SeparatorShift(key, start, i, j);
      }
      if i == |key| {
        assert piece == key[start..];
        assert SplitFrom(key, start, i) == [piece];
      } else {
        SplitFromWellFormed(key, i + 1, i + 1);
        var rest := SplitFrom(key, i + 1, i + 1);
        var all := [piece] + rest;
        assert !EndsWithBackslash(piece);
        forall j | 0 <= j < |all| ensures NoSeparator(all[j]) {
          if j > 0 { assert all[j] == rest[j - 1]; }
        }
        forall j | 0 <= j < |all| - 1 ensures !EndsWithBackslash(all[j]) {
          if j > 0 { assert all[j] == rest[j - 1]; }
        }
      }
    } else {
      SplitFromWellFormed(key, start, i + 1);
    }
  }

  /** Splitting resumed at a suffix splits as the suffix would on its own. */
  lemma {:induction false} SplitFromShift(key: string, off: nat, start: nat, i: nat)
    requires off <= |key| && start <= i <= |key| - off
    requires off == 0 || key[off - 1] != '\\'
    ensures SplitFrom(key, off + start, off + i) == SplitFrom(key[off..], start, i)
    decreases |key| - off - i
  {
    var q := key[off..];
    if i < |q| {
      SeparatorShift(key, off, |key|, i);
      assert key[off..|key|] == q;
      if IsSeparator(q, i) {
        SplitFromShift(key, off, i + 1, i + 1);
        assert q[start..i] == key[off + start..off + i];
      } else {
        SplitFromShift(key, off, start, i + 1);
      }
    } else {
      assert q[start..] == key[off + start..];
    }
  }

  /** A piece without separators is split into itself alone. */
  lemma {:induction false} SplitFromSingle(s: string, i: nat)
    requires i <= |s| && NoSeparator(s)
    ensures SplitFrom(s, 0, i) == [s]
    decreases |s| - i
  {
    if i < |s| {
      SplitFromSingle(s, i + 1);
    }
  }

  /** A well-formed first piece followed by a dot is split off whole. */
  lemma {:induction false} SplitFromFirst(p: string, q: string, i: nat)
    requires i <= |p| && NoSeparator(p) && !EndsWithBackslash(p)
    ensures SplitFrom(p + "." + q, 0, i) == [p] + SplitFrom(p + "." + q, |p| + 1, |p| + 1)
    decreases |p| - i
  {
    var key := p + "." + q;
    assert key[..|p|] == p;
    if i < |p| {
      SeparatorShift(key, 0, |p|, i);
      SplitFromFirst(p, q, i + 1);
    } else {
      assert key[|p|] == '.';
      assert key[0..|p|] == p;
    }
  }

  /** Split undoes JoinDots on well-formed pieces. */
  lemma {:induction false} JoinSplit(pieces: seq<string>)
    requires WellFormedPieces(pieces)
    ensures Split(JoinDots(pieces)) == pieces
    decreases |pieces|
  {
    var p := pieces[0];
    if |pieces| == 1 {
      SplitFromSingle(p, 0);
    } else {
      var rest := pieces[1..];
      assert WellFormedPieces(rest) by {
        forall j | 0 <= j < |rest| ensures NoSeparator(rest[j]) {
          assert rest[j] == pieces[j + 1];
        }
        forall j | 0 <= j < |rest| - 1 ensures !EndsWithBackslash(rest[j]) {
          assert rest[j] == pieces[j + 1];
        }
      }
      JoinSplit(rest);
      var key := p + "." + JoinDots(rest);
      assert JoinDots(pieces) == key;
      assert !EndsWithBackslash(pieces[0]);
      SplitFromFirst(p, JoinDots(rest), 0);
      SplitFromShift(key, |p| + 1, 0, 0);
      assert key[|p| + 1..] == JoinDots(rest);
      assert pieces == [p] + rest;
    }
  }

  // ---------------------------------------------------------------------
  // Properties of Escape and Unescape

  lemma {:induction false} EscapeFacts(s: string)
    ensures |Escape(s)| > 0 <==> |s| > 0
    ensures |Escape(s)| > 0 ==> Escape(s)[0] != '.'
    ensures EndsWithBackslash(Escape(s)) == EndsWithBackslash(s)
    decreases |s|
  {
    if s != [] {
      EscapeFacts(s[1..]);
      if s[1..] == [] {
        assert Escape(s) == (if s[0] == '.' then "\\." else [s[0]]);
      } else {
        assert s[|s| - 1] == s[1..][|s[1..]| - 1];
      }
    }
  }

  /** Unescape undoes Escape. */
  lemma {:induction false} UnescapeEscape(s: string)
    ensures Unescape(Escape(s)) == s
    decreases |s|
  {
    if s != [] {
      var t := Escape(s[1..]);
      UnescapeEscape(s[1..]);
      EscapeFacts(s[1..]);
      if s[0] == '.' {
        assert Escape(s) == "\\." + t;
        assert (Escape(s))[2..] == t;
      } else {
        assert Escape(s) == [s[0]] + t;
        assert (Escape(s))[1..] == t;
      }
      assert s == [s[0]] + s[1..];
    }
  }

  /** An escaped segment has no separator of its own. */
  lemma {:induction false} EscapeNoSeparator(s: string)
    ensures NoSeparator(Escape(s))
    decreases |s|
  {
    if s != [] {
      var t := Escape(s[1..]);
      var h: string := if s[0] == '.' then "\\." else [s[0]];
      EscapeNoSeparator(s[1..]);
      EscapeFacts(s[1..]);
      var e := Escape(s);
      assert e == h + t;
      forall j | 0 <= j < |e| ensures !IsSeparator(e, j) {
        if j >= |h| {
          var k := j - |h|;
          assert e[j] == t[k];
          if k > 0 {
            assert !IsSeparator(t, k);
            assert e[j - 1] == t[k - 1];
          }
        }
      }
    }
  }

  /**
   * Formatting mapping keys as a dotted key and reading it back gives the
   * same keys, provided no key but the last ends with a backslash (the key
   * syntax has no way to write one).
   */
  lemma SegmentsFormatKey(segs: seq<string>)
    requires |segs| >= 1
    requires forall i :: 0 <= i < |segs| - 1 ==> !EndsWithBackslash(segs[i])
    ensures Segments(FormatKey(segs)) == segs
  {
    var escaped := seq(|segs|, i requires 0 <= i < |segs| => Escape(segs[i]));
    forall i | 0 <= i < |segs| ensures NoSeparator(escaped[i]) && Unescape(escaped[i]) == segs[i] {
      EscapeNoSeparator(segs[i]);
      UnescapeEscape(segs[i]);
    }
    forall i | 0 <= i < |segs| - 1 ensures !EndsWithBackslash(escaped[i]) {
      EscapeFacts(segs[i]);
    }
    JoinSplit(escaped);
  }

  /** A key without backslashes splits at every dot. */
  lemma SegmentsPlainKey(segs: seq<string>)
    requires |segs| >= 1
    requires forall i, j :: 0 <= i < |segs| && 0 <= j < |segs[i]| ==> segs[i][j] != '.' && segs[i][j] != '\\'
    ensures Segments(JoinDots(segs)) == segs
  {
    var escaped := seq(|segs|, i requires 0 <= i < |segs| => Escape(segs[i]));
    forall i | 0 <= i < |segs| ensures escaped[i] == segs[i] {
      EscapeIdentity(segs[i]);
    }
    assert escaped == segs;
    SegmentsFormatKey(segs);
  }

  /** A key of two segments without dots or backslashes splits at its one dot. */
  lemma TwoSegments(a: string, b: string)
    requires forall j :: 0 <= j < |a| ==> a[j] != '.' && a[j] != '\\'
    requires forall j :: 0 <= j < |b| ==> b[j] != '.' && b[j] != '\\'
    ensures Segments(a + "." + b) == [a, b]
  {
    assert JoinDots([a, b]) == a + "." + b;
    SegmentsPlainKey([a, b]);
  }

  /** Escaping changes nothing in a string without dots. */
  lemma {:induction false} EscapeIdentity(s: string)
    requires forall j :: 0 <= j < |s| ==> s[j] != '.'
    ensures Escape(s) == s
    decreases |s|
  {
    if s != [] {
      EscapeIdentity(s[1..]);
      assert [s[0]] + s[1..] == s;
    }
  }

  /** Unescaped dots split; an escaped dot stays inside its key. */
  lemma SegmentsExamples()
    ensures Segments("a.b.c") == ["a", "b", "c"]
    ensures Segments("a\\.b.c") == ["a.b", "c"]
  {
    var abc := ["a", "b", "c"];
    assert Escape("a") == "a" && Escape("b") == "b" && Escape("c") == "c";
    assert seq(|abc|, i requires 0 <= i < |abc| => Escape(abc[i])) == abc;
    assert JoinDots(abc) == "a.b.c";
    SegmentsFormatKey(abc);
    var dotted := ["a.b", "c"];
    assert Escape("a.b") == "a\\.b";
    assert seq(|dotted|, i requires 0 <= i < |dotted| => Escape(dotted[i])) == ["a\\.b", "c"];
    assert JoinDots(["a\\.b", "c"]) == "a\\.b.c";
    SegmentsFormatKey(dotted);
  }

}
