/**
 * String primitives the note browser relies on: splitting on a separator,
 * trimming whitespace, ASCII lower-casing and substring search.
 * JavaScript's `split`/`trim`/`toLowerCase`/`includes` and Python's
 * `split`/`strip` are modelled here as functions on `seq<char>`.
 */
module Text {

  /** Characters removed by JavaScript's `String.prototype.trim`
      (WhiteSpace and LineTerminator of ECMAScript). */
  const JsWhitespace: set<char> := {
    '\t', '\n', '\U{0B}', '\U{0C}', '\r', ' ', '\U{A0}', '\U{1680}',
    '\U{2000}', '\U{2001}', '\U{2002}', '\U{2003}', '\U{2004}', '\U{2005}',
    '\U{2006}', '\U{2007}', '\U{2008}', '\U{2009}', '\U{200A}',
    '\U{2028}', '\U{2029}', '\U{202F}', '\U{205F}', '\U{3000}', '\U{FEFF}'
  }

  /** Characters removed by Python's `str.strip()` (those for which
      `str.isspace()` holds). */
  const PyWhitespace: set<char> := {
    '\t', '\n', '\U{0B}', '\U{0C}', '\r', '\U{1C}', '\U{1D}', '\U{1E}', '\U{1F}',
    ' ', '\U{85}', '\U{A0}', '\U{1680}',
    '\U{2000}', '\U{2001}', '\U{2002}', '\U{2003}', '\U{2004}', '\U{2005}',
    '\U{2006}', '\U{2007}', '\U{2008}', '\U{2009}', '\U{200A}',
    '\U{2028}', '\U{2029}', '\U{202F}', '\U{205F}', '\U{3000}'
  }

  /** Number of occurrences of `c` in `s`. */
  function Count(s: string, c: char): nat
  {
    if s == [] then 0 else (if s[0] == c then 1 else 0) + Count(s[1..], c)
  }

  // ---------------------------------------------------------------------------
  // Splitting on a separator (`s.split(",")` in both JavaScript and Python)
  // ---------------------------------------------------------------------------

  /** The pieces of `s` between occurrences of `sep`; an empty string gives
      one empty piece, and there is always one more piece than separators. */
  function Split(s: string, sep: char): (pieces: seq<string>)
    ensures |pieces| == Count(s, sep) + 1
    ensures forall i :: 0 <= i < |pieces| ==> sep !in pieces[i]
  {
    if s == [] then [[]]
    else
      var rest := Split(s[1..], sep);
      if s[0] == sep then [[]] + rest else [[s[0]] + rest[0]] + rest[1..]
  }

  /** The inverse of `Split`: the pieces glued back with `sep` between them. */
  function Join(pieces: seq<string>, sep: char): string
  {
    if |pieces| == 0 then []
    else if |pieces| == 1 then pieces[0]
    else pieces[0] + [sep] + Join(pieces[1..], sep)
  }

  /** Gluing the pieces back together gives the original string. */
  lemma {:induction false} JoinSplit(s: string, sep: char)
    ensures Join(Split(s, sep), sep) == s
  {
    if s != [] {
      var rest := Split(s[1..], sep);
      JoinSplit(s[1..], sep);
      if s[0] == sep {
        assert Split(s, sep) == [[]] + rest;
      } else if |rest| == 1 {
        assert Split(s, sep) == [[s[0]] + rest[0]];
      } else {
        var p := Split(s, sep);
        assert p == [[s[0]] + rest[0]] + rest[1..];
        assert p[1..] == rest[1..];
      }
    }
  }

  /** Splitting a string made by gluing separator-free pieces gives back
      exactly those pieces. */
  lemma {:induction false} SplitJoin(pieces: seq<string>, sep: char)
    requires |pieces| > 0
    requires forall i :: 0 <= i < |pieces| ==> sep !in pieces[i]
    ensures Split(Join(pieces, sep), sep) == pieces
  {
    if |pieces| == 1 {
      SplitNoSeparator(pieces[0], sep);
    } else {
      SplitJoin(pieces[1..], sep);
      SplitNoSeparator(pieces[0], sep);
      SplitAround(pieces[0], Join(pieces[1..], sep), sep);
      assert pieces == [pieces[0]] + pieces[1..];
    }
  }

  /** A string without the separator splits into itself alone. */
  lemma {:induction false} SplitNoSeparator(s: string, sep: char)
    requires sep !in s
    ensures Split(s, sep) == [s]
  {
    if s != [] {
      SplitNoSeparator(s[1..], sep);
      assert s == [s[0]] + s[1..];
    }
  }

  /** Splitting `a + sep + b` splits `a` and `b` separately. */
  lemma {:induction false} SplitAround(a: string, b: string, sep: char)
    ensures Split(a + [sep] + b, sep) == Split(a, sep) + Split(b, sep)
  {
    var s := a + [sep] + b;
    if a == [] {
      assert s[1..] == b;
    } else {
      assert s[1..] == a[1..] + [sep] + b;
      SplitAround(a[1..], b, sep);
    }
  }

  // ---------------------------------------------------------------------------
  // Trimming (`s.trim()` in JavaScript, `s.strip()` in Python)
  // ---------------------------------------------------------------------------

  /** `s` without its leading characters from `ws`. */
  function TrimStart(s: string, ws: set<char>): (r: string)
    ensures |r| <= |s| && r == s[|s| - |r|..]
    ensures forall i :: 0 <= i < |s| - |r| ==> s[i] in ws
    ensures r == [] || r[0] !in ws
  {
    if |s| > 0 && s[0] in ws then TrimStart(s[1..], ws) else s
  }

  /** `s` without its trailing characters from `ws`. */
  function TrimEnd(s: string, ws: set<char>): (r: string)
    ensures |r| <= |s| && r == s[..|r|]
    ensures forall i :: |r| <= i < |s| ==> s[i] in ws
    ensures r == [] || r[|r| - 1] !in ws
  {
    if |s| > 0 && s[|s| - 1] in ws then TrimEnd(s[..|s| - 1], ws) else s
  }

  /** `s` without leading and trailing characters from `ws`: a contiguous
      slice of `s`, everything cut away is whitespace, and neither end of the
      result is whitespace. */
  function Trim(s: string, ws: set<char>): (r: string)
    ensures exists i :: TrimmedAt(s, r, i, ws)
    ensures r == [] || (r[0] !in ws && r[|r| - 1] !in ws)
    ensures forall c :: c in r ==> c in s
  {
    var t := TrimStart(s, ws);
    var r := TrimEnd(t, ws);
    var i := |s| - |t|;
    assert TrimmedAt(s, r, i, ws);
    r
  }

  /** `r` is the slice of `s` starting at `i`, and everything of `s` outside
      that slice is whitespace. */
  predicate TrimmedAt(s: string, r: string, i: int, ws: set<char>)
  {
    && 0 <= i <= |s| - |r| && r == s[i..i + |r|]
    && (forall k :: 0 <= k < i ==> s[k] in ws)
    && (forall k :: i + |r| <= k < |s| ==> s[k] in ws)
  }

  /** A string trims to nothing exactly when it is all whitespace. */
  lemma TrimEmpty(s: string, ws: set<char>)
    ensures Trim(s, ws) == [] <==> forall k :: 0 <= k < |s| ==> s[k] in ws
  {
    if Trim(s, ws) != [] {
      var r := Trim(s, ws);
      var i :| TrimmedAt(s, r, i, ws);
      assert s[i] == r[0] && r[0] !in ws;
    }
  }

  /** Trimming twice is trimming once. */
  lemma TrimIdempotent(s: string, ws: set<char>)
    ensures Trim(Trim(s, ws), ws) == Trim(s, ws)
  {
    var r := Trim(s, ws);
    var t := TrimStart(r, ws);
    assert t == r;
  }

  /** The pieces of `s` split on `sep`, each trimmed of `ws`. */
  function TrimmedPieces(s: string, sep: char, ws: set<char>): (pieces: seq<string>)
  {
    var p := Split(s, sep);
    seq(|p|, i requires 0 <= i < |p| => Trim(p[i], ws))
  }

  /** One trimmed piece per comma plus one; no piece holds the separator or
      starts or ends with whitespace; the empty string gives one empty piece. */
  lemma TrimmedPiecesShape(s: string, sep: char, ws: set<char>)
    ensures |TrimmedPieces(s, sep, ws)| == Count(s, sep) + 1
    ensures forall i :: 0 <= i < |TrimmedPieces(s, sep, ws)| ==>
              var piece := TrimmedPieces(s, sep, ws)[i];
              sep !in piece && Trim(piece, ws) == piece
    ensures s == [] ==> TrimmedPieces(s, sep, ws) == [[]]
  {
    var p := Split(s, sep);
    forall i | 0 <= i < |p|
      ensures sep !in Trim(p[i], ws) && Trim(Trim(p[i], ws), ws) == Trim(p[i], ws)
    {
      TrimIdempotent(p[i], ws);
    }
  }

  /** A separator-free string made only of whitespace yields one empty piece. */
  lemma BlankPieces(s: string, sep: char, ws: set<char>)
    requires sep !in ws
    requires Trim(s, ws) == []
    ensures TrimmedPieces(s, sep, ws) == [[]]
  {
    TrimEmpty(s, ws);
    assert sep !in s;
    SplitNoSeparator(s, sep);
  }

  // ---------------------------------------------------------------------------
  // Lower-casing (`s.toLowerCase()`, ASCII letters only)
  // ---------------------------------------------------------------------------

  function LowerChar(c: char): char
  {
    if 'A' <= c <= 'Z' then (c as int + 32) as char else c
  }

  /** `s` with every ASCII capital replaced by its small letter. */
  function Lower(s: string): (r: string)
  {
    seq(|s|, i requires 0 <= i < |s| => LowerChar(s[i]))
  }

  /** Lower-casing keeps the length, turns every ASCII capital into its own
      small letter, keeps every other character, leaves no ASCII capital
      behind, and is idempotent. */
  lemma LowerProperties(s: string)
    ensures |Lower(s)| == |s|
    ensures forall i :: 0 <= i < |s| && 'A' <= s[i] <= 'Z' ==> Lower(s)[i] as int == s[i] as int + 32
    ensures forall i :: 0 <= i < |s| && !('A' <= s[i] <= 'Z') ==> Lower(s)[i] == s[i]
    ensures forall i :: 0 <= i < |s| ==> !('A' <= Lower(s)[i] <= 'Z')
    ensures Lower(Lower(s)) == Lower(s)
  {
  }

  /** `x` and `y` are the same character, or the same ASCII letter in two
      cases. */
  predicate SameLetterUpToCase(x: char, y: char)
  {
    || x == y
    || ('A' <= x <= 'Z' && y as int == x as int + 32)
    || ('A' <= y <= 'Z' && x as int == y as int + 32)
  }

  /** `a` and `b` differ at most in the case of ASCII letters. */
  predicate SameUpToCase(a: string, b: string)
  {
    |a| == |b| && forall i :: 0 <= i < |a| ==> SameLetterUpToCase(a[i], b[i])
  }

  lemma LowerCharIgnoresCase(x: char, y: char)
    ensures LowerChar(x) == LowerChar(y) <==> SameLetterUpToCase(x, y)
  {
  }

  /** Two strings lower-case to the same string exactly when they differ at
      most in the case of ASCII letters, so comparing lower-cased strings is
      comparing them without regard to case. */
  lemma LowerIgnoresCase(a: string, b: string)
    ensures Lower(a) == Lower(b) <==> SameUpToCase(a, b)
  {
    if Lower(a) == Lower(b) {
      forall i | 0 <= i < |a|
        ensures SameLetterUpToCase(a[i], b[i])
      {
        assert Lower(a)[i] == Lower(b)[i];
        LowerCharIgnoresCase(a[i], b[i]);
      }
    }
    if SameUpToCase(a, b) {
      forall i | 0 <= i < |a|
        ensures Lower(a)[i] == Lower(b)[i]
      {
        LowerCharIgnoresCase(a[i], b[i]);
      }
    }
  }

  // ---------------------------------------------------------------------------
  // Substring search (`s.includes(t)`)
  // ---------------------------------------------------------------------------

  predicate StartsWith(s: string, prefix: string)
  {
    |prefix| <= |s| && s[..|prefix|] == prefix
  }

  /** `t` occurs in `s` starting at position `i`. */
  predicate OccursAt(s: string, t: string, i: int)
  {
    0 <= i <= |s| - |t| && s[i..i + |t|] == t
  }

  /** `t` occurs in `s` at some position (the empty string occurs everywhere). */
  predicate Contains(s: string, t: string)
    decreases |s|
  {
    StartsWith(s, t) || (|s| > 0 && Contains(s[1..], t))
  }

  /** `Contains` agrees with the definition by position. */
  lemma {:induction false} ContainsIff(s: string, t: string)
    ensures Contains(s, t) <==> exists i :: OccursAt(s, t, i)
  {
    if Contains(s, t) {
      if StartsWith(s, t) {
        assert OccursAt(s, t, 0);
      } else {
        ContainsIff(s[1..], t);
        var i :| OccursAt(s[1..], t, i);
        assert s[i + 1..i + 1 + |t|] == s[1..][i..i + |t|];
        assert OccursAt(s, t, i + 1);
      }
    }
    if exists i :: OccursAt(s, t, i) {
      var i :| OccursAt(s, t, i);
      if i > 0 {
        assert s[1..][i - 1..i - 1 + |t|] == s[i..i + |t|];
        assert OccursAt(s[1..], t, i - 1);
        ContainsIff(s[1..], t);
      }
    }
  }
}
