/**
 * The note filter shared by both browser scripts: the search text becomes
 * comma-separated tokens, a note is kept when it matches every token (in its
 * content or in one of its keywords) and belongs to a selected category, and
 * the kept notes are listed in collection order.
 */
module Filter {
  import opened Text
  import opened Notes
  import opened Seqs

  // ---------------------------------------------------------------------------
  // Search tokens
  // ---------------------------------------------------------------------------

  /** The search text split on commas, each piece trimmed and lower-cased. */
  function Tokens(search: string): seq<string>
  {
    var pieces := TrimmedPieces(search, ',', JsWhitespace);
    seq(|pieces|, i requires 0 <= i < |pieces| => Lower(pieces[i]))
  }

  /** A token as `renderContent` produces it: no comma, no ASCII capital, and
      no whitespace at either end. */
  predicate NormalToken(token: string)
  {
    && ',' !in token
    && Lower(token) == token
    && (token == [] || (token[0] !in JsWhitespace && token[|token| - 1] !in JsWhitespace))
  }

  /** Lower-casing a trimmed, comma-free piece gives a normal token. */
  lemma LowerPiece(piece: string)
    requires ',' !in piece
    requires piece == [] || (piece[0] !in JsWhitespace && piece[|piece| - 1] !in JsWhitespace)
    ensures NormalToken(Lower(piece))
  {
    LowerProperties(piece);
    var token := Lower(piece);
    forall k | 0 <= k < |piece|
      ensures token[k] == piece[k] || 'a' <= token[k] <= 'z'
    {
    }
  }

  /** There is one token more than there are commas; the empty search gives the
      single empty token; every token is normal. */
  lemma TokensShape(search: string)
    ensures |Tokens(search)| == Count(search, ',') + 1
    ensures search == [] ==> Tokens(search) == [[]]
    ensures forall i :: 0 <= i < |Tokens(search)| ==> NormalToken(Tokens(search)[i])
  {
    TrimmedPiecesShape(search, ',', JsWhitespace);
    var pieces := TrimmedPieces(search, ',', JsWhitespace);
    var tokens := Tokens(search);
    assert |tokens| == |pieces|;
    forall i | 0 <= i < |tokens|
      ensures NormalToken(tokens[i])
    {
      var piece := pieces[i];
      assert tokens[i] == Lower(piece);
      assert Trim(piece, JsWhitespace) == piece;
      LowerPiece(piece);
    }
    if search == [] {
      assert pieces == [[]];
      assert tokens[0] == Lower([]) == [];
    }
  }

  /** A search text that is empty after trimming yields the single empty
      token. */
  lemma BlankSearchTokens(search: string)
    requires Trim(search, JsWhitespace) == []
    ensures Tokens(search) == [[]]
  {
    BlankPieces(search, ',', JsWhitespace);
  }

  /** Typing `,more` after the search text appends exactly one token. */
  lemma ExtendedSearchTokens(search: string, more: string)
    requires ',' !in more
    ensures Tokens(search + "," + more) == Tokens(search) + [Lower(Trim(more, JsWhitespace))]
  {
    var extended := search + "," + more;
    assert extended == search + [','] + more;
    SplitAround(search, more, ',');
    SplitNoSeparator(more, ',');
    var p, q := Split(search, ','), Split(extended, ',');
    assert q == p + [more];
    var t, u := Tokens(search), Tokens(extended);
    assert |u| == |t| + 1;
    forall i | 0 <= i < |t|
      ensures u[i] == t[i]
    {
      assert q[i] == p[i];
    }
    assert u[|t|] == Lower(Trim(more, JsWhitespace));
  }

  // ---------------------------------------------------------------------------
  // Match rules
  // ---------------------------------------------------------------------------

  /** One token is found in the lower-cased content or in some lower-cased
      keyword of the note. */
  predicate TokenMatches(note: Note, token: string)
  {
    || Contains(Lower(note.content), token)
    || exists keyword :: keyword in note.keywords && Contains(Lower(keyword), token)
  }

  /** Every token matches, or the first token is empty. */
  predicate MatchesKeywords(note: Note, tokens: seq<string>)
  {
    || (forall i :: 0 <= i < |tokens| ==> TokenMatches(note, tokens[i]))
    || (|tokens| > 0 && tokens[0] == [])
  }

  /** Matching ignores the case of ASCII letters in the note: two notes whose
      contents and keywords differ only in case match the same tokens. */
  lemma MatchIgnoresCase(note: Note, note': Note, tokens: seq<string>)
    requires SameUpToCase(note.content, note'.content)
    requires |note.keywords| == |note'.keywords|
    requires forall i :: 0 <= i < |note.keywords| ==> SameUpToCase(note.keywords[i], note'.keywords[i])
    ensures forall i :: 0 <= i < |tokens| ==> (TokenMatches(note, tokens[i]) <==> TokenMatches(note', tokens[i]))
    ensures MatchesKeywords(note, tokens) <==> MatchesKeywords(note', tokens)
  {
    LowerIgnoresCase(note.content, note'.content);
    forall i | 0 <= i < |note.keywords|
      ensures Lower(note.keywords[i]) == Lower(note'.keywords[i])
    {
      LowerIgnoresCase(note.keywords[i], note'.keywords[i]);
    }
    forall token
      ensures TokenMatches(note, token) ==> TokenMatches(note', token)
      ensures TokenMatches(note', token) ==> TokenMatches(note, token)
    {
      if keyword :| keyword in note.keywords && Contains(Lower(keyword), token) {
        var i :| 0 <= i < |note.keywords| && note.keywords[i] == keyword;
        assert note'.keywords[i] in note'.keywords;
      }
      if keyword :| keyword in note'.keywords && Contains(Lower(keyword), token) {
        var i :| 0 <= i < |note'.keywords| && note'.keywords[i] == keyword;
        assert note.keywords[i] in note.keywords;
      }
    }
  }

  /** No category is selected, or the note's category is one of them. */
  predicate MatchesCategory(note: Note, selected: seq<string>)
  {
    |selected| == 0 || note.category in selected
  }

  predicate Shown(note: Note, tokens: seq<string>, selected: seq<string>)
  {
    MatchesKeywords(note, tokens) && MatchesCategory(note, selected)
  }

  /** The notes passing both rules, in collection order. */
  function Visible(notes: seq<Note>, tokens: seq<string>, selected: seq<string>): seq<Note>
  {
    if notes == [] then []
    else
      var last := notes[|notes| - 1];
      Visible(notes[..|notes| - 1], tokens, selected)
        + (if Shown(last, tokens, selected) then [last] else [])
  }

  /** The category of each note, in collection order. */
  function CategoriesOf(notes: seq<Note>): seq<string>
  {
    seq(|notes|, i requires 0 <= i < |notes| => notes[i].category)
  }

  // ---------------------------------------------------------------------------
  // What the filter keeps
  // ---------------------------------------------------------------------------

  /** The visible notes are exactly the notes passing both rules, each as many
      times as it occurs in the collection: nothing is duplicated or lost. */
  lemma {:induction false} VisibleCount(notes: seq<Note>, tokens: seq<string>, selected: seq<string>)
    ensures forall note :: multiset(Visible(notes, tokens, selected))[note] ==
              if Shown(note, tokens, selected) then multiset(notes)[note] else 0
  {
    if notes != [] {
      var init, last := notes[..|notes| - 1], notes[|notes| - 1];
      assert notes == init + [last];
      VisibleCount(init, tokens, selected);
    }
  }

  /** A note is visible exactly when it is in the collection and passes both
      rules. */
  lemma VisibleMembers(notes: seq<Note>, tokens: seq<string>, selected: seq<string>)
    ensures forall note :: note in Visible(notes, tokens, selected) <==>
              note in notes && Shown(note, tokens, selected)
  {
    VisibleCount(notes, tokens, selected);
    forall note
      ensures note in Visible(notes, tokens, selected) <==> note in notes && Shown(note, tokens, selected)
    {
      assert note in Visible(notes, tokens, selected) <==> multiset(Visible(notes, tokens, selected))[note] > 0;
      assert note in notes <==> multiset(notes)[note] > 0;
    }
  }

  /** The visible notes keep the collection order. */
  lemma {:induction false} VisibleInOrder(notes: seq<Note>, tokens: seq<string>, selected: seq<string>)
    ensures IsSubsequence(Visible(notes, tokens, selected), notes)
  {
    if notes != [] {
      var init, last := notes[..|notes| - 1], notes[|notes| - 1];
      VisibleInOrder(init, tokens, selected);
      assert notes == init + [last];
      if Shown(last, tokens, selected) {
        SubsequenceKeep(Visible(init, tokens, selected), init, last);
      } else {
        assert Visible(notes, tokens, selected) == Visible(init, tokens, selected);
        SubsequenceSkip(Visible(init, tokens, selected), init, last);
      }
    }
  }

  /** If every note that passes one filter also passes another, the first
      filter's output is a subsequence of the second's. */
  lemma {:induction false} VisibleMonotone(notes: seq<Note>, tokens: seq<string>, selected: seq<string>,
                                           tokens': seq<string>, selected': seq<string>)
    requires forall note :: note in notes && Shown(note, tokens, selected) ==> Shown(note, tokens', selected')
    ensures IsSubsequence(Visible(notes, tokens, selected), Visible(notes, tokens', selected'))
  {
    if notes != [] {
      var init, last := notes[..|notes| - 1], notes[|notes| - 1];
      VisibleMonotone(init, tokens, selected, tokens', selected');
      var w, w' := Visible(init, tokens, selected), Visible(init, tokens', selected');
      if Shown(last, tokens, selected) {
        SubsequenceKeep(w, w', last);
      } else if Shown(last, tokens', selected') {
        assert Visible(notes, tokens, selected) == w;
        SubsequenceSkip(w, w', last);
      } else {
        assert Visible(notes, tokens, selected) == w;
        assert Visible(notes, tokens', selected') == w';
      }
    }
  }

  /** Adding a comma-separated term to the search never shows more notes. */
  lemma NarrowingSearch(notes: seq<Note>, search: string, more: string, selected: seq<string>)
    requires ',' !in more
    ensures IsSubsequence(Visible(notes, Tokens(search + "," + more), selected),
                          Visible(notes, Tokens(search), selected))
  {
    ExtendedSearchTokens(search, more);
    var tokens, tokens' := Tokens(search + "," + more), Tokens(search);
    TokensShape(search);
    forall note | note in notes && Shown(note, tokens, selected)
      ensures Shown(note, tokens', selected)
    {
      assert tokens[0] == tokens'[0];
      if !(tokens'[0] == []) {
        assert forall i :: 0 <= i < |tokens'| ==> tokens'[i] == tokens[i];
      }
    }
    VisibleMonotone(notes, tokens, selected, tokens', selected);
  }

  /** Ticking more categories when some are already ticked never hides a
      note. */
  lemma WideningCategories(notes: seq<Note>, tokens: seq<string>, selected: seq<string>, more: seq<string>)
    requires |selected| > 0
    ensures IsSubsequence(Visible(notes, tokens, selected), Visible(notes, tokens, selected + more))
  {
    VisibleMonotone(notes, tokens, selected, tokens, selected + more);
  }

  /** A blank search matches every note. */
  lemma BlankSearchMatchesAll(search: string, note: Note)
    requires Trim(search, JsWhitespace) == []
    ensures MatchesKeywords(note, Tokens(search))
  {
    BlankSearchTokens(search);
  }

  /** With no category selected, an empty first token shows every note. */
  lemma {:induction false} EmptyFirstTokenShowsAll(notes: seq<Note>, tokens: seq<string>)
    requires |tokens| > 0 && tokens[0] == []
    ensures Visible(notes, tokens, []) == notes
  {
    if notes != [] {
      EmptyFirstTokenShowsAll(notes[..|notes| - 1], tokens);
    }
  }

  /** The default arguments (empty search, no category) show every note. */
  lemma DefaultShowsAll(notes: seq<Note>)
    ensures Visible(notes, Tokens(""), []) == notes
  {
    TokensShape("");
    EmptyFirstTokenShowsAll(notes, Tokens(""));
  }

  /** A search that starts with a comma is not blank, yet its first token is
      empty: with no category selected it shows every note, whatever follows
      the comma. So the gate of the gated script lets `","` or `", foo"`
      through, and adding terms after a leading comma narrows nothing. */
  lemma LeadingCommaShowsAll(notes: seq<Note>, more: string)
    ensures Trim("," + more, JsWhitespace) != []
    ensures Visible(notes, Tokens("," + more), []) == notes
  {
    var search := "," + more;
    TrimEmpty(search, JsWhitespace);
    assert search[0] !in JsWhitespace;
    assert Split(search, ',')[0] == [];
    assert Tokens(search)[0] == Lower(Trim([], JsWhitespace)) == [];
    EmptyFirstTokenShowsAll(notes, Tokens(search));
  }

  /** The sidebar categories: every note's category once, in order of first
      appearance. */
  lemma SidebarCategories(notes: seq<Note>)
    ensures NoDuplicates(Distinct(CategoriesOf(notes)))
    ensures forall note :: note in notes ==> note.category in Distinct(CategoriesOf(notes))
    ensures forall c :: c in Distinct(CategoriesOf(notes)) ==> exists note :: note in notes && note.category == c
    ensures var categories, d := CategoriesOf(notes), Distinct(CategoriesOf(notes));
            forall i, j :: 0 <= i < j < |d| ==>
              d[i] in categories && d[j] in categories &&
              FirstIndex(categories, d[i]) < FirstIndex(categories, d[j])
  {
    var categories := CategoriesOf(notes);
    DistinctProperties(categories);
    forall note | note in notes
      ensures note.category in categories
    {
      var i :| 0 <= i < |notes| && notes[i] == note;
      assert categories[i] == note.category;
    }
    forall c | c in Distinct(categories)
      ensures exists note :: note in notes && note.category == c
    {
      var i :| 0 <= i < |categories| && categories[i] == c;
      assert notes[i] in notes;
    }
  }
}
