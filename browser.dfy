/**
 * The render functions of the two browser scripts. Each one clears its
 * container and appends one child per item in a loop; the model returns the
 * sequence of items appended, which is the container's content afterwards.
 */
module Browser {
  import opened Text
  import opened Notes
  import opened Seqs
  import opened Filter

  /** `renderSidebar`: one checkbox per distinct category, in order of first
      appearance. The search argument is accepted and ignored, so the sidebar
      does not depend on it. */
  method RenderSidebar(notes: seq<Note>, search: string) returns (categories: seq<string>)
    ensures categories == Distinct(CategoriesOf(notes))
  {
    categories := [];
    var seen: set<string> := {};
    for i := 0 to |notes|
      invariant categories == Distinct(CategoriesOf(notes[..i]))
      invariant forall c :: c in seen <==> c in CategoriesOf(notes[..i])
    {
      var category := notes[i].category;
      assert CategoriesOf(notes[..i + 1])[..i] == CategoriesOf(notes[..i]);
      if category !in seen {
        categories := categories + [category];
        seen := seen + {category};
      }
    }
    assert notes[..|notes|] == notes;
  }

  /** The loop over the collection: append each note that passes both rules. */
  method CollectVisible(notes: seq<Note>, tokens: seq<string>, selected: seq<string>)
    returns (shown: seq<Note>)
    ensures shown == Visible(notes, tokens, selected)
  {
    shown := [];
    for i := 0 to |notes|
      invariant shown == Visible(notes[..i], tokens, selected)
    {
      var note := notes[i];
      assert notes[..i + 1][..i] == notes[..i];
      if MatchesKeywords(note, tokens) && MatchesCategory(note, selected) {
        shown := shown + [note];
      }
    }
    assert notes[..|notes|] == notes;
  }

  /** `renderContent` of the ungated script: every note passing both rules,
      in collection order, whatever the search and selection. */
  method RenderContent(notes: seq<Note>, search: string, selected: seq<string>)
    returns (shown: seq<Note>)
    ensures shown == Visible(notes, Tokens(search), selected)
  {
    var tokens := Tokens(search);
    shown := CollectVisible(notes, tokens, selected);
  }

  /** `renderContent` of the gated script: nothing while the search is blank and
      no category is ticked; otherwise the same notes as the ungated script. */
  method RenderContentGated(notes: seq<Note>, search: string, selected: seq<string>)
    returns (shown: seq<Note>)
    ensures Trim(search, JsWhitespace) == [] && |selected| == 0 ==> shown == []
    ensures !(Trim(search, JsWhitespace) == [] && |selected| == 0) ==>
              shown == Visible(notes, Tokens(search), selected)
  {
    var tokens := Tokens(search);
    if Trim(search, JsWhitespace) == [] && |selected| == 0 {
      return [];
    }
    shown := CollectVisible(notes, tokens, selected);
  }
}
