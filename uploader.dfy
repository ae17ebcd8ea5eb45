/**
 * The uploader's `insert_note`: read the stored list of notes (a missing file
 * counts as an empty list), give the new note the last note's id plus one,
 * split its keywords on commas, escape its content, append it, write the list
 * back and clear the form.
 *
 * Reading and writing `notes.json` are parameters here: `file` is what reading
 * produced and `writeSucceeds` whether writing the list back succeeded.
 */
module Uploader {
  import opened Text
  import opened Notes
  import opened Escape

  /** What reading the stored file produced. */
  datatype StoredFile = Missing | Loaded(notes: seq<Note>) | Unreadable

  /** Why `insert_note` showed its error box instead of saving. */
  datatype InsertError = ReadFailed | LastNoteWithoutId | WriteFailed

  datatype Outcome = Saved(notes: seq<Note>) | Failed(error: InsertError)

  /** The list the uploader starts from: a missing file is an empty list. */
  function ReadNotes(file: StoredFile): Option<seq<Note>>
  {
    match file
    case Missing => Some([])
    case Loaded(notes) => Some(notes)
    case Unreadable => None
  }

  /** The id of a new note: one more than the id of the LAST note (not the
      largest), or 1 for an empty list; no id when the last note has none. */
  function NextId(notes: seq<Note>): Option<int>
  {
    if notes == [] then Some(1)
    else match notes[|notes| - 1].id
      case Some(k) => Some(k + 1)
      case None => None
  }

  /** The keywords field: the input split on commas, each piece stripped. */
  function Keywords(text: string): seq<string>
  {
    TrimmedPieces(text, ',', PyWhitespace)
  }

  /** The list `insert_note` writes back, or why it fails. */
  function Inserted(file: StoredFile, writeSucceeds: bool,
                    title: string, content: string, keywords: string, category: string): Outcome
  {
    match ReadNotes(file)
    case None => Failed(ReadFailed)
    case Some(notes) =>
      match NextId(notes)
      case None => Failed(LastNoteWithoutId)
      case Some(id) =>
        if writeSucceeds
        then Saved(notes + [Note(Some(id), title, category, HtmlEscape(content), Keywords(keywords))])
        else Failed(WriteFailed)
  }

  /** Every note carries an id and the ids strictly increase along the list. */
  predicate IdsIncreasing(notes: seq<Note>)
  {
    && (forall i :: 0 <= i < |notes| ==> notes[i].id.Some?)
    && (forall i, j :: 0 <= i < j < |notes| ==> notes[i].id.value < notes[j].id.value)
  }

  // ---------------------------------------------------------------------------
  // What inserting does to the list
  // ---------------------------------------------------------------------------

  /** A successful insert grows the list by exactly one note, leaves every
      earlier note unchanged and puts the new note last, with the title and
      category copied, the content escaped, the keywords split and stripped,
      and the id one more than the last note's (1 for an empty list). */
  lemma InsertAppends(file: StoredFile, writeSucceeds: bool,
                      title: string, content: string, keywords: string, category: string)
    requires Inserted(file, writeSucceeds, title, content, keywords, category).Saved?
    ensures ReadNotes(file).Some?
    ensures var before := ReadNotes(file).value;
            var after := Inserted(file, writeSucceeds, title, content, keywords, category).notes;
            && |after| == |before| + 1
            && after[..|before|] == before
            && after[|before|].title == title
            && after[|before|].category == category
            && after[|before|].content == HtmlEscape(content)
            && after[|before|].keywords == Keywords(keywords)
            && after[|before|].id == Some(if before == [] then 1 else before[|before| - 1].id.value + 1)
  {
    var before := ReadNotes(file).value;
    var after := Inserted(file, writeSucceeds, title, content, keywords, category).notes;
    assert after[..|before|] == before;
  }

  /** The insert fails exactly when the file cannot be read, the last stored
      note has no id, or the list cannot be written back. */
  lemma InsertFailures(file: StoredFile, writeSucceeds: bool,
                       title: string, content: string, keywords: string, category: string)
    ensures Inserted(file, writeSucceeds, title, content, keywords, category).Failed? <==>
              || file.Unreadable?
              || (file.Loaded? && file.notes != [] && file.notes[|file.notes| - 1].id.None?)
              || !writeSucceeds
  {
  }

  /** A missing file and an empty list both give a one-note list with id 1. */
  lemma InsertIntoEmpty(writeSucceeds: bool, title: string, content: string, keywords: string, category: string)
    requires writeSucceeds
    ensures Inserted(Missing, writeSucceeds, title, content, keywords, category)
         == Inserted(Loaded([]), writeSucceeds, title, content, keywords, category)
    ensures var outcome := Inserted(Missing, writeSucceeds, title, content, keywords, category);
            outcome.Saved? && |outcome.notes| == 1 && outcome.notes[0].id == Some(1)
  {
  }

  /** On a list whose ids increase (as every list this uploader writes from
      scratch does), a successful insert keeps them increasing, so every id
      stays unique. */
  lemma {:induction false} InsertKeepsIdsIncreasing(notes: seq<Note>, writeSucceeds: bool,
                                                    title: string, content: string, keywords: string, category: string)
    requires IdsIncreasing(notes)
    requires Inserted(Loaded(notes), writeSucceeds, title, content, keywords, category).Saved?
    ensures IdsIncreasing(Inserted(Loaded(notes), writeSucceeds, title, content, keywords, category).notes)
  {
    var after := Inserted(Loaded(notes), writeSucceeds, title, content, keywords, category).notes;
    InsertAppends(Loaded(notes), writeSucceeds, title, content, keywords, category);
    forall i, j | 0 <= i < j < |after|
      ensures after[i].id.value < after[j].id.value
    {
      if j == |notes| {
        assert after[i] == notes[i];
        if i < |notes| - 1 {
          assert notes[i].id.value < notes[|notes| - 1].id.value;
        }
      } else {
        assert after[i] == notes[i] && after[j] == notes[j];
      }
    }
  }

  /** The id is based on the last note, not the largest: when an earlier note
      (after a hand edit, say) already carries the last id plus one, a
      successful insert gives the new note that same id, so two notes share
      it. */
  lemma LastNotLargest(notes: seq<Note>, writeSucceeds: bool, k: int,
                       title: string, content: string, keywords: string, category: string)
    requires writeSucceeds
    requires 0 <= k < |notes| && notes[|notes| - 1].id.Some?
    requires notes[k].id == Some(notes[|notes| - 1].id.value + 1)
    ensures Inserted(Loaded(notes), writeSucceeds, title, content, keywords, category).Saved?
    ensures var after := Inserted(Loaded(notes), writeSucceeds, title, content, keywords, category).notes;
            && k < |after| - 1
            && after[k].id == after[|after| - 1].id
            && !IdsIncreasing(after)
  {
  }

  /** The keywords are one more than the commas, stripped and comma-free; an
      empty input gives the single empty keyword. */
  lemma KeywordsShape(text: string)
    ensures |Keywords(text)| == Count(text, ',') + 1
    ensures text == [] ==> Keywords(text) == [[]]
    ensures forall i :: 0 <= i < |Keywords(text)| ==>
              ',' !in Keywords(text)[i] && Trim(Keywords(text)[i], PyWhitespace) == Keywords(text)[i]
  {
    TrimmedPiecesShape(text, ',', PyWhitespace);
  }

  /** Stored content never holds `<` or `>`: a note entered through the
      uploader can carry no markup tag for the browser to rewrite. */
  lemma InsertedContentHasNoTags(file: StoredFile, writeSucceeds: bool,
                                 title: string, content: string, keywords: string, category: string)
    requires Inserted(file, writeSucceeds, title, content, keywords, category).Saved?
    ensures var after := Inserted(file, writeSucceeds, title, content, keywords, category).notes;
            '<' !in after[|after| - 1].content && '>' !in after[|after| - 1].content
  {
    HtmlEscapeSafe(content);
  }

  // ---------------------------------------------------------------------------
  // The form
  // ---------------------------------------------------------------------------

  /** The upload form: its four input fields. */
  class NoteUploader {
    var titleInput: string
    var contentInput: string
    var keywordsInput: string
    var categoryInput: string

    constructor ()
      ensures titleInput == [] && contentInput == [] && keywordsInput == [] && categoryInput == []
    {
      titleInput, contentInput, keywordsInput, categoryInput := [], [], [], [];
    }

    /** `insert_note`: on success the returned list is what is written back and
        the form is cleared; on any failure the form is left as it was. */
    method InsertNote(file: StoredFile, writeSucceeds: bool) returns (outcome: Outcome)
      modifies this
      ensures outcome == Inserted(file, writeSucceeds, old(titleInput), old(contentInput),
                                  old(keywordsInput), old(categoryInput))
      ensures outcome.Saved? ==>
                titleInput == [] && contentInput == [] && keywordsInput == [] && categoryInput == []
      ensures outcome.Failed? ==> unchanged(this)
    {
      var notes: seq<Note>;
      match file {
        case Unreadable =>
          return Failed(ReadFailed);
        case Missing =>
          notes := [];
        case Loaded(stored) =>
          notes := stored;
      }
      var newId: int;
      if notes == [] {
        newId := 1;
      } else {
        match notes[|notes| - 1].id {
          case None =>
            return Failed(LastNoteWithoutId);
          case Some(k) =>
            newId := k + 1;
        }
      }
      var note := Note(Some(newId), titleInput, categoryInput, HtmlEscape(contentInput), Keywords(keywordsInput));
      notes := notes + [note];
      if !writeSucceeds {
        return Failed(WriteFailed);
      }
      outcome := Saved(notes);
      titleInput, contentInput, keywordsInput, categoryInput := [], [], [], [];
    }
  }
}
