/**
 * The note record shared by the browser scripts and the uploader.
 */
module Notes {

  datatype Option<+T> = None | Some(value: T)

  /** One entry of `notes.json`. The browser scripts never read `id`; the
      uploader writes an integer there, but a hand-edited file may lack it. */
  datatype Note = Note(
    id: Option<int>,
    title: string,
    category: string,
    content: string,
    keywords: seq<string>)
}
