# Note browser: filter, sidebar, escaping and uploader in Dafny

This project models the plain logic inside a small note browser. The browser
loads a JSON list of notes, each with a title, a category, some content and a
list of keywords. It shows a sidebar with one checkbox per category and lists
the notes that match a comma-separated search and the ticked categories. A
small desktop form appends new notes to the same JSON file.

There are two near-identical browser scripts. `script.js` (the *gated*
variant) shows nothing until the user types a search or ticks a category.
`script2.js` (the *ungated* variant) shows every matching note at once. The
uploader is `insert.py`.

Modules:

- `Text` (`text.dfy`) holds the string operations the scripts call:
  - `split(",")` as `Split`, with its inverse `Join`;
  - `trim()` and Python's `strip()` as `Trim`, with the exact whitespace sets
    `JsWhitespace` and `PyWhitespace`;
  - `toLowerCase()` as `Lower`, for ASCII letters only;
  - `includes` as `Contains`.
- `Notes` (`notes.dfy`) holds the `Note` record. Its `id` is optional, because
  the browser never reads it and a hand-written file may not have one.
- `Seqs` (`seqs.dfy`) holds order-keeping subsequences and de-duplication in
  order of first appearance. De-duplication is what `[...new Set(xs)]`
  computes.
- `Filter` (`filter.dfy`) holds the match rules shared by both scripts:
  - the search tokens;
  - keyword matching, which must succeed for every token, in the content or in
    some keyword, and always succeeds when the first token is empty;
  - category matching;
  - `Visible`, the notes passing both rules in collection order.
- `Browser` (`browser.dfy`) holds the render loops as methods.
  - `CollectVisible` keeps the `forEach` loop over the notes.
  - `RenderSidebar` folds `notes.map`, `new Set` and the `forEach` over the
    distinct categories into one loop over the notes. The loop keeps a set of
    the categories seen so far and appends each category the first time it
    appears.
  - Both scripts share these two methods.
  - `RenderContent` is the ungated render and `RenderContentGated` the gated
    one.
  - Each method returns the sequence of items it appends to its cleared
    container, which is what the container holds afterwards.
- `Escape` (`escape.dfy`) holds escaping:
  - `escapeHTML` as written, a chain of six global replacements
    (`EscapeHtmlChain`);
  - the same function as a per-character map (`EscapeHtml`), with a proof that
    the two are equal;
  - Python's `html.escape`, which the uploader applies to content.
- `Uploader` (`uploader.dfy`) models `insert_note`. `Inserted` is the list
  that would be written back, or the reason for the error box. The class
  `NoteUploader` holds the four form fields. Its `InsertNote` method builds the
  note, appends it and clears the form on success.

Two points about the code shape the model:

- The ticked categories are an array, tested with `includes`
  (script.js:50-52), so the model uses a sequence.
- The uploader escapes content with `html.escape` (insert.py:134). A note
  entered through it therefore contains no `<` or `>`, and so no tag
  (`Uploader.InsertedContentHasNoTags`).

## Model

| member | source | states |
|---|---|---|
| `Text.Split` | script.js:35 | splitting on `,` gives one more piece than there are commas, and no piece contains a comma |
| `Text.JoinSplit` | script.js:35 | joining the pieces of a split with the separator gives back the original string |
| `Text.SplitJoin` | script.js:35 | splitting a join of separator-free pieces gives back those pieces |
| `Text.SplitAround` | script2.js:40 | splitting `a + "," + b` is splitting `a` followed by splitting `b` |
| `Text.Trim` | script.js:35 | `trim` returns a contiguous slice of its input, everything removed is whitespace, and neither end of the result is whitespace |
| `Text.TrimEmpty` | script.js:38 | a string trims to `""` exactly when every character of it is whitespace |
| `Text.TrimIdempotent` | script.js:35 | trimming twice is trimming once |
| `Text.TrimmedPiecesShape` | insert.py:135 | split-then-trim gives one piece per comma plus one, each free of commas and of surrounding whitespace, and `""` gives `[""]` |
| `Text.LowerProperties` | script.js:46-47 | lower-casing keeps the length, turns each ASCII capital into its own small letter, keeps every other character, leaves no capital behind, and is idempotent |
| `Text.LowerIgnoresCase` | script.js:46-47 | two strings lower-case to the same string exactly when they differ at most in the case of ASCII letters |
| `Text.ContainsIff` | script.js:46-47 | `includes` holds exactly when the token occurs at some position of the string |
| `Seqs.FirstIndex` | script.js:17 | the position returned holds the element, and no earlier position does |
| `Seqs.DistinctProperties` | script.js:17 | `[...new Set(xs)]` has no duplicates, has exactly the elements of `xs`, and lists them in order of first appearance |
| `Filter.TokensShape` | script.js:35 | there is one search token per comma plus one; `""` gives `[""]`; tokens contain no comma and no ASCII capital, and do not start or end with whitespace (the same line is script2.js:40) |
| `Filter.BlankSearchTokens` | script.js:35-38 | a search that is blank after trimming yields the single empty token |
| `Filter.ExtendedSearchTokens` | script2.js:40 | typing `,more` after a search appends exactly the token `lower(trim(more))` |
| `Filter.MatchIgnoresCase` | script.js:46-47 | a note's match against each token, and against the whole search, does not change when the case of ASCII letters in its content or keywords changes |
| `Filter.VisibleCount` | script.js:42-65 | each note appears among the rendered notes as often as it occurs in the collection if it passes both rules, and otherwise never (no duplication, no loss) |
| `Filter.VisibleMembers` | script.js:50-54 | a note is rendered exactly when it is in the collection, matches the keywords (every token in the content or in some keyword, or the first token empty) and its category is selected or none is |
| `Filter.VisibleInOrder` | script2.js:42-65 | the rendered notes form a subsequence of the collection: no reordering |
| `Filter.VisibleMonotone` | script2.js:43-54 | if every note passing one filter also passes another, the first filter's output is a subsequence of the second's |
| `Filter.NarrowingSearch` | script2.js:43-48 | adding a comma-separated term to the search never shows a note that was hidden by the filter rules (in the gated script a blank search is hidden by the gate instead, and `Filter.LeadingCommaShowsAll` shows the gate can be passed with an empty first token) |
| `Filter.WideningCategories` | script2.js:50-52 | ticking more categories, when some are already ticked, never hides a note |
| `Filter.BlankSearchMatchesAll` | script.js:43-48 | a search that is blank after trimming matches every note, because its first token is empty |
| `Filter.DefaultShowsAll` | script2.js:38-65 | with the default arguments (`""`, `[]`) the ungated render shows every note, in order |
| `Filter.EmptyFirstTokenShowsAll` | script2.js:43-52 | with no category ticked, a search whose first token is empty shows every note, in order |
| `Filter.LeadingCommaShowsAll` | script.js:35-49 | a search starting with a comma is not blank, so it passes the gate, yet its first token is empty and it shows every note whatever follows the comma |
| `Filter.SidebarCategories` | script2.js:22 | the sidebar lists every note's category exactly once, lists nothing else, and keeps the order of first appearance |
| `Browser.RenderSidebar` | script.js:15-30 | the checkboxes appended are the distinct categories in first-seen order, whatever the ignored `filter` argument; since the list is cleared and recomputed from the notes alone, every redraw gives the same list |
| `Browser.CollectVisible` | script.js:42-65 | the `forEach` loop appends exactly the notes passing both rules, in collection order |
| `Browser.RenderContent` | script2.js:38-66 | the ungated render shows exactly the visible notes for the tokens of the search, with no empty-input gate |
| `Browser.RenderContentGated` | script.js:33-66 | the gated render shows nothing when the search is blank and no category is ticked, and otherwise the same notes as the ungated render |
| `Escape.EscapeHtmlChainIsCharMap` | script.js:69-76 | the chain of six replacements equals the per-character map (`&`→`&amp;`, `<`→`&lt;`, `>`→`&gt;`, `"`→`&quot;`, `'`→`&#039;`, newline→`<br>`, all else unchanged), because `&` goes first and the newline last |
| `Escape.EscapeHtmlChainChar` | script.js:69-76 | on one character the replacement chain gives exactly that character's replacement text |
| `Escape.EscapeHtmlConcat` | script.js:69-76 | escaping `a + b` is escaping `a` followed by escaping `b` |
| `Escape.EscapeHtmlSafe` | script.js:69-76 | escaped text has no quote, apostrophe or newline, and is never shorter than its input |
| `Escape.EscapeHtmlPlain` | script.js:69-76 | text with none of the six special characters is left unchanged |
| `Escape.HtmlEscapeSafe` | insert.py:134 | content escaped by `html.escape` has no `<`, `>`, quote or apostrophe, and is never shorter than its input |
| `Uploader.InsertAppends` | insert.py:129-140 | a successful insert grows the list by exactly one and keeps every earlier note. The new note is last, with the title and category copied, the content escaped, the keywords split and stripped, and the id one more than the last note's, or 1 for an empty list |
| `Uploader.InsertFailures` | insert.py:121-156 | the insert fails exactly when the file cannot be read, the last stored note has no id, or the list cannot be written back |
| `Uploader.InsertIntoEmpty` | insert.py:123-130 | a missing file behaves like an empty list: the result is one note with id 1 |
| `Uploader.InsertKeepsIdsIncreasing` | insert.py:130-140 | on a list with strictly increasing ids, a successful insert keeps them strictly increasing, so every id stays unique |
| `Uploader.LastNotLargest` | insert.py:130 | the new id comes from the last note, not the largest: when an earlier note already has the last id plus one, a successful insert gives the new note that same id, so the ids are no longer increasing |
| `Uploader.KeywordsShape` | insert.py:135 | the keywords are one per comma plus one, stripped and comma-free, and an empty input gives `[""]` |
| `Uploader.InsertedContentHasNoTags` | insert.py:134 | the stored content of a new note contains no `<` or `>` |
| `Uploader.NoteUploader.constructor` | insert.py:37-56 | a new form starts with its four input fields empty |
| `Uploader.NoteUploader.InsertNote` | insert.py:120-156 | the outcome is `Inserted` applied to the form's fields. On success the four fields are cleared; on any failure the form is unchanged |

## Left out

- `parseCopyCode` (the rewriting of `copycode`, `insert` and `srclink` tags in both scripts) is not modelled, because it depends on an HTML parser and DOM node replacement. The rendered notes are modelled, but not the HTML each one is turned into.
- The clipboard write, the confirmation alert and the asynchronous fetches for `insert` tags are browser I/O and are not modelled.
- The startup `fetch("notes.json")` is network I/O. The render methods take the loaded list of notes as a parameter instead.
- Event listeners, `innerHTML` writes and checkbox queries are UI plumbing. The render methods take the search text and the ticked categories as parameters and return what they append.
- The PyQt widgets, theming and message boxes are UI. The form is reduced to its four text fields.
- Reading and writing `notes.json` are parameters of `InsertNote`: what the read produced (missing, a list of notes, or unreadable) and whether the write succeeded. A JSON value that is not a list of note records, and ids that are not integers, are not modelled.
- `Text.Lower`: does not model Unicode-wide lower-casing, because the model maps only the ASCII capitals `A`–`Z`. `toLowerCase` also maps other scripts' capitals.
- `Escape.HtmlEscapeSafe`: Python's `html.escape` is a library function. Its replacement table (`&`, `<`, `>`, `"`, `'`) is modelled as a per-character map, not as library code.
