# Notes page view-model, in Dafny

This project models the client-side logic of the "Second Brain" notes page,
`frontend/src/app/page.tsx`. The page fetches the signed-in user's notes from
the notes API and sorts them newest first. From that list it derives three
things on every render:
- the category buttons;
- the list of notes that match the search box and the selected button;
- the "Open Tasks" counter.

It also formats small pieces of text. These are the category labels, a
200-character preview of the scraped web context, and the file name under a
note. Its handlers log a user in and out, keep the search text and the
selected button, and open or close one note's extra content.

Modules, one per concern:

- `Seqs` (`seqs.dfy`): first occurrence, order-preserving subsequence, and
  `Dedup`. `Dedup` is what `Array.from(new Set(s))` returns.
- `JsText` (`text.dfy`): the JavaScript string operations the page uses.
  These are `toLowerCase` (ASCII letters only), `includes`, `trim` (the
  exact ECMAScript white-space set), `replace` with a one-character pattern
  (first occurrence only), and `split(sep).pop()`.
- `Notes` (`notes.dfy`): the `Note` record and the derived views. These
  are `FilteredNotes`, `Categories`, `TaskCount`, `Preview`,
  `CategoryLabel` and `FileName`.
- `NoteSort` (`sort.dfy`): `data.sort((a, b) => b.id - a.id)`.
  `SortInPlace` is an in-place stable insertion sort on an
  `array<Note>`. It is proved equal to the functional `SortByIdDesc`.
  Lemmas prove that `SortByIdDesc` is a permutation, is ordered by
  non-increasing id, and is stable.
- `Board` (`board.dfy`): the page's `useState` hooks as the class
  `Home`, with one method per handler. Each method states the whole new
  state. The invariant `Valid` says that a logged-in user id is never
  blank and never has surrounding white space.

Some behaviour the model makes explicit:
- The "Open Tasks" counter counts every note whose `is_task` is not 0.
  The "Tasks" button keeps only notes whose `is_task` is exactly 1.
  `TaskCountMatchesTasksView` proves that the two agree when every
  `is_task` is 0 or 1.
- Logging out resets the user, the login box and the notes. It does not
  reset the selected button, the search text or the expanded note.
- A note category named "All" or "Tasks" produces a second button with
  that label. The set of categories is taken before the two fixed labels
  are added.

## Model

| member | source | states |
|---|---|---|
| `Seqs.Dedup` | frontend/src/app/page.tsx:51 | The result holds each element of the input exactly once, nothing else, in order of first occurrence (what `Array.from(new Set(...))` gives) |
| `Seqs.IndexOfAppend` | frontend/src/app/page.tsx:51 | Adding an element to the end of the `Set`'s input does not move the first occurrence of any earlier element |
| `Seqs.DedupSameElements` | frontend/src/app/page.tsx:51 | A value is in the `Set` exactly when it is in the input |
| `Seqs.DedupStep` | frontend/src/app/page.tsx:51 | Reading one more value into the `Set` appends it only if it is new, keeping first-occurrence order |
| `Seqs.DedupSeen` | frontend/src/app/page.tsx:51 | A value already in the `Set` leaves its contents and order as they were |
| `Seqs.DedupNew` | frontend/src/app/page.tsx:51 | A value not yet in the `Set` goes to its end |
| `JsText.LowerChar` | frontend/src/app/page.tsx:55-56 | Lower-casing maps `A`-`Z` to `a`-`z` and leaves every other character alone; the result is never an upper-case letter |
| `JsText.ToLower` | frontend/src/app/page.tsx:55-56 | `toLowerCase` keeps the length and lower-cases character by character |
| `JsText.ToLowerIdempotent` | frontend/src/app/page.tsx:55-56 | Lower-casing twice is the same as once |
| `JsText.Includes` | frontend/src/app/page.tsx:55-56 | `includes` is true exactly when the needle occurs as a contiguous piece of the haystack |
| `JsText.IncludesEmpty` | frontend/src/app/page.tsx:55-56 | Every string includes the empty string, so an empty search matches everything |
| `JsText.IncludesLower` | frontend/src/app/page.tsx:55-56 | A match found before lower-casing is still found after lower-casing both sides |
| `JsText.TrimStart` | frontend/src/app/page.tsx:78 | The result is a suffix of the input, only white space was dropped, and it does not start with white space |
| `JsText.TrimEnd` | frontend/src/app/page.tsx:78 | The result is a prefix of the input, only white space was dropped, and it does not end with white space |
| `JsText.Trim` | frontend/src/app/page.tsx:78 | `trim` returns a contiguous piece of the input that neither starts nor ends with white space, and everything it drops before and after that piece is white space |
| `JsText.TrimEmptyIff` | frontend/src/app/page.tsx:78 | `trim` returns "" exactly when the input is all white space |
| `JsText.TrimIdempotent` | frontend/src/app/page.tsx:78 | Trimming an already trimmed string changes nothing |
| `JsText.ReplaceFirst` | frontend/src/app/page.tsx:172 | `replace` with a string pattern changes only the first occurrence; with no occurrence the string is unchanged |
| `JsText.ReplaceFirstCount` | frontend/src/app/page.tsx:205 | Exactly one `_` disappears from a label that has one, the others stay |
| `JsText.LastSegment` | frontend/src/app/page.tsx:249 | `split(sep).pop()` is the suffix after the last separator, or the whole string when there is none; it never contains the separator |
| `JsText.LastSegmentNoSep` | frontend/src/app/page.tsx:249 | A path without `/` is its own file name |
| `JsText.LastSegmentAppend` | frontend/src/app/page.tsx:249 | The file name of `dir/name` is `name` |
| `Notes.OrEmpty` | frontend/src/app/page.tsx:56 | The `file_path` fallback to "" is the path when it is non-empty and "" when it is null or empty |
| `Notes.MatchesSearch` | frontend/src/app/page.tsx:55-56 | The search test: the lower-cased query occurs in the lower-cased content or in the lower-cased file path; its consequences are `VerbatimMatchFound`, `SearchIgnoresQueryCase` and `EmptySearchShowsAll` |
| `Notes.MatchesFilter` | frontend/src/app/page.tsx:61-63 | The button test: "All" keeps every note, "Tasks" the notes with `is_task === 1`, any other label the notes of that category; `FilterAll`, `FilterTasks` and `FilterCategory` state the resulting views |
| `Notes.FilteredNotes` | frontend/src/app/page.tsx:53-64 | Every kept note passes search and filter; the result is an order-preserving subsequence of the notes; each passing note is kept as often as it occurs |
| `Notes.FilteredMembership` | frontend/src/app/page.tsx:53-64 | A note is shown if and only if it is in the list and passes both the search and the selected filter |
| `Notes.FilterAll` | frontend/src/app/page.tsx:61 | With "All", exactly the notes matching the search are shown |
| `Notes.FilterTasks` | frontend/src/app/page.tsx:62 | With "Tasks", exactly the matching notes with `is_task == 1` are shown |
| `Notes.FilterCategory` | frontend/src/app/page.tsx:63 | With any other label, exactly the matching notes of that category are shown |
| `Notes.EmptySearchShowsAll` | frontend/src/app/page.tsx:55-61 | An empty search with "All" shows the whole list, unchanged and in order |
| `Notes.SearchIgnoresQueryCase` | frontend/src/app/page.tsx:55-56 | Changing the case of the query does not change what is shown |
| `Notes.VerbatimMatchFound` | frontend/src/app/page.tsx:55 | A note whose content contains the query verbatim always matches the search |
| `Notes.FilterNarrowsAll` | frontend/src/app/page.tsx:53-64 | Whatever button is selected, the shown notes are an order-preserving subsequence of what "All" shows for the same search |
| `Notes.CategoryValues` | frontend/src/app/page.tsx:51 | `map(n => n.category).filter(Boolean)` holds exactly the non-null, non-empty categories of the notes; its order is stated by `ValuesOrder` |
| `Notes.ValuesOrder` | frontend/src/app/page.tsx:51 | A category that first occurs earlier in `map(...).filter(Boolean)` is carried by some note before any note carries the later one |
| `Notes.Categories` | frontend/src/app/page.tsx:51 | The buttons start with "All" and "Tasks"; the rest are the non-empty categories of the notes, each once, in order of first appearance |
| `Notes.CategoriesFirstAppearance` | frontend/src/app/page.tsx:51 | Of any two category buttons, the left one is carried by some note before any note carries the right one |
| `Notes.TaskCount` | frontend/src/app/page.tsx:128 | The counter is at most the number of notes; it is 0 exactly when no note has a non-zero `is_task`, and equals the number of notes exactly when all do |
| `Notes.TaskCountIsTruthyCount` | frontend/src/app/page.tsx:128 | The counter is exactly the number of notes whose `is_task` is truthy (not 0) |
| `Notes.TaskCountMatchesTasksView` | frontend/src/app/page.tsx:128 | When every `is_task` is 0 or 1, the counter equals the number of notes the "Tasks" button shows with an empty search |
| `Notes.Preview` | frontend/src/app/page.tsx:230 | A text of at most 200 characters is shown whole; a longer one becomes its first 200 characters plus "...", so the preview never exceeds 203 characters and starts with a prefix of the text |
| `Notes.PreviewUnchangedIff` | frontend/src/app/page.tsx:230 | The preview equals the text exactly when the text has at most 200 characters, or is 203 characters long and already ends in "..." |
| `Notes.CategoryLabel` | frontend/src/app/page.tsx:205 | The label keeps the length and replaces only the first `_` by a space |
| `Notes.FileName` | frontend/src/app/page.tsx:249 | The displayed file name is the part of the path after its last `/` |
| `Notes.HasExtraContent` | frontend/src/app/page.tsx:187 | A note can be expanded when its code snippet or its scraped context is truthy; `Board.Toggled` states what a click then does |
| `NoteSort.InsertDesc` | frontend/src/app/page.tsx:42 | One step of the stable descending sort; its properties are `InsertDescPermutes`, `InsertDescSorted` and `InsertDescStable` |
| `NoteSort.SortByIdDesc` | frontend/src/app/page.tsx:42 | The order `data.sort((a, b) => b.id - a.id)` gives; `SortPermutes`, `SortOrders` and `SortStable` prove it a permutation, newest first, and stable |
| `NoteSort.InsertDescPermutes` | frontend/src/app/page.tsx:42 | One insertion step adds exactly the inserted note |
| `NoteSort.InsertDescBound` | frontend/src/app/page.tsx:42 | A lower bound on ids survives an insertion of a note above it |
| `NoteSort.InsertDescSorted` | frontend/src/app/page.tsx:42 | Inserting into a newest-first list keeps it newest-first |
| `NoteSort.InsertDescStable` | frontend/src/app/page.tsx:42 | Insertion places the new note after every earlier note with the same id |
| `NoteSort.SortPermutes` | frontend/src/app/page.tsx:42 | The sorted notes are a permutation of the fetched notes |
| `NoteSort.SortOrders` | frontend/src/app/page.tsx:42 | The sorted notes are ordered by non-increasing id |
| `NoteSort.SortStable` | frontend/src/app/page.tsx:42 | The sort is stable: for every id, the notes with that id keep their fetched order |
| `NoteSort.SortSortedIsIdentity` | frontend/src/app/page.tsx:42 | Data that already arrives newest-first is left unchanged |
| `NoteSort.SortExtend` | frontend/src/app/page.tsx:42 | Sorting one more fetched note inserts it into the sorted prefix |
| `NoteSort.ShiftRight` | frontend/src/app/page.tsx:42 | Moving a smaller-id note one place right keeps the pending insertion's result |
| `NoteSort.PlaceInGap` | frontend/src/app/page.tsx:42 | Writing the pending note into the gap completes the insertion |
| `NoteSort.InsertAt` | frontend/src/app/page.tsx:42 | The array's first i+1 cells become the insertion of the note at i into the sorted prefix; later cells are untouched |
| `NoteSort.SortInPlace` | frontend/src/app/page.tsx:42 | After the in-place sort the array holds exactly `SortByIdDesc` of its old contents |
| `Board.LoginResult` | frontend/src/app/page.tsx:78 | When submitting the login form changes the user, the new user is the trimmed input, which is never blank or padded with white space |
| `Board.LoginAcceptsIff` | frontend/src/app/page.tsx:78 | The form logs in the trimmed input exactly when the input is not all white space, and otherwise leaves the user unchanged |
| `Board.Toggled` | frontend/src/app/page.tsx:186-192 | Clicking a note with a code snippet or scraped context opens it if it was not the open one and closes it otherwise; afterwards either nothing or that note is open; a note without extra content changes nothing |
| `Board.ToggleTwice` | frontend/src/app/page.tsx:192 | With nothing or that note open, two clicks on it restore what was open (with a different note open, the two clicks leave nothing open) |
| `Board.Home.constructor` | frontend/src/app/page.tsx:17-25 | The initial hook values: no notes, loading, "All", empty search, nothing open, nobody logged in, empty login box |
| `Board.Home.FetchNotes` | frontend/src/app/page.tsx:33-49 | On success the fetched array is sorted in place newest first and becomes the note list; on failure the notes are unchanged; loading ends in both cases; other state is unchanged |
| `Board.Home.SetLoginInput` | frontend/src/app/page.tsx:85 | Typing sets the login box and nothing else |
| `Board.Home.Login` | frontend/src/app/page.tsx:78 | The current user becomes `LoginResult` of the old user and the login box; nothing else changes |
| `Board.Home.Logout` | frontend/src/app/page.tsx:135 | The user is cleared, the login box emptied and the notes dropped; filter, search and expanded note are kept |
| `Board.Home.SetSearchQuery` | frontend/src/app/page.tsx:157 | Typing sets the search text and nothing else |
| `Board.Home.SetFilter` | frontend/src/app/page.tsx:166 | Clicking a category button selects it and changes nothing else |
| `Board.Home.ClickNote` | frontend/src/app/page.tsx:186-192 | The open note becomes `Toggled` of the old one; nothing else changes |

## Left out

- The HTTP request in `fetchNotes`, its `X-User-ID` header and the JSON decoding (frontend/src/app/page.tsx:36-41) are network I/O. `Home.FetchNotes` takes the decoded array as a parameter, or `None` when the request or the decoding threw, or when the decoded body was not an array (an error object, say) so that `data.sort` threw.
- The effect at frontend/src/app/page.tsx:27-31 runs `fetchNotes` whenever `currentUser` becomes truthy. Scheduling that call is React's job and is left to the caller of `Home.FetchNotes`.
- `fetchNotes` is asynchronous, and the model does not cover handlers that interleave with it. For example, a logout while a fetch is still running would be followed by that fetch filling `notes` again.
- `Home.FetchNotes` turns the sorted array into a sequence value. The source stores the same array object in the `notes` state. Nothing touches that array afterwards, so this aliasing is not modelled.
- `JsText.ToLower`: covers only the ASCII letters `A`-`Z`. JavaScript's `toLowerCase` applies full Unicode case mapping, which the model does not include.
- `Notes.Preview`: lengths count Unicode code points. JavaScript's `length` and `substring` count UTF-16 code units, so the two differ for characters outside the Basic Multilingual Plane.
- `NoteSort.SortInPlace`: a stable insertion sort. JavaScript engines use other stable algorithms, and a stable sort with a given comparator produces a single possible order. `b.id - a.id` is taken as exact integer subtraction, which JavaScript numbers give for ids below 2^53.
- The following rendering is not modelled: the JSX tree, CSS classes, the loading spinner, the "Total Notes" counter (simply the length of `notes`), and the date shown through `toLocaleDateString` (frontend/src/app/page.tsx:254). The last is locale-dependent library behaviour. `created_at` is kept in `Note` but unused.
- main.py is not part of this model: it is MCP server wiring with two stub tools. `get_my_notes` returns the constant "no notes" and `add_note` echoes its input.
- frontend_api.py and database.py are not part of this model: they are a database query with field projection and the database and table setup.
- Storage, the vector index, embeddings, clustering, chunking, URL enrichment and keyword task detection appear in none of these files and are not modelled.
