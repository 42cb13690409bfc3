/** The notes page's view of the data: the `Note` record the backend
    sends, and the lists and labels the page derives from it on every
    render. */
module Notes {

  import opened Seqs
  import opened JsText

  datatype Option<T> = None | Some(value: T)

  /** A note as the notes API returns it; `null` fields are `None`. */
  datatype Note = Note(
    id: int,
    content: string,
    category: Option<string>,
    isTask: int,
    filePath: Option<string>,
    codeSnippet: Option<string>,
    webContext: Option<string>,
    createdAt: string)

  /** JavaScript truthiness of a `string | null`: neither null nor "". */
  predicate Truthy(o: Option<string>) {
    o.Some? && o.value != ""
  }

  /** `o || ""` */
  function OrEmpty(o: Option<string>): (r: string)
    ensures Truthy(o) ==> r == o.value
    ensures !Truthy(o) ==> r == ""
  {
    if o.Some? then o.value else ""
  }

  // ---------------------------------------------------------------- search and filter

  const AllLabel := "All"
  const TasksLabel := "Tasks"

  /** The search box: the lower-cased query occurs in the lower-cased
      content or in the lower-cased file path (a missing path reads as ""). */
  predicate MatchesSearch(n: Note, query: string) {
    Includes(ToLower(n.content), ToLower(query)) ||
    Includes(ToLower(OrEmpty(n.filePath)), ToLower(query))
  }

  /** The category buttons: "All" keeps everything, "Tasks" keeps the
      notes whose `is_task` is exactly 1, any other label keeps the notes
      of that category. */
  predicate MatchesFilter(n: Note, filter: string) {
    if filter == AllLabel then true
    else if filter == TasksLabel then n.isTask == 1
    else n.category == Some(filter)
  }

  predicate Shown(n: Note, filter: string, query: string) {
    MatchesSearch(n, query) && MatchesFilter(n, filter)
  }

  /** `filteredNotes`: the notes that pass the search and the category
      filter, in their original order, each as often as in `notes`. */
  function FilteredNotes(notes: seq<Note>, filter: string, query: string): (r: seq<Note>)
    ensures forall i :: 0 <= i < |r| ==> Shown(r[i], filter, query)
    ensures IsSubsequence(r, notes)
    ensures forall n :: Shown(n, filter, query) ==> multiset(r)[n] == multiset(notes)[n]
  {
    if notes == [] then []
    else
      var rest := FilteredNotes(notes[1..], filter, query);
      assert notes == [notes[0]] + notes[1..];
      if Shown(notes[0], filter, query) then [notes[0]] + rest else rest
  }

  lemma FilteredMembership(notes: seq<Note>, filter: string, query: string, n: Note)
    ensures n in FilteredNotes(notes, filter, query) <==> n in notes && Shown(n, filter, query)
  {
    var r := FilteredNotes(notes, filter, query);
    if n in r {
      var i :| 0 <= i < |r| && r[i] == n;
      assert multiset(r)[n] > 0;
    }
  }

  /** With "All", exactly the notes matching the search are shown. */
  lemma FilterAll(notes: seq<Note>, query: string, n: Note)
    ensures n in FilteredNotes(notes, AllLabel, query) <==> n in notes && MatchesSearch(n, query)
  {
    FilteredMembership(notes, AllLabel, query, n);
  }

  /** With "Tasks", exactly the matching notes with `is_task == 1`. */
  lemma FilterTasks(notes: seq<Note>, query: string, n: Note)
    ensures n in FilteredNotes(notes, TasksLabel, query) <==>
            n in notes && MatchesSearch(n, query) && n.isTask == 1
  {
    FilteredMembership(notes, TasksLabel, query, n);
  }

  /** With any other label, exactly the matching notes of that category. */
  lemma FilterCategory(notes: seq<Note>, filter: string, query: string, n: Note)
    requires filter != AllLabel && filter != TasksLabel
    ensures n in FilteredNotes(notes, filter, query) <==>
            n in notes && MatchesSearch(n, query) && n.category == Some(filter)
  {
    FilteredMembership(notes, filter, query, n);
  }

  /** An empty search box with "All" selected shows every note, in order. */
  lemma {:induction false} EmptySearchShowsAll(notes: seq<Note>)
    ensures FilteredNotes(notes, AllLabel, "") == notes
  {
    if notes != [] {
      IncludesEmpty(ToLower(notes[0].content));
      EmptySearchShowsAll(notes[1..]);
    }
  }

  /** The search ignores the case of the query. */
  lemma {:induction false} SearchIgnoresQueryCase(notes: seq<Note>, filter: string, query: string)
    ensures FilteredNotes(notes, filter, ToLower(query)) == FilteredNotes(notes, filter, query)
  {
    ToLowerIdempotent(query);
    if notes != [] {
      SearchIgnoresQueryCase(notes[1..], filter, query);
    }
  }

  /** A note whose content holds the query verbatim is always found. */
  lemma VerbatimMatchFound(n: Note, query: string)
    requires Includes(n.content, query)
    ensures MatchesSearch(n, query)
  {
    IncludesLower(n.content, query);
  }

  /** Every button other than "All" narrows the "All" view. */
  lemma {:induction false} FilterNarrowsAll(notes: seq<Note>, filter: string, query: string)
    ensures IsSubsequence(FilteredNotes(notes, filter, query), FilteredNotes(notes, AllLabel, query))
  {
    if notes != [] {
      FilterNarrowsAll(notes[1..], filter, query);
      var r := FilteredNotes(notes, filter, query);
      var a := FilteredNotes(notes, AllLabel, query);
      var r' := FilteredNotes(notes[1..], filter, query);
      var a' := FilteredNotes(notes[1..], AllLabel, query);
      if Shown(notes[0], filter, query) {
        assert r == [notes[0]] + r' && a == [notes[0]] + a';
        assert r[1..] == r' && a[1..] == a';
      } else if MatchesSearch(notes[0], query) {
        assert r == r' && a == [notes[0]] + a' && a[1..] == a';
        if r != [] {
          assert IsSubsequence(r, a[1..]);
        }
      }
    }
  }

  // ---------------------------------------------------------------- categories

  /** `notes.map(n => n.category).filter(Boolean)`: the categories that
      are neither null nor empty, in note order. */
  function CategoryValues(notes: seq<Note>): (r: seq<string>)
    ensures |r| <= |notes|
    ensures forall c :: c in r <==> exists i :: 0 <= i < |notes| && notes[i].category == Some(c) && c != ""
  {
    if notes == [] then []
    else
      var rest := CategoryValues(notes[1..]);
      assert forall i :: 1 <= i < |notes| ==> notes[i] == notes[1..][i - 1];
      if Truthy(notes[0].category) then [notes[0].category.value] + rest else rest
  }

  /** `categories`: the two fixed buttons, then every non-empty category
      of the notes exactly once, in order of first appearance. */
  function Categories(notes: seq<Note>): (r: seq<string>)
    ensures |r| >= 2 && r[0] == AllLabel && r[1] == TasksLabel
    ensures forall c :: c in r[2..] <==>
              exists i :: 0 <= i < |notes| && notes[i].category == Some(c) && c != ""
    ensures Distinct(r[2..])
    ensures forall i :: 2 <= i < |r| ==> r[i] in CategoryValues(notes)
    ensures forall i, j :: 2 <= i < j < |r| ==>
              IndexOf(CategoryValues(notes), r[i]) < IndexOf(CategoryValues(notes), r[j])
  {
    var values := CategoryValues(notes);
    var d := Dedup(values);
    DedupSameElements(values);
    var r := [AllLabel, TasksLabel] + d;
    assert r[2..] == d;
    forall i, j | 2 <= i < j < |r| ensures IndexOf(values, r[i]) < IndexOf(values, r[j]) {
      assert r[i] == d[i - 2] && r[j] == d[j - 2];
    }
    r
  }

  /** Note `n` has the non-empty category `c`. */
  predicate Carries(n: Note, c: string) {
    n.category == Some(c) && c != ""
  }

  /** Some note carries `c` before any note (up to and including that one)
      carries `c'`. */
  predicate FirstBefore(notes: seq<Note>, c: string, c': string) {
    exists p :: 0 <= p < |notes| && Carries(notes[p], c) &&
      forall q :: 0 <= q <= p ==> !Carries(notes[q], c')
  }

  /** Earlier in `CategoryValues` means first carried by an earlier note. */
  lemma {:induction false} ValuesOrder(notes: seq<Note>, c: string, c': string)
    requires c in CategoryValues(notes) && c' in CategoryValues(notes)
    requires IndexOf(CategoryValues(notes), c) < IndexOf(CategoryValues(notes), c')
    ensures FirstBefore(notes, c, c')
  {
    var values := CategoryValues(notes);
    var rest := CategoryValues(notes[1..]);
    if Truthy(notes[0].category) && notes[0].category.value == c {
      assert Carries(notes[0], c) && !Carries(notes[0], c');
    } else {
      if Truthy(notes[0].category) {
        assert values == [notes[0].category.value] + rest;
        assert c' != notes[0].category.value;
        assert IndexOf(values, c) == 1 + IndexOf(rest, c);
        assert IndexOf(values, c') == 1 + IndexOf(rest, c');
      }
      ValuesOrder(notes[1..], c, c');
      var p :| 0 <= p < |notes[1..]| && Carries(notes[1..][p], c) &&
        forall q :: 0 <= q <= p ==> !Carries(notes[1..][q], c');
      assert !Carries(notes[0], c');
      assert forall q :: 1 <= q <= p + 1 ==> notes[q] == notes[1..][q - 1];
      assert Carries(notes[p + 1], c);
    }
  }

  /** The category buttons after the two fixed ones follow the order in
      which the notes first carry each category. */
  lemma CategoriesFirstAppearance(notes: seq<Note>)
    ensures var r := Categories(notes);
      forall i, j :: 2 <= i < j < |r| ==> FirstBefore(notes, r[i], r[j])
  {
    var r := Categories(notes);
    forall i, j | 2 <= i < j < |r| ensures FirstBefore(notes, r[i], r[j]) {
      ValuesOrder(notes, r[i], r[j]);
    }
  }

  // ---------------------------------------------------------------- counts and labels

  /** The "Open Tasks" counter: `notes.filter(n => n.is_task).length`,
      that is, the notes whose `is_task` is not 0. */
  function TaskCount(notes: seq<Note>): (r: nat)
    ensures r <= |notes|
    ensures r == 0 <==> forall i :: 0 <= i < |notes| ==> notes[i].isTask == 0
    ensures r == |notes| <==> forall i :: 0 <= i < |notes| ==> notes[i].isTask != 0
  {
    if notes == [] then 0
    else
      assert forall i :: 1 <= i < |notes| ==> notes[i] == notes[1..][i - 1];
      (if notes[0].isTask != 0 then 1 else 0) + TaskCount(notes[1..])
  }

  /** Whether each note is truthy under `n => n.is_task`, in note order. */
  function TaskFlags(notes: seq<Note>): seq<bool> {
    seq(|notes|, i requires 0 <= i < |notes| => notes[i].isTask != 0)
  }

  /** The counter is the number of notes whose `is_task` is truthy. */
  lemma {:induction false} TaskCountIsTruthyCount(notes: seq<Note>)
    ensures TaskCount(notes) == multiset(TaskFlags(notes))[true]
  {
    if notes != [] {
      TaskCountIsTruthyCount(notes[1..]);
      assert TaskFlags(notes) == [notes[0].isTask != 0] + TaskFlags(notes[1..]);
    }
  }

  /** The counter uses truthiness, the "Tasks" button `=== 1`; they agree
      as long as every `is_task` is 0 or 1. */
  lemma {:induction false} TaskCountMatchesTasksView(notes: seq<Note>)
    requires forall i :: 0 <= i < |notes| ==> notes[i].isTask == 0 || notes[i].isTask == 1
    ensures TaskCount(notes) == |FilteredNotes(notes, TasksLabel, "")|
  {
    if notes != [] {
      IncludesEmpty(ToLower(notes[0].content));
      TaskCountMatchesTasksView(notes[1..]);
    }
  }

  const PreviewLimit := 200

  /** The scraped-context preview: texts longer than 200 characters are
      cut to their first 200 and followed by "...". */
  function Preview(text: string): (r: string)
    ensures |text| <= PreviewLimit ==> r == text
    ensures |text| > PreviewLimit ==> |r| == PreviewLimit + 3 && r[PreviewLimit..] == "..."
    ensures |r| <= PreviewLimit + 3
    ensures var k := if |text| <= PreviewLimit then |text| else PreviewLimit;
      k <= |r| && r[..k] == text[..k]
  {
    if |text| > PreviewLimit then text[..PreviewLimit] + "..." else text
  }

  /** The preview leaves a text alone exactly when it is short enough, or
      when it is 203 characters ending in "..." already. */
  lemma PreviewUnchangedIff(text: string)
    ensures Preview(text) == text <==>
            |text| <= PreviewLimit || (|text| == PreviewLimit + 3 && text[PreviewLimit..] == "...")
  {
    if |text| == PreviewLimit + 3 && text[PreviewLimit..] == "..." {
      assert text == text[..PreviewLimit] + text[PreviewLimit..];
    }
  }

  /** The label on a category button or badge: `label.replace("_", " ")`. */
  function CategoryLabel(category: string): (r: string)
    ensures |r| == |category|
    ensures '_' !in category ==> r == category
    ensures '_' in category ==> var k := IndexOf(category, '_');
      r[k] == ' ' && r[..k] == category[..k] && r[k + 1..] == category[k + 1..]
  {
    ReplaceFirst(category, '_', ' ')
  }

  /** The file name under a note: `file_path.split("/").pop()`. */
  function FileName(path: string): (r: string)
    ensures '/' !in r
    ensures |r| <= |path| && r == path[|path| - |r|..]
    ensures |r| < |path| ==> path[|path| - |r| - 1] == '/'
  {
    LastSegment(path, '/')
  }

  /** `!!note.code_snippet || !!note.web_context`: the note has something
      to expand. */
  predicate HasExtraContent(n: Note) {
    Truthy(n.codeSnippet) || Truthy(n.webContext)
  }
}
