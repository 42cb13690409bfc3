/** The state hooks of the notes page and the handlers that change them:
    loading the notes, logging in and out, the search box, the category
    buttons and expanding a note. */
module Board {

  import opened Notes
  import opened JsText
  import NoteSort

  /** A user id the login form accepts: not empty and already trimmed. */
  predicate IsUserId(s: string) {
    s != [] && !IsJsSpace(s[0]) && !IsJsSpace(s[|s| - 1])
  }

  /** The current user after the login form is submitted with `input`:
      the trimmed input, unless it is all white space, in which case
      nothing changes. */
  function LoginResult(current: Option<string>, input: string): (r: Option<string>)
    ensures r != current ==> r == Some(Trim(input)) && IsUserId(r.value)
  {
    var id := Trim(input);
    if id != "" then Some(id) else current
  }

  /** The form logs in exactly when the input is not all white space. */
  lemma LoginAcceptsIff(current: Option<string>, input: string)
    ensures LoginResult(current, input) == if AllSpace(input) then current else Some(Trim(input))
  {
    TrimEmptyIff(input);
  }

  /** The expanded note after a click on `n`: a note with a code snippet
      or scraped context opens, or closes if it was the open one; clicking
      any other note changes nothing. */
  function Toggled(expanded: Option<int>, n: Note): (r: Option<int>)
    ensures !HasExtraContent(n) ==> r == expanded
    ensures HasExtraContent(n) ==> (r == Some(n.id) <==> expanded != Some(n.id))
    ensures HasExtraContent(n) ==> r == None || r == Some(n.id)
  {
    if HasExtraContent(n) then
      (if expanded == Some(n.id) then None else Some(n.id))
    else expanded
  }

  /** Clicking the same note twice closes what the first click opened. */
  lemma ToggleTwice(expanded: Option<int>, n: Note)
    requires expanded == None || expanded == Some(n.id)
    ensures Toggled(Toggled(expanded, n), n) == expanded
  {
  }

  /** The page's `useState` hooks. */
  class Home {
    var notes: seq<Note>
    var loading: bool
    var filter: string
    var searchQuery: string
    var expandedNote: Option<int>
    var currentUser: Option<string>
    var loginInput: string

    /** Nobody but a trimmed, non-empty id is ever logged in. */
    ghost predicate Valid()
      reads this
    {
      currentUser.Some? ==> IsUserId(currentUser.value)
    }

    /** The initial hook values. */
    constructor ()
      ensures Valid()
      ensures notes == [] && loading && filter == AllLabel && searchQuery == ""
      ensures expandedNote == None && currentUser == None && loginInput == ""
    {
      notes := [];
      loading := true;
      filter := AllLabel;
      searchQuery := "";
      expandedNote := None;
      currentUser := None;
      loginInput := "";
    }

    /** `fetchNotes` once the request has finished: `response` is the
        decoded array, or `None` when the request or the decoding threw,
        or the decoded body was not an array so that `data.sort` threw.
        On success the array is sorted in place, newest first, and becomes
        the note list; on failure the notes stay as they were. */
    method FetchNotes(response: Option<array<Note>>)
      requires Valid()
      modifies this, if response.Some? then {response.value} else {}
      ensures Valid()
      ensures !loading
      ensures response.Some? ==> response.value[..] == notes
      ensures response.Some? ==> notes == NoteSort.SortByIdDesc(old(response.value[..]))
      ensures response.None? ==> notes == old(notes)
      ensures filter == old(filter) && searchQuery == old(searchQuery)
      ensures expandedNote == old(expandedNote)
      ensures currentUser == old(currentUser) && loginInput == old(loginInput)
    {
      loading := true;
      match response {
        case Some(data) =>
          NoteSort.SortInPlace(data);
          notes := data[..];
        case None =>
      }
      loading := false;
    }

    /** Typing into the login box. */
    method SetLoginInput(value: string)
      requires Valid()
      modifies this
      ensures Valid()
      ensures loginInput == value
      ensures notes == old(notes) && loading == old(loading) && filter == old(filter)
      ensures searchQuery == old(searchQuery) && expandedNote == old(expandedNote)
      ensures currentUser == old(currentUser)
    {
      loginInput := value;
    }

    /** Submitting the login form. */
    method Login()
      requires Valid()
      modifies this
      ensures Valid()
      ensures currentUser == LoginResult(old(currentUser), old(loginInput))
      ensures notes == old(notes) && loading == old(loading) && filter == old(filter)
      ensures searchQuery == old(searchQuery) && expandedNote == old(expandedNote)
      ensures loginInput == old(loginInput)
    {
      var id := Trim(loginInput);
      if id != "" {
        currentUser := Some(id);
      }
    }

    /** The logout button. The filter, the search text and the expanded
        note are left as they were. */
    method Logout()
      requires Valid()
      modifies this
      ensures Valid()
      ensures currentUser == None && loginInput == "" && notes == []
      ensures loading == old(loading) && filter == old(filter)
      ensures searchQuery == old(searchQuery) && expandedNote == old(expandedNote)
    {
      currentUser := None;
      loginInput := "";
      notes := [];
    }

    /** Typing into the search box. */
    method SetSearchQuery(value: string)
      requires Valid()
      modifies this
      ensures Valid()
      ensures searchQuery == value
      ensures notes == old(notes) && loading == old(loading) && filter == old(filter)
      ensures expandedNote == old(expandedNote)
      ensures currentUser == old(currentUser) && loginInput == old(loginInput)
    {
      searchQuery := value;
    }

    /** Clicking a category button. */
    method SetFilter(category: string)
      requires Valid()
      modifies this
      ensures Valid()
      ensures filter == category
      ensures notes == old(notes) && loading == old(loading)
      ensures searchQuery == old(searchQuery) && expandedNote == old(expandedNote)
      ensures currentUser == old(currentUser) && loginInput == old(loginInput)
    {
      filter := category;
    }

    /** Clicking a note card. */
    method ClickNote(note: Note)
      requires Valid()
      modifies this
      ensures Valid()
      ensures expandedNote == Toggled(old(expandedNote), note)
      ensures notes == old(notes) && loading == old(loading) && filter == old(filter)
      ensures searchQuery == old(searchQuery)
      ensures currentUser == old(currentUser) && loginInput == old(loginInput)
    {
      var isExpanded := expandedNote == Some(note.id);
      var hasExtraContent := Truthy(note.codeSnippet) || Truthy(note.webContext);
      if hasExtraContent {
        expandedNote := if isExpanded then None else Some(note.id);
      }
    }
  }
}
