/** `data.sort((a, b) => b.id - a.id)`: the fetched notes, newest id
    first. JavaScript's `Array.prototype.sort` is stable, so notes with
    equal ids keep their relative order. */
module NoteSort {

  import opened Notes

  predicate SortedByIdDesc(s: seq<Note>) {
    forall i, j :: 0 <= i < j < |s| ==> s[i].id >= s[j].id
  }

  predicate AllIdsAtLeast(s: seq<Note>, bound: int) {
    forall i :: 0 <= i < |s| ==> s[i].id >= bound
  }

  /** Puts `x` after the last element whose id is at least `x.id`:
      the place a stable descending insertion gives it. */
  function InsertDesc(s: seq<Note>, x: Note): seq<Note> {
    if s == [] || s[|s| - 1].id >= x.id then s + [x]
    else InsertDesc(s[..|s| - 1], x) + [s[|s| - 1]]
  }

  lemma {:induction false} InsertDescPermutes(s: seq<Note>, x: Note)
    ensures multiset(InsertDesc(s, x)) == multiset(s) + multiset{x}
  {
    if s != [] && s[|s| - 1].id < x.id {
      assert s == s[..|s| - 1] + [s[|s| - 1]];
      InsertDescPermutes(s[..|s| - 1], x);
    }
  }

  /** A lower bound on the ids survives an insertion above it. */
  lemma {:induction false} InsertDescBound(s: seq<Note>, x: Note, bound: int)
    requires AllIdsAtLeast(s, bound) && x.id >= bound
    ensures AllIdsAtLeast(InsertDesc(s, x), bound)
  {
    if s != [] && s[|s| - 1].id < x.id {
      assert AllIdsAtLeast(s[..|s| - 1], bound);
      InsertDescBound(s[..|s| - 1], x, bound);
    }
  }

  /** Inserting into a newest-first list keeps it newest-first. */
  lemma {:induction false} InsertDescSorted(s: seq<Note>, x: Note)
    requires SortedByIdDesc(s)
    ensures SortedByIdDesc(InsertDesc(s, x))
  {
    if s != [] && s[|s| - 1].id < x.id {
      var init, last := s[..|s| - 1], s[|s| - 1];
      assert AllIdsAtLeast(init, last.id);
      InsertDescBound(init, x, last.id);
      InsertDescSorted(init, x);
    }
  }

  /** The order `fetchNotes` leaves the fetched notes in: a stable
      insertion sort on descending id. */
  function SortByIdDesc(s: seq<Note>): seq<Note> {
    if s == [] then []
    else InsertDesc(SortByIdDesc(s[..|s| - 1]), s[|s| - 1])
  }

  /** The sorted notes are the fetched notes, each as often as fetched. */
  lemma {:induction false} SortPermutes(s: seq<Note>)
    ensures multiset(SortByIdDesc(s)) == multiset(s)
  {
    if s != [] {
      assert s == s[..|s| - 1] + [s[|s| - 1]];
      SortPermutes(s[..|s| - 1]);
      InsertDescPermutes(SortByIdDesc(s[..|s| - 1]), s[|s| - 1]);
    }
  }

  /** The sorted notes run from the highest id to the lowest. */
  lemma {:induction false} SortOrders(s: seq<Note>)
    ensures SortedByIdDesc(SortByIdDesc(s))
  {
    if s != [] {
      SortOrders(s[..|s| - 1]);
      InsertDescSorted(SortByIdDesc(s[..|s| - 1]), s[|s| - 1]);
    }
  }

  /** The notes of `s` whose id is `k`, in order. */
  function WithId(s: seq<Note>, k: int): seq<Note> {
    if s == [] then []
    else WithId(s[..|s| - 1], k) + (if s[|s| - 1].id == k then [s[|s| - 1]] else [])
  }

  lemma {:induction false} InsertDescStable(s: seq<Note>, x: Note, k: int)
    ensures WithId(InsertDesc(s, x), k) == WithId(s, k) + (if x.id == k then [x] else [])
    decreases |s|
  {
    if s == [] || s[|s| - 1].id >= x.id {
      assert (s + [x])[..|s|] == s;
    } else {
      var init, last := s[..|s| - 1], s[|s| - 1];
      var r := InsertDesc(init, x) + [last];
      InsertDescStable(init, x, k);
      assert r[..|r| - 1] == InsertDesc(init, x);
    }
  }

  /** Stability: for every id, the notes carrying it appear in the sorted
      list in the order they were fetched. */
  lemma {:induction false} SortStable(s: seq<Note>, k: int)
    ensures WithId(SortByIdDesc(s), k) == WithId(s, k)
  {
    if s != [] {
      var init, last := s[..|s| - 1], s[|s| - 1];
      SortStable(init, k);
      InsertDescStable(SortByIdDesc(init), last, k);
    }
  }

  /** Fetched data that is already newest-first is left as it is. */
  lemma {:induction false} SortSortedIsIdentity(s: seq<Note>)
    requires SortedByIdDesc(s)
    ensures SortByIdDesc(s) == s
  {
    if s != [] {
      var init, last := s[..|s| - 1], s[|s| - 1];
      assert SortedByIdDesc(init);
      SortSortedIsIdentity(init);
      assert init == [] || init[|init| - 1].id >= last.id;
      assert InsertDesc(init, last) == init + [last];
      assert s == init + [last];
    }
  }

  /** Moving `b[j - 1]` one place right past the pending note `x`. */
  lemma ShiftRight(b: seq<Note>, j: nat, i: nat, x: Note)
    requires 0 < j <= i < |b| && b[j - 1].id < x.id
    ensures var c := b[j := b[j - 1]];
      InsertDesc(b[..j], x) + b[j + 1..i + 1] == InsertDesc(c[..j - 1], x) + c[j..i + 1]
  {
    var c := b[j := b[j - 1]];
    assert b[..j] == b[..j - 1] + [b[j - 1]];
    assert c[..j - 1] == b[..j - 1];
    assert c[j..i + 1] == [b[j - 1]] + b[j + 1..i + 1];
  }

  /** Writing `x` into the gap at `j` once nothing to its left is smaller. */
  lemma PlaceInGap(b: seq<Note>, j: nat, i: nat, x: Note)
    requires j <= i < |b| && (j == 0 || b[j - 1].id >= x.id)
    ensures b[j := x][..i + 1] == InsertDesc(b[..j], x) + b[j + 1..i + 1]
  {
    var c := b[j := x];
    assert c[..i + 1] == b[..j] + [x] + b[j + 1..i + 1];
  }

  /** One step of the insertion sort: `a[..i]` is newest-first and
      `a[i]` moves left past every note with a smaller id. */
  method InsertAt(a: array<Note>, i: nat)
    requires i < a.Length
    modifies a
    ensures a[..i + 1] == InsertDesc(old(a[..i]), old(a[i]))
    ensures a[i + 1..] == old(a[i + 1..])
  {
    ghost var prefix := a[..i];
    ghost var rest := a[i + 1..];
    var x := a[i];
    var j := i;
    while j > 0 && a[j - 1].id < x.id
      invariant 0 <= j <= i
      invariant InsertDesc(a[..j], x) + a[j + 1..i + 1] == InsertDesc(prefix, x)
      invariant a[i + 1..] == rest
    {
      ShiftRight(a[..], j, i, x);
      a[j] := a[j - 1];
      j := j - 1;
    }
    PlaceInGap(a[..], j, i, x);
    a[j] := x;
  }

  lemma SortExtend(s: seq<Note>, i: nat)
    requires i < |s|
    ensures SortByIdDesc(s[..i + 1]) == InsertDesc(SortByIdDesc(s[..i]), s[i])
  {
    assert s[..i + 1][..i] == s[..i];
  }

  /** Sorts the array in place into the order `SortByIdDesc` describes. */
  method SortInPlace(a: array<Note>)
    modifies a
    ensures a[..] == SortByIdDesc(old(a[..]))
  {
    ghost var orig := a[..];
    var i := 0;
    while i < a.Length
      invariant 0 <= i <= a.Length
      invariant a[..i] == SortByIdDesc(orig[..i])
      invariant a[i..] == orig[i..]
    {
      SortExtend(orig, i);
      assert a[i] == orig[i] && a[i + 1..] == orig[i + 1..];
      InsertAt(a, i);
      i := i + 1;
    }
    assert orig[..a.Length] == orig;
  }
}
