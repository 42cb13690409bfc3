/** Sequence notions shared by the note views: first occurrence,
    order-preserving subsequence, and the duplicate-free list that
    `Array.from(new Set(s))` builds. */
module Seqs {

  /** First index at which `x` occurs in `s`. */
  function IndexOf<T(==)>(s: seq<T>, x: T): (k: nat)
    requires x in s
    ensures k < |s| && s[k] == x
    ensures forall i :: 0 <= i < k ==> s[i] != x
  {
    if s[0] == x then 0 else 1 + IndexOf(s[1..], x)
  }

  /** Appending to a sequence does not move the first occurrence of
      anything already in it. */
  lemma IndexOfAppend<T>(s: seq<T>, x: T, y: T)
    requires y in s
    ensures IndexOf(s + [x], y) == IndexOf(s, y)
  {
    var k := IndexOf(s, y);
    var k' := IndexOf(s + [x], y);
    assert (s + [x])[k] == y;
    assert k' <= k;
  }

  /** `a` can be obtained from `b` by deleting elements: nothing is
      invented and the relative order is kept. */
  predicate IsSubsequence<T(==)>(a: seq<T>, b: seq<T>)
    decreases |b|
  {
    if a == [] then true
    else if b == [] then false
    else (a[0] == b[0] && IsSubsequence(a[1..], b[1..])) || IsSubsequence(a, b[1..])
  }

  predicate Distinct<T(==)>(s: seq<T>) {
    forall i, j :: 0 <= i < j < |s| ==> s[i] != s[j]
  }

  /** `d` lists the elements of `s`, each once, in order of first
      occurrence in `s`. */
  predicate ListsFirstOccurrences<T(==)>(d: seq<T>, s: seq<T>) {
    && (forall i :: 0 <= i < |d| ==> d[i] in s)
    && (forall i :: 0 <= i < |s| ==> s[i] in d)
    && Distinct(d)
    && (forall i, j :: 0 <= i < j < |d| ==> IndexOf(s, d[i]) < IndexOf(s, d[j]))
  }

  /** What inserting `s` into a JavaScript `Set` and reading it back gives. */
  function Dedup<T(==)>(s: seq<T>): (d: seq<T>)
    ensures ListsFirstOccurrences(d, s)
  {
    if s == [] then []
    else
      var d := Dedup(s[..|s| - 1]);
      DedupStep(d, s);
      if s[|s| - 1] in d then d else d + [s[|s| - 1]]
  }

  lemma DedupSameElements<T>(s: seq<T>)
    ensures forall x :: x in Dedup(s) <==> x in s
  {
    var d := Dedup(s);
    forall x ensures x in d <==> x in s {
      if x in d {
        var i :| 0 <= i < |d| && d[i] == x;
      }
      if x in s {
        var i :| 0 <= i < |s| && s[i] == x;
      }
    }
  }

  /** One more element read into the `Set`. */
  lemma DedupStep<T>(d: seq<T>, s': seq<T>)
    requires s' != []
    requires ListsFirstOccurrences(d, s'[..|s'| - 1])
    ensures var x := s'[|s'| - 1];
      ListsFirstOccurrences(if x in d then d else d + [x], s')
  {
    var s, x := s'[..|s'| - 1], s'[|s'| - 1];
    assert s' == s + [x];
    if x in d {
      DedupSeen(d, s, x);
    } else {
      DedupNew(d, s, x);
    }
  }

  /** A value already in the `Set` leaves it as it is. */
  lemma DedupSeen<T>(d: seq<T>, s: seq<T>, x: T)
    requires ListsFirstOccurrences(d, s) && x in d
    ensures ListsFirstOccurrences(d, s + [x])
  {
    var s' := s + [x];
    forall i | 0 <= i < |d| ensures IndexOf(s', d[i]) == IndexOf(s, d[i]) {
      IndexOfAppend(s, x, d[i]);
    }
    forall i | 0 <= i < |s'| ensures s'[i] in d {
      if i < |s| { assert s'[i] == s[i]; }
    }
  }

  /** A new value goes to the end of the `Set`. */
  lemma DedupNew<T>(d: seq<T>, s: seq<T>, x: T)
    requires ListsFirstOccurrences(d, s) && x !in d
    ensures ListsFirstOccurrences(d + [x], s + [x])
  {
    var s', d' := s + [x], d + [x];
    assert x !in s;
    assert IndexOf(s', x) == |s|;
    forall i | 0 <= i < |d| ensures IndexOf(s', d[i]) == IndexOf(s, d[i]) < |s| {
      IndexOfAppend(s, x, d[i]);
    }
    forall i, j | 0 <= i < j < |d'| ensures IndexOf(s', d'[i]) < IndexOf(s', d'[j]) {
      assert d'[i] == d[i];
      if j < |d| {
        assert d'[j] == d[j];
      }
    }
    forall i | 0 <= i < |s'| ensures s'[i] in d' {
      if i < |s| { assert s'[i] == s[i]; }
    }
  }
}
