/** The JavaScript string operations the notes page relies on:
    `toLowerCase` (ASCII letters only), `includes`, `trim`,
    `replace` with a string pattern (first occurrence only) and
    `split("/").pop()`. Strings are sequences of characters. */
module JsText {

  import opened Seqs

  // ---------------------------------------------------------------- case

  predicate IsAsciiUpper(c: char) {
    'A' <= c <= 'Z'
  }

  function LowerChar(c: char): (d: char)
    ensures !IsAsciiUpper(d)
    ensures IsAsciiUpper(c) ==> d as int == c as int + 32
    ensures !IsAsciiUpper(c) ==> d == c
  {
    if IsAsciiUpper(c) then (c as int + 32) as char else c
  }

  /** `String.prototype.toLowerCase`, restricted to the ASCII letters. */
  function ToLower(s: string): (r: string)
    ensures |r| == |s|
    ensures forall i :: 0 <= i < |s| ==> r[i] == LowerChar(s[i])
  {
    if s == [] then [] else [LowerChar(s[0])] + ToLower(s[1..])
  }

  lemma ToLowerIdempotent(s: string)
    ensures ToLower(ToLower(s)) == ToLower(s)
  {
  }

  // ---------------------------------------------------------------- includes

  predicate HasInfixAt(s: string, t: string, i: nat) {
    i + |t| <= |s| && s[i..i + |t|] == t
  }

  predicate StartsWith(s: string, t: string) {
    |t| <= |s| && s[..|t|] == t
  }

  /** `s.includes(t)`: `t` occurs as a contiguous piece of `s`. */
  function Includes(s: string, t: string): (b: bool)
    ensures b <==> exists i :: 0 <= i <= |s| - |t| && HasInfixAt(s, t, i)
    decreases |s|
  {
    if StartsWith(s, t) then
      assert HasInfixAt(s, t, 0);
      true
    else if s == [] then
      false
    else
      var b := Includes(s[1..], t);
      assert b ==> exists i :: 0 <= i <= |s| - |t| && HasInfixAt(s, t, i) by {
        if b {
          var j :| 0 <= j <= |s[1..]| - |t| && HasInfixAt(s[1..], t, j);
          assert s[j + 1..j + 1 + |t|] == s[1..][j..j + |t|];
          assert HasInfixAt(s, t, j + 1);
        }
      }
      assert (exists i :: 0 <= i <= |s| - |t| && HasInfixAt(s, t, i)) ==> b by {
        if exists i :: 0 <= i <= |s| - |t| && HasInfixAt(s, t, i) {
          var i :| 0 <= i <= |s| - |t| && HasInfixAt(s, t, i);
          assert i != 0;
          assert s[1..][i - 1..i - 1 + |t|] == s[i..i + |t|];
          assert HasInfixAt(s[1..], t, i - 1);
        }
      }
      b
  }

  lemma IncludesEmpty(s: string)
    ensures Includes(s, "")
  {
    assert HasInfixAt(s, "", 0);
  }

  /** A match found in `s` survives lower-casing both sides. */
  lemma IncludesLower(s: string, t: string)
    requires Includes(s, t)
    ensures Includes(ToLower(s), ToLower(t))
  {
    var i :| 0 <= i <= |s| - |t| && HasInfixAt(s, t, i);
    var ls, lt := ToLower(s), ToLower(t);
    forall k | 0 <= k < |t| ensures ls[i + k] == lt[k] {
      assert s[i + k] == s[i..i + |t|][k] == t[k];
    }
    assert ls[i..i + |t|] == lt;
    assert HasInfixAt(ls, lt, i);
  }

  // ---------------------------------------------------------------- trim

  /** ECMAScript WhiteSpace and LineTerminator code points: exactly what
      `String.prototype.trim` strips. */
  predicate IsJsSpace(c: char) {
    c == '\t' || c == '\n' || c == '\U{000B}' || c == '\U{000C}' || c == '\r' ||
    c == ' ' || c == '\U{00A0}' || c == '\U{1680}' ||
    ('\U{2000}' <= c <= '\U{200A}') ||
    c == '\U{2028}' || c == '\U{2029}' || c == '\U{202F}' || c == '\U{205F}' ||
    c == '\U{3000}' || c == '\U{FEFF}'
  }

  predicate AllSpace(s: string) {
    forall i :: 0 <= i < |s| ==> IsJsSpace(s[i])
  }

  function TrimStart(s: string): (r: string)
    ensures |r| <= |s| && r == s[|s| - |r|..]
    ensures AllSpace(s[..|s| - |r|])
    ensures r == [] || !IsJsSpace(r[0])
  {
    if s != [] && IsJsSpace(s[0]) then TrimStart(s[1..]) else s
  }

  function TrimEnd(s: string): (r: string)
    ensures |r| <= |s| && r == s[..|r|]
    ensures AllSpace(s[|r|..])
    ensures r == [] || !IsJsSpace(r[|r| - 1])
  {
    if s != [] && IsJsSpace(s[|s| - 1]) then TrimEnd(s[..|s| - 1]) else s
  }

  /** `r` sits at `i` in `s`, with only white space before and after it. */
  predicate PaddedAt(s: string, r: string, i: nat) {
    i <= |s| - |r| && HasInfixAt(s, r, i) && AllSpace(s[..i]) && AllSpace(s[i + |r|..])
  }

  /** `s.trim()`: `s` without its leading and trailing white space. */
  function Trim(s: string): (r: string)
    ensures r == [] || (!IsJsSpace(r[0]) && !IsJsSpace(r[|r| - 1]))
    ensures exists i :: PaddedAt(s, r, i)
  {
    var t := TrimStart(s);
    var r := TrimEnd(t);
    TrimPieces(s, |s| - |t|, t, r);
    r
  }

  /** A white-space prefix off `s`, then a white-space suffix off the rest,
      leaves `r` padded by white space at `i` in `s`. */
  lemma TrimPieces(s: string, i: nat, t: string, r: string)
    requires i <= |s| && t == s[i..] && AllSpace(s[..i])
    requires |r| <= |t| && r == t[..|r|] && AllSpace(t[|r|..])
    ensures PaddedAt(s, r, i)
  {
    assert s[i..i + |r|] == r;
    assert s[i + |r|..] == t[|r|..];
  }

  /** `trim` gives the empty string exactly on all-white-space input. */
  lemma TrimEmptyIff(s: string)
    ensures Trim(s) == [] <==> AllSpace(s)
  {
    var t := TrimStart(s);
    if Trim(s) == [] {
      assert AllSpace(t[..0]) && t[0..] == t;
      assert s == s[..|s| - |t|] + t;
    }
  }

  lemma TrimIdempotent(s: string)
    ensures Trim(Trim(s)) == Trim(s)
  {
  }

  // ---------------------------------------------------------------- replace

  /** `s.replace(from, to)` with single-character pattern and replacement:
      only the first occurrence of `from` is replaced. */
  function ReplaceFirst(s: string, from: char, to: char): (r: string)
    ensures |r| == |s|
    ensures from !in s ==> r == s
    ensures from in s ==> var k := IndexOf(s, from);
      r[k] == to && forall i :: 0 <= i < |s| && i != k ==> r[i] == s[i]
  {
    if s == [] then []
    else if s[0] == from then [to] + s[1..]
    else [s[0]] + ReplaceFirst(s[1..], from, to)
  }

  /** Exactly one occurrence of `from` disappears (when `from != to`). */
  lemma {:induction false} ReplaceFirstCount(s: string, from: char, to: char)
    requires from != to
    ensures multiset(ReplaceFirst(s, from, to))[from] ==
            (if from in s then multiset(s)[from] - 1 else 0)
  {
    if s != [] {
      assert s == [s[0]] + s[1..];
      if s[0] != from {
        ReplaceFirstCount(s[1..], from, to);
      }
    }
  }

  // ---------------------------------------------------------------- split / pop

  /** `s.split(sep).pop()`: the text after the last `sep`, or all of `s`
      when `sep` does not occur. */
  function LastSegment(s: string, sep: char): (r: string)
    ensures sep !in r
    ensures |r| <= |s| && r == s[|s| - |r|..]
    ensures |r| < |s| ==> s[|s| - |r| - 1] == sep
  {
    if s == [] then []
    else if s[|s| - 1] == sep then []
    else LastSegment(s[..|s| - 1], sep) + [s[|s| - 1]]
  }

  lemma LastSegmentNoSep(s: string, sep: char)
    requires sep !in s
    ensures LastSegment(s, sep) == s
  {
  }

  lemma LastSegmentAppend(dir: string, sep: char, name: string)
    requires sep !in name
    ensures LastSegment(dir + [sep] + name, sep) == name
  {
    var s := dir + [sep] + name;
    assert s[|s| - |name|..] == name;
    assert s[|s| - |name| - 1] == sep;
  }
}
