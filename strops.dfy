/**
 * The Python `str` operations the extractor relies on, over an explicit ASCII model:
 * `lower()` maps only 'A'..'Z', whitespace is the set of ASCII characters for which
 * `isspace()` holds, and `isdigit()` accepts only '0'..'9'.
 */
module StrOps {
  import opened Wrappers

  /** The ASCII characters for which Python's `str.isspace()` holds. */
  const WHITESPACE: set<char> :=
    {' ', '\t', '\n', '\U{0B}', '\U{0C}', '\r', '\U{1C}', '\U{1D}', '\U{1E}', '\U{1F}'}

  function LowerChar(c: char): char {
    if 'A' <= c <= 'Z' then (c as int + 32) as char else c
  }

  /** `s.lower()` */
  function Lower(s: string): (r: string)
    ensures |r| == |s|
    ensures forall i :: 0 <= i < |s| ==> r[i] == LowerChar(s[i])
  {
    seq(|s|, i requires 0 <= i < |s| => LowerChar(s[i]))
  }

  lemma LowerIdempotent(s: string)
    ensures Lower(Lower(s)) == Lower(s)
  {
  }

  lemma LowerSlice(s: string, i: nat, j: nat)
    requires i <= j <= |s|
    ensures Lower(s[i..j]) == Lower(s)[i..j]
  {
  }

  // ----- substrings -----------------------------------------------------------------

  /** `needle` occurs in `hay` starting at position `i`. */
  predicate OccursAt(needle: string, hay: string, i: nat) {
    i + |needle| <= |hay| && hay[i..i + |needle|] == needle
  }

  /** `needle in hay` for strings: some window of `hay` equals `needle`. */
  ghost predicate IsSubstring(needle: string, hay: string) {
    exists i: nat :: OccursAt(needle, hay, i)
  }

  predicate StartsWith(s: string, prefix: string) {
    |prefix| <= |s| && s[..|prefix|] == prefix
  }

  /** `needle in hay`, as a left-to-right scan over the start positions of `hay`. */
  predicate Contains(hay: string, needle: string)
    decreases |hay|
  {
    StartsWith(hay, needle) || (hay != [] && Contains(hay[1..], needle))
  }

  lemma {:induction false} ContainsIsSubstring(hay: string, needle: string)
    ensures Contains(hay, needle) <==> IsSubstring(needle, hay)
    decreases |hay|
  {
    if StartsWith(hay, needle) {
      assert OccursAt(needle, hay, 0);
    } else if hay == [] {
      assert forall i: nat :: !OccursAt(needle, hay, i);
    } else {
      var tail := hay[1..];
      ContainsIsSubstring(tail, needle);
      if IsSubstring(needle, hay) {
        var i: nat :| OccursAt(needle, hay, i);
        assert i != 0;
        assert tail[i - 1..i - 1 + |needle|] == hay[i..i + |needle|];
        assert OccursAt(needle, tail, i - 1);
      }
      if IsSubstring(needle, tail) {
        var j: nat :| OccursAt(needle, tail, j);
        assert hay[j + 1..j + 1 + |needle|] == tail[j..j + |needle|];
        assert OccursAt(needle, hay, j + 1);
      }
    }
  }

  lemma SubstringTransitive(a: string, b: string, c: string)
    requires IsSubstring(a, b) && IsSubstring(b, c)
    ensures IsSubstring(a, c)
  {
    var i: nat :| OccursAt(a, b, i);
    var j: nat :| OccursAt(b, c, j);
    assert forall k :: 0 <= k < |a| ==> c[j + i + k] == b[i + k] == a[k];
    assert c[j + i..j + i + |a|] == a;
    assert OccursAt(a, c, j + i);
  }

  lemma SliceIsSubstring(s: string, i: nat, j: nat)
    requires i <= j <= |s|
    ensures IsSubstring(s[i..j], s)
  {
    assert OccursAt(s[i..j], s, i);
  }

  // ----- strip ----------------------------------------------------------------------

  /** Number of leading characters of `s` that belong to `cs`. */
  function LeadingIn(s: string, cs: set<char>): (n: nat)
    ensures n <= |s|
    ensures forall k :: 0 <= k < n ==> s[k] in cs
    ensures n < |s| ==> s[n] !in cs
  {
    if s == [] || s[0] !in cs then 0 else 1 + LeadingIn(s[1..], cs)
  }

  /** Number of trailing characters of `s` that belong to `cs`. */
  function TrailingIn(s: string, cs: set<char>): (n: nat)
    ensures n <= |s|
    ensures forall k :: |s| - n <= k < |s| ==> s[k] in cs
    ensures n < |s| ==> s[|s| - 1 - n] !in cs
  {
    if s == [] || s[|s| - 1] !in cs then 0 else 1 + TrailingIn(s[..|s| - 1], cs)
  }

  /** Number of leading characters of `s` that do not belong to `cs`. */
  function LeadingNotIn(s: string, cs: set<char>): (n: nat)
    ensures n <= |s|
    ensures forall k :: 0 <= k < n ==> s[k] !in cs
    ensures n < |s| ==> s[n] in cs
  {
    if s == [] || s[0] in cs then 0 else 1 + LeadingNotIn(s[1..], cs)
  }

  /**
   * `s.strip(chars)`: the result is the window of `s` left after removing the longest
   * prefix and the longest suffix whose characters all belong to `cs`.
   */
  function StripChars(s: string, cs: set<char>): (r: string)
    ensures LeadingIn(s, cs) + |r| <= |s| && r == s[LeadingIn(s, cs)..LeadingIn(s, cs) + |r|]
    ensures forall k :: 0 <= k < LeadingIn(s, cs) ==> s[k] in cs
    ensures forall k :: LeadingIn(s, cs) + |r| <= k < |s| ==> s[k] in cs
    ensures r != [] ==> r[0] !in cs && r[|r| - 1] !in cs
  {
    var t := s[LeadingIn(s, cs)..];
    t[..|t| - TrailingIn(t, cs)]
  }

  /** `s.strip()` */
  function Strip(s: string): (r: string)
    ensures |r| <= |s| && IsSubstring(r, s)
    ensures r != [] ==> r[0] !in WHITESPACE && r[|r| - 1] !in WHITESPACE
  {
    var r := StripChars(s, WHITESPACE);
    SliceIsSubstring(s, LeadingIn(s, WHITESPACE), LeadingIn(s, WHITESPACE) + |r|);
    r
  }

  /** A string that neither starts nor ends with a character of `cs` is left unchanged. */
  lemma StripCharsUnchanged(s: string, cs: set<char>)
    requires s != [] ==> s[0] !in cs && s[|s| - 1] !in cs
    ensures StripChars(s, cs) == s
  {
    var t := s[LeadingIn(s, cs)..];
    assert t == s;
    assert TrailingIn(t, cs) == 0;
  }

  /** A character outside `cs` survives `strip(cs)`. */
  lemma StripCharsKeeps(s: string, cs: set<char>, c: char)
    requires c in s && c !in cs
    ensures c in StripChars(s, cs)
  {
    var r := StripChars(s, cs);
    var i := LeadingIn(s, cs);
    var p :| 0 <= p < |s| && s[p] == c;
    assert i <= p < i + |r|;
    assert r[p - i] == c;
  }

  /** `strip(cs)` gives the empty string exactly when every character belongs to `cs`. */
  lemma StripCharsEmpty(s: string, cs: set<char>)
    ensures StripChars(s, cs) == [] <==> forall k :: 0 <= k < |s| ==> s[k] in cs
  {
    var r := StripChars(s, cs);
    assert r != [] ==> r[0] == s[LeadingIn(s, cs)];
  }

  lemma StripCharsIdempotent(s: string, cs: set<char>)
    ensures StripChars(StripChars(s, cs), cs) == StripChars(s, cs)
  {
    StripCharsUnchanged(StripChars(s, cs), cs);
  }

  lemma StripIdempotent(s: string)
    ensures Strip(Strip(s)) == Strip(s)
  {
    StripCharsIdempotent(s, WHITESPACE);
  }

  lemma LeadingInPrepend(c: char, s: string, cs: set<char>)
    requires c in cs
    ensures LeadingIn([c] + s, cs) == 1 + LeadingIn(s, cs)
  {
    assert ([c] + s)[1..] == s;
  }

  /** Removing one character of `cs` from the front does not change the strip. */
  lemma StripCharsPrepend(c: char, s: string, cs: set<char>)
    requires c in cs
    ensures StripChars([c] + s, cs) == StripChars(s, cs)
  {
    LeadingInPrepend(c, s, cs);
    assert ([c] + s)[LeadingIn([c] + s, cs)..] == s[LeadingIn(s, cs)..];
  }

  lemma LeadingInAppendAll(s: string, c: char, cs: set<char>)
    requires c in cs
    requires LeadingIn(s, cs) == |s|
    ensures LeadingIn(s + [c], cs) == |s| + 1
    decreases |s|
  {
    if s != [] {
      assert (s + [c])[1..] == s[1..] + [c];
      LeadingInAppendAll(s[1..], c, cs);
    } else {
      assert [c][1..] == [];
    }
  }

  lemma LeadingInAppendSome(s: string, t: string, cs: set<char>)
    requires LeadingIn(s, cs) < |s|
    ensures LeadingIn(s + t, cs) == LeadingIn(s, cs)
    decreases |s|
  {
    if s[0] in cs {
      assert (s + t)[1..] == s[1..] + t;
      LeadingInAppendSome(s[1..], t, cs);
    }
  }

  /** Removing one character of `cs` from the back does not change the strip. */
  lemma StripCharsAppend(s: string, c: char, cs: set<char>)
    requires c in cs
    ensures StripChars(s + [c], cs) == StripChars(s, cs)
  {
    var i := LeadingIn(s, cs);
    if i == |s| {
      LeadingInAppendAll(s, c, cs);
      assert StripChars(s, cs) == [];
    } else {
      LeadingInAppendSome(s, [c], cs);
      var t := s[i..];
      assert (s + [c])[i..] == t + [c];
      assert (t + [c])[..|t|] == t;
      assert TrailingIn(t + [c], cs) == 1 + TrailingIn(t, cs);
    }
  }

  // ----- split on whitespace ----------------------------------------------------------

  /** A non-empty run of non-whitespace characters: what `split()` can return. */
  predicate IsWord(w: string) {
    w != [] && forall i :: 0 <= i < |w| ==> w[i] !in WHITESPACE
  }

  /** `s.split()`: the maximal runs of non-whitespace characters of `s`, in order. */
  function Split(s: string): (words: seq<string>)
    ensures forall k :: 0 <= k < |words| ==> IsWord(words[k])
    decreases |s|
  {
    if s == [] then []
    else if s[0] in WHITESPACE then Split(s[1..])
    else
      var n := LeadingNotIn(s, WHITESPACE);
      [s[..n]] + Split(s[n..])
  }

  /** Every word that `split()` returns is a contiguous piece of its input. */
  lemma {:induction false} SplitWordsInInput(s: string, k: nat)
    requires k < |Split(s)|
    ensures IsSubstring(Split(s)[k], s)
    decreases |s|
  {
    if s[0] in WHITESPACE {
      assert Split(s) == Split(s[1..]);
      SplitWordsInInput(s[1..], k);
      SliceIsSubstring(s, 1, |s|);
      assert s[1..|s|] == s[1..];
      SubstringTransitive(Split(s)[k], s[1..], s);
    } else {
      var n := LeadingNotIn(s, WHITESPACE);
      assert Split(s) == [s[..n]] + Split(s[n..]);
      if k == 0 {
        SliceIsSubstring(s, 0, n);
      } else {
        SplitWordsInInput(s[n..], k - 1);
        SliceIsSubstring(s, n, |s|);
        assert s[n..|s|] == s[n..];
        SubstringTransitive(Split(s)[k], s[n..], s);
      }
    }
  }

  lemma LeadingNotInWord(w: string, rest: string)
    requires IsWord(w)
    requires rest != [] ==> rest[0] in WHITESPACE
    ensures LeadingNotIn(w + rest, WHITESPACE) == |w|
    decreases |w|
  {
    if |w| > 1 {
      assert (w + rest)[1..] == w[1..] + rest;
      LeadingNotInWord(w[1..], rest);
    } else {
      assert (w + rest)[1..] == rest;
    }
  }

  /** `sep.join(parts)` */
  function Join(sep: string, parts: seq<string>): string {
    if parts == [] then ""
    else if |parts| == 1 then parts[0]
    else parts[0] + sep + Join(sep, parts[1..])
  }

  /** A join of non-empty parts starts with the first part's first character and ends with the last part's last one. */
  lemma {:induction false} JoinEnds(sep: string, parts: seq<string>)
    requires |parts| > 0 && forall k :: 0 <= k < |parts| ==> parts[k] != []
    ensures var j := Join(sep, parts);
            j != [] && j[0] == parts[0][0] && j[|j| - 1] == parts[|parts| - 1][|parts[|parts| - 1]| - 1]
    decreases |parts|
  {
    if |parts| > 1 {
      JoinEnds(sep, parts[1..]);
    }
  }

  /** Splitting words joined by single spaces gives the words back. */
  lemma {:induction false} SplitJoinSpaces(words: seq<string>)
    requires forall k :: 0 <= k < |words| ==> IsWord(words[k])
    ensures Split(Join(" ", words)) == words
    decreases |words|
  {
    if words == [] {
    } else {
      var w := words[0];
      var rest := if |words| == 1 then "" else " " + Join(" ", words[1..]);
      assert Join(" ", words) == w + rest;
      var s := w + rest;
      LeadingNotInWord(w, rest);
      assert s[..|w|] == w;
      assert s[|w|..] == rest;
      if |words| > 1 {
        assert rest[1..] == Join(" ", words[1..]);
        SplitJoinSpaces(words[1..]);
      }
    }
  }

  // ----- split on a separator ---------------------------------------------------------

  /** `s.find(sep)`: the first position at which `sep` occurs in `s`, if any. */
  function Find(s: string, sep: string): (r: Option<nat>)
    ensures r.Some? ==> OccursAt(sep, s, r.value)
    ensures r.Some? ==> forall j: nat :: j < r.value ==> !OccursAt(sep, s, j)
    ensures r.None? <==> !IsSubstring(sep, s)
    decreases |s|
  {
    ContainsIsSubstring(s, sep);
    if StartsWith(s, sep) then Some(0)
    else if s == [] then None
    else
      ContainsIsSubstring(s[1..], sep);
      match Find(s[1..], sep)
      case None => None
      case Some(i) =>
        FindShift(s, sep, i);
        Some(i + 1)
  }

  lemma FindShift(s: string, sep: string, i: nat)
    requires s != [] && !StartsWith(s, sep)
    requires OccursAt(sep, s[1..], i)
    requires forall j: nat :: j < i ==> !OccursAt(sep, s[1..], j)
    ensures OccursAt(sep, s, i + 1)
    ensures forall j: nat :: j < i + 1 ==> !OccursAt(sep, s, j)
  {
    assert s[1..][i..i + |sep|] == s[i + 1..i + 1 + |sep|];
    forall j: nat | j < i + 1
      ensures !OccursAt(sep, s, j)
    {
      if j > 0 && j + |sep| <= |s| {
        assert s[j..j + |sep|] == s[1..][j - 1..j - 1 + |sep|];
        assert !OccursAt(sep, s[1..], j - 1);
      }
    }
  }

  /** `s.split(sep)` for a non-empty separator; the pieces keep empty strings. */
  function SplitOn(s: string, sep: string): (parts: seq<string>)
    requires sep != []
    ensures |parts| >= 1
    decreases |s|
  {
    match Find(s, sep)
    case None => [s]
    case Some(i) => [s[..i]] + SplitOn(s[i + |sep|..], sep)
  }

  /** No proper prefix of `sep` is also a suffix of it, so occurrences of `sep` cannot overlap. */
  predicate Unbordered(sep: string) {
    forall m :: 0 < m < |sep| ==> !HasBorder(sep, m)
  }

  /** The suffix of `sep` from position `m` equals its prefix of the same length. */
  predicate HasBorder(sep: string, m: nat)
    requires m <= |sep|
  {
    sep[m..] == sep[..|sep| - m]
  }

  /** An occurrence of `sep` in `x + sep + rest` that starts inside `x` lies in `x` or is a border of `sep`. */
  lemma EarlyOccurrence(x: string, sep: string, rest: string, j: nat)
    requires OccursAt(sep, x + sep + rest, j)
    ensures j < |x| ==> OccursAt(sep, x, j) || (|x| - j < |sep| && HasBorder(sep, |x| - j))
  {
    var s := x + sep + rest;
    if j < |x| {
      if j + |sep| <= |x| {
        assert x[j..j + |sep|] == s[j..j + |sep|];
      } else {
        var m := |x| - j;
        assert sep == s[j..j + |sep|] == x[j..] + sep[..|sep| - m];
        assert sep[m..] == (x[j..] + sep[..|sep| - m])[m..] == sep[..|sep| - m];
      }
    }
  }

  /** In `x + sep + rest`, with `sep` not inside `x`, the first `sep` is the one after `x`. */
  lemma FindAfterPiece(x: string, sep: string, rest: string)
    requires sep != [] && Unbordered(sep) && !IsSubstring(sep, x)
    ensures Find(x + sep + rest, sep) == Some(|x|)
  {
    var s := x + sep + rest;
    assert s[|x|..|x| + |sep|] == sep;
    assert OccursAt(sep, s, |x|);
    var i := Find(s, sep).value;
    EarlyOccurrence(x, sep, rest, i);
  }

  lemma FindNone(x: string, sep: string)
    requires !IsSubstring(sep, x)
    ensures Find(x, sep) == None
  {
  }

  /** When no part contains an unbordered separator, splitting the joined parts recovers them. */
  lemma {:induction false} SplitOnJoin(parts: seq<string>, sep: string)
    requires sep != [] && Unbordered(sep)
    requires |parts| >= 1
    requires forall k :: 0 <= k < |parts| ==> !IsSubstring(sep, parts[k])
    ensures SplitOn(Join(sep, parts), sep) == parts
    decreases |parts|
  {
    if |parts| == 1 {
      FindNone(parts[0], sep);
    } else {
      var x := parts[0];
      var rest := Join(sep, parts[1..]);
      FindAfterPiece(x, sep, rest);
      var s := x + sep + rest;
      assert s[..|x|] == x;
      assert s[|x| + |sep|..] == rest;
      SplitOnJoin(parts[1..], sep);
    }
  }

  // ----- digits -----------------------------------------------------------------------

  /** `s.isdigit()`: non-empty and made only of '0'..'9'. */
  predicate IsDigits(s: string) {
    |s| > 0 && forall i :: 0 <= i < |s| ==> '0' <= s[i] <= '9'
  }
}
