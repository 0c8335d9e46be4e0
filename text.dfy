/**
 * The string operations the dashboard relies on: `str.lower()`, substring search,
 * `str.split(sep)` and `str.count(sub)`.
 */
module Text {
  import opened Wrappers

  /** `str.lower()` on one character: ASCII capitals become small letters, every other
      character (CJK included) is left alone. */
  function LowerChar(c: char): char
  {
    if 'A' <= c <= 'Z' then (c as int + 32) as char else c
  }

  function Lower(s: string): string
  {
    seq(|s|, i requires 0 <= i < |s| => LowerChar(s[i]))
  }

  /** `pat` occurs in `s` starting at position `j`. */
  predicate OccursAt(s: string, pat: string, j: int)
  {
    0 <= j && j + |pat| <= |s| && s[j..j + |pat|] == pat
  }

  /** `pat in s` */
  predicate Contains(s: string, pat: string)
  {
    exists j | 0 <= j <= |s| - |pat| :: OccursAt(s, pat, j)
  }

  /** The first occurrence of `pat` in `s` at or after position `i`. */
  function IndexFrom(s: string, pat: string, i: nat): (r: Option<nat>)
    ensures r.Some? ==> i <= r.value && r.value + |pat| <= |s|
    decreases |s| - i
  {
    if i + |pat| > |s| then None
    else if s[i..i + |pat|] == pat then Some(i)
    else IndexFrom(s, pat, i + 1)
  }

  /** The search from `i` finds a match, and no match lies between `i` and it; when it
      finds nothing, no match starts at or after `i`. */
  lemma {:induction false} IndexFromFirst(s: string, pat: string, i: nat)
    ensures IndexFrom(s, pat, i).Some? ==> OccursAt(s, pat, IndexFrom(s, pat, i).value)
    ensures IndexFrom(s, pat, i).Some? ==>
      forall j :: i <= j < IndexFrom(s, pat, i).value ==> !OccursAt(s, pat, j)
    ensures IndexFrom(s, pat, i).None? ==> forall j :: i <= j ==> !OccursAt(s, pat, j)
    decreases |s| - i
  {
    if i + |pat| <= |s| && s[i..i + |pat|] != pat {
      IndexFromFirst(s, pat, i + 1);
    }
  }

  /** `str.find(pat)`, with "not found" as None. */
  function IndexOf(s: string, pat: string): (r: Option<nat>)
    ensures r.Some? ==> r.value + |pat| <= |s|
  {
    IndexFrom(s, pat, 0)
  }

  /** `find` returns the leftmost occurrence, and None only when the pattern occurs
      nowhere. */
  lemma IndexOfFirst(s: string, pat: string)
    ensures IndexOf(s, pat).Some? ==> OccursAt(s, pat, IndexOf(s, pat).value)
    ensures IndexOf(s, pat).Some? ==> forall j :: 0 <= j < IndexOf(s, pat).value ==> !OccursAt(s, pat, j)
    ensures IndexOf(s, pat).None? ==> forall j :: !OccursAt(s, pat, j)
  {
    IndexFromFirst(s, pat, 0);
  }

  /** The search finds something exactly when `pat in s`. */
  lemma FoundIffContains(s: string, pat: string)
    ensures IndexOf(s, pat).Some? <==> Contains(s, pat)
  {
    IndexOfFirst(s, pat);
    if IndexOf(s, pat).Some? {
      assert OccursAt(s, pat, IndexOf(s, pat).value);
    }
  }

  /** `str.count(pat)`: occurrences found scanning left to right, each search resuming
      after the previous match, so overlapping matches are not counted; the empty
      pattern is counted once per position, `len(s) + 1` times. */
  function Count(s: string, pat: string): nat
    decreases |s|
  {
    if pat == [] then |s| + 1
    else
      match IndexOf(s, pat)
      case None => 0
      case Some(i) => 1 + Count(s[i + |pat|..], pat)
  }

  /** `count` finds something exactly when `pat in s` (the empty pattern is in every string). */
  lemma CountPositiveIffContains(s: string, pat: string)
    ensures Count(s, pat) > 0 <==> Contains(s, pat)
  {
    if pat == [] {
      assert OccursAt(s, pat, 0);
    } else {
      FoundIffContains(s, pat);
    }
  }

  /** `s.split(sep)` for a non-empty separator (Python raises on an empty one). */
  function Split(s: string, sep: string): (parts: seq<string>)
    requires sep != []
    ensures |parts| >= 1
    decreases |s|
  {
    match IndexOf(s, sep)
    case None => [s]
    case Some(i) => [s[..i]] + Split(s[i + |sep|..], sep)
  }

  /** `sep.join(parts)` */
  function Join(parts: seq<string>, sep: string): string
  {
    if parts == [] then []
    else if |parts| == 1 then parts[0]
    else parts[0] + sep + Join(parts[1..], sep)
  }

  /** Splitting loses nothing: joining the pieces gives the string back. */
  lemma {:induction false} SplitJoin(s: string, sep: string)
    requires sep != []
    ensures Join(Split(s, sep), sep) == s
    decreases |s|
  {
    match IndexOf(s, sep)
    case None =>
      assert Split(s, sep) == [s];
    case Some(i) =>
      var rest := s[i + |sep|..];
      SplitJoin(rest, sep);
      var tail := Split(rest, sep);
      SplitAtFirst(s, sep, i);
      FoundAt(s, sep, i);
      JoinCons(s[..i], tail, sep);
      SliceAround(s, i, i + |sep|);
  }

  /** One step of `Split`: the piece before the first match, then the split of the rest. */
  lemma SplitAtFirst(s: string, sep: string, i: nat)
    requires sep != [] && IndexOf(s, sep) == Some(i)
    ensures i + |sep| <= |s|
    ensures Split(s, sep) == [s[..i]] + Split(s[i + |sep|..], sep)
  {
  }

  /** The position `find` returns holds the pattern. */
  lemma FoundAt(s: string, pat: string, i: nat)
    requires IndexOf(s, pat) == Some(i)
    ensures i + |pat| <= |s| && s[i..i + |pat|] == pat
  {
    IndexOfFirst(s, pat);
    assert OccursAt(s, pat, i);
  }

  lemma JoinCons(head: string, tail: seq<string>, sep: string)
    requires tail != []
    ensures Join([head] + tail, sep) == head + sep + Join(tail, sep)
  {
    assert ([head] + tail)[1..] == tail;
  }

  lemma SliceAround(s: string, i: nat, k: nat)
    requires i <= k <= |s|
    ensures s == s[..i] + s[i..k] + s[k..]
  {
  }

  /** The text before the first match of `pat` holds no match of it. */
  lemma NoMatchBeforeFirst(s: string, pat: string, i: nat)
    requires pat != [] && i <= |s|
    requires forall j :: 0 <= j < i ==> !OccursAt(s, pat, j)
    ensures !Contains(s[..i], pat)
  {
    forall j | 0 <= j <= i - |pat|
      ensures !OccursAt(s[..i], pat, j)
    {
      assert s[..i][j..j + |pat|] == s[j..j + |pat|];
      assert !OccursAt(s, pat, j);
    }
  }

  /** No piece of a split still holds the separator. */
  lemma {:induction false} SplitPiecesLackSeparator(s: string, sep: string)
    requires sep != []
    ensures forall k :: 0 <= k < |Split(s, sep)| ==> !Contains(Split(s, sep)[k], sep)
    decreases |s|
  {
    IndexOfFirst(s, sep);
    match IndexOf(s, sep)
    case None =>
    case Some(i) =>
      var rest := s[i + |sep|..];
      SplitPiecesLackSeparator(rest, sep);
      var tail := Split(rest, sep);
      assert Split(s, sep) == [s[..i]] + tail;
      NoMatchBeforeFirst(s, sep, i);
      forall k | 0 <= k < |Split(s, sep)|
        ensures !Contains(Split(s, sep)[k], sep)
      {
        if k > 0 {
          assert Split(s, sep)[k] == tail[k - 1];
        }
      }
  }

  /** One step of `Count`: the first match, then the count in the rest. */
  lemma CountAtFirst(s: string, pat: string, i: nat)
    requires pat != [] && IndexOf(s, pat) == Some(i)
    ensures i + |pat| <= |s|
    ensures Count(s, pat) == 1 + Count(s[i + |pat|..], pat)
  {
  }

  /** The matches `count` finds do not overlap: together they fit in the string. */
  lemma {:induction false} CountMatchesFit(s: string, pat: string)
    requires pat != []
    ensures Count(s, pat) * |pat| <= |s|
    decreases |s|
  {
    match IndexOf(s, pat)
    case None =>
    case Some(i) =>
      var rest := s[i + |pat|..];
      CountAtFirst(s, pat, i);
      CountMatchesFit(rest, pat);
      NextMultipleFits(Count(rest, pat), |pat|, |rest|, |s|);
  }

  lemma NextMultipleFits(c: nat, width: nat, restLen: nat, total: nat)
    requires c * width <= restLen && restLen + width <= total
    ensures (c + 1) * width <= total
  {
    assert (c + 1) * width == c * width + width;
  }

  /** `count` and `split` scan alike: a string splits into one piece more than it has
      matches of the separator. */
  lemma {:induction false} CountIsSplitPieces(s: string, pat: string)
    requires pat != []
    ensures Count(s, pat) == |Split(s, pat)| - 1
    decreases |s|
  {
    match IndexOf(s, pat)
    case None =>
      assert Split(s, pat) == [s];
    case Some(i) =>
      CountAtFirst(s, pat, i);
      SplitAtFirst(s, pat, i);
      CountIsSplitPieces(s[i + |pat|..], pat);
  }

  /** A pattern holding a character the text lacks does not occur in it. */
  lemma AbsentCharNotContained(text: string, pat: string, k: nat)
    requires k < |pat| && pat[k] !in text
    ensures !Contains(text, pat)
  {
    forall j | 0 <= j <= |text| - |pat|
      ensures !OccursAt(text, pat, j)
    {
      assert text[j + k] in text;
      assert text[j..j + |pat|][k] == text[j + k];
    }
  }
}
