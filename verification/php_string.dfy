/** The PHP string primitives the router and the converter rely on, stated
    over `string` (one `char` per byte): substr, strpos, stripos and
    str_replace. */
module PhpString {
  import opened Wrappers

  predicate StartsWith(s: string, p: string) {
    |p| <= |s| && s[..|p|] == p
  }

  /** `w` occurs in `s` starting at index `i`. */
  predicate OccursAt(s: string, w: string, i: nat) {
    i + |w| <= |s| && s[i..i + |w|] == w
  }

  predicate Contains(s: string, w: string) {
    exists i: nat | i <= |s| :: OccursAt(s, w, i)
  }

  /** PHP 8 substr($s, $start[, $length]) for a non-negative start: a start
      past the end gives "", a negative length drops characters from the end. */
  function Substr(s: string, start: nat, length: Option<int>): (r: string)
    ensures start <= |s| ==> StartsWith(s[start..], r)
    ensures start >= |s| ==> r == ""
    ensures start <= |s| && length.None? ==> r == s[start..]
    ensures start <= |s| && length.Some? && 0 <= length.value <= |s| - start ==> |r| == length.value
  {
    if start >= |s| then ""
    else
      var rest := s[start..];
      match length
      case None => rest
      case Some(n) =>
        if n >= 0 then (if n <= |rest| then rest[..n] else rest)
        else if |rest| + n > 0 then rest[..|rest| + n]
        else ""
  }

  /** PHP strpos($s, $c) for a one-character needle. */
  function Strpos(s: string, c: char): (r: Option<nat>)
    ensures r.Some? ==> r.value < |s| && s[r.value] == c && c !in s[..r.value]
    ensures r.None? ==> c !in s
  {
    if |s| == 0 then None
    else if s[0] == c then Some(0)
    else match Strpos(s[1..], c)
      case None => None
      case Some(i) => Some(i + 1)
  }

  /** ASCII lower-casing, as PHP 8's stripos applies it. */
  function LowerChar(c: char): char {
    if 'A' <= c <= 'Z' then (c as int + 32) as char else c
  }

  function Lower(s: string): (r: string)
    ensures |r| == |s|
    ensures forall i | 0 <= i < |s| :: r[i] == LowerChar(s[i])
  {
    seq(|s|, i requires 0 <= i < |s| => LowerChar(s[i]))
  }

  /** First index at or after `i` where `w` occurs in `s`. */
  function FindFrom(s: string, w: string, i: nat): (r: Option<nat>)
    requires i <= |s|
    ensures r.Some? ==> i <= r.value && OccursAt(s, w, r.value)
    ensures forall j: nat | i <= j && (r.None? || j < r.value) :: !OccursAt(s, w, j)
    decreases |s| - i
  {
    if OccursAt(s, w, i) then Some(i)
    else if i == |s| then None
    else FindFrom(s, w, i + 1)
  }

  /** PHP 8 stripos($haystack, $needle): the first case-insensitive (ASCII)
      occurrence; an empty needle is found at 0. */
  function Stripos(haystack: string, needle: string): (r: Option<nat>)
    ensures r.Some? ==> OccursAt(Lower(haystack), Lower(needle), r.value)
    ensures r.None? <==> !Contains(Lower(haystack), Lower(needle))
  {
    FindFrom(Lower(haystack), Lower(needle), 0)
  }

  /** PHP str_replace($search, $replace, $subject) for a non-empty search:
      every occurrence, found left to right without overlap, is replaced. */
  function ReplaceAll(s: string, search: string, replace: string): string
    requires |search| > 0
    decreases |s|
  {
    if |s| < |search| then s
    else if s[..|search|] == search then replace + ReplaceAll(s[|search|..], search, replace)
    else [s[0]] + ReplaceAll(s[1..], search, replace)
  }

  /** Occurrences in a tail are the occurrences one position later in the whole. */
  lemma OccursShift(s: string, w: string, i: nat)
    requires |s| > 0
    ensures OccursAt(s[1..], w, i) <==> OccursAt(s, w, i + 1)
  {
    if i + |w| <= |s[1..]| {
      assert s[1..][i..i + |w|] == s[i + 1..i + 1 + |w|];
    }
  }

  /** Replacing a string that does not occur changes nothing. */
  lemma {:induction false} ReplaceAllAbsent(s: string, search: string, replace: string)
    requires |search| > 0
    requires !Contains(s, search)
    ensures ReplaceAll(s, search, replace) == s
    decreases |s|
  {
    if |s| >= |search| {
      assert !OccursAt(s, search, 0);
      forall j: nat | j <= |s[1..]|
        ensures !OccursAt(s[1..], search, j)
      {
        assert !OccursAt(s, search, j + 1);
        OccursShift(s, search, j);
      }
      ReplaceAllAbsent(s[1..], search, replace);
    }
  }

  /** A leading part in which no occurrence starts is copied unchanged. */
  lemma {:induction false} ReplaceAllSkip(a: string, b: string, search: string, replace: string)
    requires |search| > 0
    requires forall i: nat | i < |a| :: !OccursAt(a + b, search, i)
    ensures ReplaceAll(a + b, search, replace) == a + ReplaceAll(b, search, replace)
    decreases |a|
  {
    if |a| > 0 {
      var s := a + b;
      assert !OccursAt(s, search, 0);
      assert s[1..] == a[1..] + b;
      forall i: nat | i < |a[1..]|
        ensures !OccursAt(a[1..] + b, search, i)
      {
        assert !OccursAt(s, search, i + 1);
        OccursShift(s, search, i);
      }
      ReplaceAllSkip(a[1..], b, search, replace);
      assert a == [a[0]] + a[1..];
    } else {
      assert a + b == b;
    }
  }

  /** An occurrence at the very start is replaced and the scan resumes after it. */
  lemma ReplaceAllHead(search: string, b: string, replace: string)
    requires |search| > 0
    ensures ReplaceAll(search + b, search, replace) == replace + ReplaceAll(b, search, replace)
  {
    assert (search + b)[..|search|] == search;
    assert (search + b)[|search|..] == b;
  }
}
