/** The two byte-level string helpers of the Converter utility class:
    truncateString and functionNameSafe. */
module Converter {
  import opened Wrappers
  import opened PhpString

  /** truncateString: a string longer than `length` is cut with substr($input, 0, $length)
      and "..." is appended; a shorter one is returned as is. A negative
      length makes substr drop that many characters from the end. */
  function TruncateString(input: string, length: int): (r: string)
    ensures |input| <= length ==> r == input
    ensures 0 <= length < |input| ==> r == input[..length] + "..." && |r| == length + 3
    ensures length < |input| ==> |r| >= 3 && StartsWith(input, r[..|r| - 3]) && r[|r| - 3..] == "..."
    ensures length < 0 ==> |r| == (if |input| + length > 0 then |input| + length else 0) + 3
  {
    if |input| > length then Substr(input, 0, Some(length)) + "..." else input
  }

  /** \w or '.': an ASCII letter, digit, underscore or dot. */
  predicate IsNameChar(c: char) {
    'a' <= c <= 'z' || 'A' <= c <= 'Z' || '0' <= c <= '9' || c == '_' || c == '.'
  }

  predicate AllNameChars(s: string) {
    forall i | 0 <= i < |s| :: IsNameChar(s[i])
  }

  predicate NoNameChars(s: string) {
    forall i | 0 <= i < |s| :: !IsNameChar(s[i])
  }

  /** preg_replace("/(?>[^\w\.])+/", "_", $s): each maximal run of characters
      that are not name characters becomes a single underscore. Defined by the
      last character, the way a left-to-right scan extends its output. */
  function CollapseRuns(s: string): string
    decreases |s|
  {
    if |s| == 0 then ""
    else
      var prefix := s[..|s| - 1];
      var c := s[|s| - 1];
      if IsNameChar(c) then CollapseRuns(prefix) + [c]
      else if |prefix| > 0 && !IsNameChar(prefix[|prefix| - 1]) then CollapseRuns(prefix)
      else CollapseRuns(prefix) + "_"
  }

  /** The replaced string holds only name characters and is never longer
      than the input. */
  lemma {:induction false} CollapseRunsShape(s: string)
    ensures AllNameChars(CollapseRuns(s))
    ensures |CollapseRuns(s)| <= |s|
    ensures |s| > 0 ==> |CollapseRuns(s)| > 0
    decreases |s|
  {
    if |s| > 0 {
      CollapseRunsShape(s[..|s| - 1]);
    }
  }

  /** A string of name characters is left unchanged. */
  lemma {:induction false} CollapseRunsKeepsNames(s: string)
    requires AllNameChars(s)
    ensures CollapseRuns(s) == s
    decreases |s|
  {
    if |s| > 0 {
      CollapseRunsKeepsNames(s[..|s| - 1]);
      assert s == s[..|s| - 1] + [s[|s| - 1]];
    }
  }

  /** A non-empty run of other characters becomes exactly one underscore. */
  lemma {:induction false} CollapseRunsRun(s: string)
    requires |s| > 0 && NoNameChars(s)
    ensures CollapseRuns(s) == "_"
    decreases |s|
  {
    if |s| > 1 {
      CollapseRunsRun(s[..|s| - 1]);
    }
  }

  /** Replacement works piecewise wherever the cut does not split a run. */
  lemma {:induction false} CollapseRunsAppend(a: string, b: string)
    requires |a| == 0 || |b| == 0 || IsNameChar(a[|a| - 1]) || IsNameChar(b[0])
    ensures CollapseRuns(a + b) == CollapseRuns(a) + CollapseRuns(b)
    decreases |b|
  {
    if |b| == 0 {
      assert a + b == a;
    } else if |a| == 0 {
      assert a + b == b;
    } else {
      var b' := b[..|b| - 1];
      assert (a + b)[..|a + b| - 1] == a + b';
      assert (a + b)[|a + b| - 1] == b[|b| - 1];
      if |b'| > 0 {
        assert IsNameChar(a[|a| - 1]) || IsNameChar(b'[0]);
        assert (a + b')[|a + b'| - 1] == b'[|b'| - 1];
      }
      CollapseRunsAppend(a, b');
    }
  }

  /** Drops one leading and then one trailing underscore, as the two checks
      after the replacement do. */
  function TrimUnderscores(s: string): (r: string)
    ensures |r| <= |s|
    ensures |r| >= |s| - 2
    ensures (|s| == 0 || s[0] != '_') && (|s| == 0 || s[|s| - 1] != '_') ==> r == s
    ensures var i := if |s| > 0 && s[0] == '_' then 1 else 0;
            var j := if |s| > i && s[|s| - 1] == '_' then 1 else 0;
            r == s[i..|s| - j]
  {
    var a := if |s| > 0 && s[0] == '_' then Substr(s, 1, None) else s;
    if |a| > 0 && a[|a| - 1] == '_' then Substr(a, 0, Some(-1)) else a
  }

  /** functionNameSafe, as the single left-to-right pass that the regex
      replacement performs, followed by the edge trimming. */
  method FunctionNameSafe(input: string) returns (out: string)
    ensures out == TrimUnderscores(CollapseRuns(input))
    ensures AllNameChars(out)
    ensures |out| <= |input|
    ensures AllNameChars(input) && (|input| == 0 || (input[0] != '_' && input[|input| - 1] != '_')) ==> out == input
  {
    var replaced := "";
    var i := 0;
    while i < |input|
      invariant 0 <= i <= |input|
      invariant replaced == CollapseRuns(input[..i])
    {
      var c := input[i];
      assert input[..i + 1][..i] == input[..i];
      if IsNameChar(c) {
        replaced := replaced + [c];
      } else if i == 0 || IsNameChar(input[i - 1]) {
        replaced := replaced + "_";
      }
      i := i + 1;
    }
    assert input[..i] == input;
    CollapseRunsShape(input);
    out := TrimUnderscores(replaced);
    assert forall j | 0 <= j < |out| :: out[j] in replaced;
    if AllNameChars(input) {
      CollapseRunsKeepsNames(input);
    }
  }
}
