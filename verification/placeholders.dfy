/** The placeholder grammar of route patterns, `(/|.|)[type(:name)](?)`,
    scanned the way preg_match_all applies the router's regex: the type and
    the name are possessive runs of characters other than ':' and ']', the
    optional marker is taken when present, and matches are found left to
    right without overlap. */
module Placeholders {
  import opened Wrappers
  import opened PhpString

  /** One placeholder block: separator, type, name and optional marker.
      `colon` records whether the `:name` part was written. */
  datatype Block = Block(pre: string, typ: string, colon: bool, name: string, optional: bool)

  predicate IsDelim(c: char) {
    c == ':' || c == ']'
  }

  predicate Plain(s: string) {
    forall i | 0 <= i < |s| :: !IsDelim(s[i])
  }

  /** A block the grammar can produce. An absent name reads as "", as PHP
      reports an unset capture group. */
  predicate Valid(b: Block) {
    && (b.pre == "" || b.pre == "/" || b.pre == ".")
    && Plain(b.typ)
    && Plain(b.name)
    && (!b.colon ==> b.name == "")
  }

  /** The source text of a block. */
  function Text(b: Block): string {
    b.pre + "[" + b.typ + (if b.colon then ":" + b.name else "") + "]" + (if b.optional then "?" else "")
  }

  /** No delimiter in `s[i..j]`. */
  predicate PlainRun(s: string, i: nat, j: nat)
    requires i <= j <= |s|
  {
    forall k | i <= k < j :: !IsDelim(s[k])
  }

  /** The length of the separator at index `p`: the regex tries '/', '.'
      and "" in that order, so a separator is taken exactly when a '['
      follows it. */
  function SepAt(s: string, p: nat): nat {
    if p + 1 < |s| && (s[p] == '/' || s[p] == '.') && s[p + 1] == '[' then 1 else 0
  }

  predicate Marked(s: string, i: nat) {
    i < |s| && s[i] == '?'
  }

  /** The length of a block's text, counted from its parts. */
  function Width(b: Block): nat {
    |b.pre| + |b.typ| + 2 + (if b.colon then 1 + |b.name| else 0) + (if b.optional then 1 else 0)
  }

  lemma WidthText(b: Block)
    ensures Width(b) == |Text(b)|
  {
  }

  /** The block that starts at `p`, has its '[' at `q`, its ':' at `colon`
      when there is one, and its ']' at `i`. */
  function Close(s: string, p: nat, q: nat, colon: Option<nat>, i: nat): Block
    requires p <= q < i < |s| && (colon.Some? ==> q < colon.value < i)
  {
    if colon.None? then Block(s[p..q], s[q + 1..i], false, "", Marked(s, i + 1))
    else Block(s[p..q], s[q + 1..colon.value], true, s[colon.value + 1..i], Marked(s, i + 1))
  }

  /** Reads the type run and then the name run after the '[' at `q`, one
      character at a time: a first ':' ends the type, a second ':' fails the
      block, and ']' closes it. */
  function Walk(s: string, p: nat, q: nat, colon: Option<nat>, i: nat): (r: Option<Block>)
    requires p <= q < i <= |s| && (colon.Some? ==> q < colon.value < i)
    ensures r.Some? ==> p + Width(r.value) <= |s|
    decreases |s| - i
  {
    if i == |s| then None
    else if s[i] == ']' then Some(Close(s, p, q, colon, i))
    else if s[i] == ':' then (if colon.None? then Walk(s, p, q, Some(i), i + 1) else None)
    else Walk(s, p, q, colon, i + 1)
  }

  /** The block starting at index `p` of `s`, if any. */
  function ParseAt(s: string, p: nat): (r: Option<Block>)
    requires p <= |s|
    ensures r.Some? ==> p + Width(r.value) <= |s|
  {
    var q := p + SepAt(s, p);
    if q >= |s| || s[q] != '[' then None else Walk(s, p, q, None, q + 1)
  }

  /** A run without delimiters is read through. */
  lemma {:induction false} WalkRun(s: string, p: nat, q: nat, colon: Option<nat>, i: nat, j: nat)
    requires p <= q < i <= j <= |s| && (colon.Some? ==> q < colon.value < i)
    requires PlainRun(s, i, j)
    ensures Walk(s, p, q, colon, i) == Walk(s, p, q, colon, j)
    decreases j - i
  {
    if i < j {
      WalkRun(s, p, q, colon, i + 1, j);
    }
  }

  lemma ParseNamedAt(s: string, p: nat, q: nat, t: nat, n: nat)
    requires p <= q < t < n < |s| && p + SepAt(s, p) == q && s[q] == '['
    requires PlainRun(s, q + 1, t) && s[t] == ':' && PlainRun(s, t + 1, n) && s[n] == ']'
    ensures ParseAt(s, p) == Some(Close(s, p, q, Some(t), n))
  {
    WalkRun(s, p, q, None, q + 1, t);
    WalkRun(s, p, q, Some(t), t + 1, n);
  }

  lemma ParseBareAt(s: string, p: nat, q: nat, t: nat)
    requires p <= q < t < |s| && p + SepAt(s, p) == q && s[q] == '['
    requires PlainRun(s, q + 1, t) && s[t] == ']'
    ensures ParseAt(s, p) == Some(Close(s, p, q, None, t))
  {
    WalkRun(s, p, q, None, q + 1, t);
  }

  /** Splitting a suffix that is a concatenation. */
  lemma DropAppend(s: string, p: nat, x: string, y: string)
    requires p <= |s| && s[p..] == x + y
    ensures s[p..p + |x|] == x && s[p + |x|..] == y
  {
    assert s[p..p + |x|] == s[p..][..|x|];
    assert s[p + |x|..] == s[p..][|x|..];
  }

  /** A slice equal to a plain string is a plain run. */
  lemma PlainSlice(s: string, i: nat, x: string)
    requires i + |x| <= |s| && s[i..i + |x|] == x && Plain(x)
    ensures PlainRun(s, i, i + |x|)
  {
    assert forall k | i <= k < i + |x| :: s[k] == x[k - i];
  }

  /** The opening part of a block's text: separator, '[' at `q` and the type
      run up to `t`. */
  lemma OpenAt(s: string, p: nat, q: nat, t: nat, pre: string, typ: string, after: string)
    requires pre == "" || pre == "/" || pre == "."
    requires Plain(typ) && |after| > 0 && IsDelim(after[0])
    requires q == p + |pre| && t == q + 1 + |typ|
    requires p <= |s| && s[p..] == pre + ("[" + (typ + after))
    ensures q < t < |s| && SepAt(s, p) == |pre| && s[q] == '[' && s[p..q] == pre
    ensures PlainRun(s, q + 1, t) && s[q + 1..t] == typ && s[t..] == after
  {
    DropAppend(s, p, pre, "[" + (typ + after));
    DropAppend(s, q, "[", typ + after);
    DropAppend(s, q + 1, typ, after);
    assert s[q] == s[q..q + 1][0];
    if |pre| == 1 {
      assert s[p] == s[p..p + 1][0];
    }
    assert s[t] == after[0];
    PlainSlice(s, q + 1, typ);
  }

  /** The closing part of a block with a name: ':' at `t`, ']' at `n`. */
  lemma CloseNamed(s: string, t: nat, n: nat, name: string, rest: string)
    requires Plain(name) && n == t + 1 + |name|
    requires t <= |s| && s[t..] == ":" + (name + ("]" + rest))
    ensures n < |s| && s[t] == ':' && s[n] == ']'
    ensures s[t + 1..n] == name && PlainRun(s, t + 1, n)
    ensures s[n + 1..] == rest
  {
    DropAppend(s, t, ":", name + ("]" + rest));
    DropAppend(s, t + 1, name, "]" + rest);
    DropAppend(s, n, "]", rest);
    assert s[t] == s[t..t + 1][0];
    assert s[n] == s[n..n + 1][0];
    PlainSlice(s, t + 1, name);
  }

  /** The closing part of a block without a name. */
  lemma CloseBare(s: string, t: nat, rest: string)
    requires t <= |s| && s[t..] == "]" + rest
    ensures t < |s| && s[t] == ']' && s[t + 1..] == rest
  {
    DropAppend(s, t, "]", rest);
    assert s[t] == s[t..t + 1][0];
  }

  /** The optional marker after a block's closing bracket. */
  lemma MarkAt(s: string, i: nat, opt: string, tail: string)
    requires opt == "" || opt == "?"
    requires i <= |s| && s[i..] == opt + tail
    ensures Marked(s, i) == (opt == "?" || (|tail| > 0 && tail[0] == '?'))
  {
    if opt == "?" {
      assert s[i] == s[i..][0];
    } else if |tail| > 0 {
      assert s[i] == s[i..][0];
    }
  }

  lemma ParseNamedText(s: string, p: nat, pre: string, typ: string, name: string, opt: string, tail: string)
    requires pre == "" || pre == "/" || pre == "."
    requires Plain(typ) && Plain(name) && (opt == "" || opt == "?")
    requires p <= |s| && s[p..] == pre + ("[" + (typ + (":" + (name + ("]" + (opt + tail))))))
    ensures ParseAt(s, p) == Some(Block(pre, typ, true, name, opt == "?" || (|tail| > 0 && tail[0] == '?')))
  {
    var q := p + |pre|;
    var t := q + 1 + |typ|;
    var n := t + 1 + |name|;
    OpenAt(s, p, q, t, pre, typ, ":" + (name + ("]" + (opt + tail))));
    CloseNamed(s, t, n, name, opt + tail);
    MarkAt(s, n + 1, opt, tail);
    ParseNamedAt(s, p, q, t, n);
  }

  lemma ParseBareText(s: string, p: nat, pre: string, typ: string, opt: string, tail: string)
    requires pre == "" || pre == "/" || pre == "."
    requires Plain(typ) && (opt == "" || opt == "?")
    requires p <= |s| && s[p..] == pre + ("[" + (typ + ("]" + (opt + tail))))
    ensures ParseAt(s, p) == Some(Block(pre, typ, false, "", opt == "?" || (|tail| > 0 && tail[0] == '?')))
  {
    var q := p + |pre|;
    var t := q + 1 + |typ|;
    OpenAt(s, p, q, t, pre, typ, "]" + (opt + tail));
    CloseBare(s, t, opt + tail);
    MarkAt(s, t + 1, opt, tail);
    ParseBareAt(s, p, q, t);
  }

  /** Parsing the text of a valid block gives the block back; a '?' right
      after a required block is read as its optional marker. */
  lemma ParseText(s: string, p: nat, b: Block, tail: string)
    requires Valid(b) && p <= |s| && s[p..] == Text(b) + tail
    ensures ParseAt(s, p) == Some(b.(optional := b.optional || (|tail| > 0 && tail[0] == '?')))
  {
    var opt := if b.optional then "?" else "";
    if b.colon {
      assert Text(b) + tail == b.pre + ("[" + (b.typ + (":" + (b.name + ("]" + (opt + tail))))));
      ParseNamedText(s, p, b.pre, b.typ, b.name, opt, tail);
    } else {
      assert Text(b) + tail == b.pre + ("[" + (b.typ + ("]" + (opt + tail))));
      ParseBareText(s, p, b.pre, b.typ, opt, tail);
    }
  }

  /** Two texts found side by side form their concatenation. */
  lemma OccursCat(s: string, x: string, y: string, i: nat, j: nat)
    requires OccursAt(s, x, i) && j == i + |x| && OccursAt(s, y, j)
    ensures OccursAt(s, x + y, i)
  {
    assert s[i..j + |y|] == s[i..j] + s[j..j + |y|];
  }

  /** A single character read in place. */
  lemma OccursChar(s: string, c: char, i: nat)
    requires i < |s| && s[i] == c
    ensures OccursAt(s, [c], i)
  {
  }

  /** The separator before `q` and the '[' at `q`. */
  lemma SoundOpen(s: string, p: nat, q: nat, t: nat)
    requires p <= q < t <= |s| && s[q] == '['
    requires PlainRun(s, q + 1, t)
    ensures Plain(s[q + 1..t]) && OccursAt(s, s[p..q] + "[" + s[q + 1..t], p)
  {
    var typ := s[q + 1..t];
    assert forall k | 0 <= k < |typ| :: typ[k] == s[q + 1 + k];
    OccursChar(s, '[', q);
    OccursCat(s, s[p..q], "[", p, q);
    OccursCat(s, s[p..q] + "[", typ, p, q + 1);
  }

  /** The optional marker: a '?' right after the block's end. */
  lemma SoundMark(s: string, p: nat, x: string, e: nat)
    requires OccursAt(s, x, p) && e == p + |x|
    ensures OccursAt(s, x + (if Marked(s, e) then "?" else ""), p)
  {
    if Marked(s, e) {
      OccursChar(s, '?', e);
      OccursCat(s, x, "?", p, e);
    } else {
      assert x + "" == x;
    }
  }

  lemma SoundBare(s: string, p: nat, q: nat, t: nat)
    requires p <= q < t < |s| && s[q] == '[' && s[t] == ']'
    requires PlainRun(s, q + 1, t)
    ensures var b := Block(s[p..q], s[q + 1..t], false, "", Marked(s, t + 1));
      Plain(b.typ) && OccursAt(s, Text(b), p)
  {
    var x := s[p..q] + "[" + s[q + 1..t];
    SoundOpen(s, p, q, t);
    OccursChar(s, ']', t);
    OccursCat(s, x, "]", p, t);
    SoundMark(s, p, x + "]", t + 1);
    assert x + "" + "]" == x + "]";
  }

  lemma SoundNamed(s: string, p: nat, q: nat, t: nat, n: nat)
    requires p <= q < t < n < |s| && s[q] == '[' && s[t] == ':' && s[n] == ']'
    requires PlainRun(s, q + 1, t) && PlainRun(s, t + 1, n)
    ensures var b := Block(s[p..q], s[q + 1..t], true, s[t + 1..n], Marked(s, n + 1));
      Plain(b.typ) && Plain(b.name) && OccursAt(s, Text(b), p)
  {
    var x := s[p..q] + "[" + s[q + 1..t];
    var name := s[t + 1..n];
    assert forall k | 0 <= k < |name| :: name[k] == s[t + 1 + k];
    SoundOpen(s, p, q, t);
    OccursChar(s, ':', t);
    OccursCat(s, ":", name, t, t + 1);
    OccursCat(s, x, ":" + name, p, t);
    OccursChar(s, ']', n);
    OccursCat(s, x + (":" + name), "]", p, n);
    SoundMark(s, p, x + (":" + name) + "]", n + 1);
  }

  /** What the walk has read so far: '[' at `q`, then plain runs split by
      the ':' at `colon` when there is one. */
  predicate WalkedSoFar(s: string, q: nat, colon: Option<nat>, i: nat)
    requires q < i <= |s| && (colon.Some? ==> q < colon.value < i)
  {
    && s[q] == '['
    && (colon.None? ==> PlainRun(s, q + 1, i))
    && (colon.Some? ==> s[colon.value] == ':' && PlainRun(s, q + 1, colon.value) && PlainRun(s, colon.value + 1, i))
  }

  /** The block the walk closes at the ']' at `i`. */
  lemma WalkClose(s: string, p: nat, q: nat, colon: Option<nat>, i: nat)
    requires p <= q < i < |s| && (colon.Some? ==> q < colon.value < i)
    requires s[p..q] == "" || s[p..q] == "/" || s[p..q] == "."
    requires WalkedSoFar(s, q, colon, i) && s[i] == ']'
    ensures Valid(Close(s, p, q, colon, i)) && OccursAt(s, Text(Close(s, p, q, colon, i)), p)
  {
    if colon.None? {
      SoundBare(s, p, q, i);
    } else {
      SoundNamed(s, p, q, colon.value, i);
    }
  }

  lemma {:induction false} WalkSound(s: string, p: nat, q: nat, colon: Option<nat>, i: nat)
    requires p <= q < i <= |s| && (colon.Some? ==> q < colon.value < i)
    requires s[p..q] == "" || s[p..q] == "/" || s[p..q] == "."
    requires WalkedSoFar(s, q, colon, i)
    requires Walk(s, p, q, colon, i).Some?
    ensures Valid(Walk(s, p, q, colon, i).value)
    ensures OccursAt(s, Text(Walk(s, p, q, colon, i).value), p)
    decreases |s| - i
  {
    if s[i] == ']' {
      WalkClose(s, p, q, colon, i);
    } else if s[i] == ':' {
      WalkSound(s, p, q, Some(i), i + 1);
    } else {
      WalkSound(s, p, q, colon, i + 1);
    }
  }

  /** What ParseAt returns is a valid block whose text lies at `p`. */
  lemma ParseSound(s: string, p: nat)
    requires p <= |s| && ParseAt(s, p).Some?
    ensures Valid(ParseAt(s, p).value) && OccursAt(s, Text(ParseAt(s, p).value), p)
  {
    var q := p + SepAt(s, p);
    if q > p {
      assert s[p..q] == [s[p]];
    }
    WalkSound(s, p, q, None, q + 1);
  }

  /** The block that starts at index `p` of `s`, if any. */
  function ScanAt(s: string, p: nat): (r: Option<Block>)
    requires p <= |s|
    ensures r.Some? ==> Valid(r.value) && OccursAt(s, Text(r.value), p)
  {
    var r := ParseAt(s, p);
    assert r.Some? ==> Valid(r.value) && OccursAt(s, Text(r.value), p) by {
      if r.Some? { ParseSound(s, p); }
    }
    r
  }

  /** The regex's possessive runs and greedy marker make the block found the
      longest valid block at `p`, and when none is found no valid block's
      text lies at `p`. */
  lemma ScanAtLongest(s: string, p: nat, b: Block)
    requires p <= |s| && Valid(b) && OccursAt(s, Text(b), p)
    ensures ScanAt(s, p).Some? && |Text(b)| <= |Text(ScanAt(s, p).value)|
  {
    var tail := s[p + |Text(b)|..];
    assert s[p..] == s[p..p + |Text(b)|] + tail;
    ParseText(s, p, b, tail);
  }

  /** A valid block's text followed by anything but a stray '?' scans back
      to the block. */
  lemma ScanAtText(s: string, p: nat, b: Block, tail: string)
    requires Valid(b) && p <= |s| && s[p..] == Text(b) + tail
    requires b.optional || |tail| == 0 || tail[0] != '?'
    ensures ParseAt(s, p) == Some(b)
  {
    ParseText(s, p, b, tail);
  }

  /** A character that neither opens a block nor separates one cannot start one. */
  lemma NoBlockHere(s: string, p: nat)
    requires p < |s| && s[p] != '['
    requires !(p + 1 < |s| && (s[p] == '/' || s[p] == '.') && s[p + 1] == '[')
    ensures ParseAt(s, p).None?
  {
  }

  /** A block found at index `start`. */
  datatype Occurrence = Occurrence(start: nat, block: Block)

  function End(o: Occurrence): nat {
    o.start + Width(o.block)
  }

  predicate Covered(r: seq<Occurrence>, q: int) {
    exists k | 0 <= k < |r| :: r[k].start <= q < End(r[k])
  }

  /** preg_match_all from index `p`: the leftmost block, then the scan
      resumes after it. The blocks come in order without overlap. */
  function Scan(s: string, p: nat): (r: seq<Occurrence>)
    requires p <= |s|
    decreases |s| - p
  {
    if p == |s| then []
    else
      var m := ParseAt(s, p);
      if m.None? then Scan(s, p + 1)
      else
        var rest := Scan(s, p + Width(m.value));
        [Occurrence(p, m.value)] + rest
  }

  lemma ScanNone(s: string, p: nat)
    requires p < |s| && ParseAt(s, p).None?
    ensures Scan(s, p) == Scan(s, p + 1)
  {
  }

  lemma ScanSome(s: string, p: nat, b: Block, e: nat)
    requires p < |s| && ParseAt(s, p) == Some(b) && e == p + Width(b)
    ensures e <= |s| && Scan(s, p) == [Occurrence(p, b)] + Scan(s, e)
  {
  }

  /** Each reported block is the one ScanAt finds at its start. */
  lemma {:induction false} ScanFound(s: string, p: nat, k: nat)
    requires p <= |s| && k < |Scan(s, p)|
    ensures Scan(s, p)[k].start <= |s| && ParseAt(s, Scan(s, p)[k].start) == Some(Scan(s, p)[k].block)
    decreases |s| - p
  {
    var m := ParseAt(s, p);
    if m.None? {
      ScanNone(s, p);
      ScanFound(s, p + 1, k);
    } else {
      ScanSome(s, p, m.value, p + Width(m.value));
      if k > 0 {
        ScanFound(s, p + Width(m.value), k - 1);
      }
    }
  }

  /** Nothing is skipped: every index from `p` on where a block starts lies
      under some reported block. */
  lemma {:induction false} ScanComplete(s: string, p: nat, q: nat)
    requires p <= q < |s| && ParseAt(s, q).Some?
    ensures Covered(Scan(s, p), q)
    decreases |s| - p
  {
    var m := ParseAt(s, p);
    if m.None? {
      ScanNone(s, p);
      ScanComplete(s, p + 1, q);
    } else {
      ScanSome(s, p, m.value, p + Width(m.value));
      var r := Scan(s, p);
      if q < p + Width(m.value) {
        assert r[0].start <= q < End(r[0]);
      } else {
        var rest := Scan(s, p + Width(m.value));
        ScanComplete(s, p + Width(m.value), q);
        var k :| 0 <= k < |rest| && rest[k].start <= q < End(rest[k]);
        assert r[k + 1] == rest[k];
      }
    }
  }

  /** No block starts at an index from `lo` up to, not including, `hi`. */
  predicate NoBlockIn(s: string, lo: int, hi: int) {
    forall q: nat | lo <= q < hi && q <= |s| :: ParseAt(s, q).None?
  }

  /** The blocks are reported left to right without overlap, and each is
      the leftmost one: no block starts between the end of the previous one
      (or the scan's start) and its own start. */
  lemma {:induction false} ScanOrdered(s: string, p: nat, k: nat)
    requires p <= |s| && k < |Scan(s, p)|
    ensures p <= Scan(s, p)[k].start
    ensures k + 1 < |Scan(s, p)| ==> End(Scan(s, p)[k]) <= Scan(s, p)[k + 1].start
    ensures NoBlockIn(s, if k == 0 then p else End(Scan(s, p)[k - 1]), Scan(s, p)[k].start)
    decreases |s| - p
  {
    var m := ParseAt(s, p);
    if m.None? {
      ScanNone(s, p);
      ScanOrdered(s, p + 1, k);
      var r := Scan(s, p);
      var r' := Scan(s, p + 1);
      assert r == r';
      var from := if k == 0 then p else End(r[k - 1]);
      var from' := if k == 0 then p + 1 else End(r'[k - 1]);
      forall q: nat | from <= q < r[k].start && q <= |s| ensures ParseAt(s, q).None? {
        if q != p {
          assert from' <= q < r'[k].start;
        }
      }
    } else {
      var e := p + Width(m.value);
      ScanSome(s, p, m.value, e);
      var r := Scan(s, p);
      var rest := Scan(s, e);
      if k == 0 {
        if |rest| > 0 {
          ScanOrdered(s, e, 0);
        }
      } else {
        ScanOrdered(s, e, k - 1);
        assert r[k] == rest[k - 1] && r[k - 1] == (if k == 1 then r[0] else rest[k - 2]);
        if k + 1 < |r| {
          ScanOrdered(s, e, k);
          assert r[k + 1] == rest[k];
        }
      }
    }
  }

  function Blocks(r: seq<Occurrence>): (bs: seq<Block>)
    ensures |bs| == |r|
    ensures forall k | 0 <= k < |r| :: bs[k] == r[k].block
  {
    seq(|r|, k requires 0 <= k < |r| => r[k].block)
  }

  /** The placeholders of a pattern, in order. */
  function PatternBlocks(pattern: string): seq<Block> {
    Blocks(Scan(pattern, 0))
  }

  /** The bracket part of a block, without its separator. */
  function Bracket(b: Block): string {
    Text(b.(pre := ""))
  }

  lemma TextBracket(b: Block)
    ensures Text(b) == b.pre + Bracket(b)
  {
  }

  /** What identifies a placeholder apart from its separator and marker. */
  datatype Slot = Slot(typ: string, colon: bool, name: string)

  function SlotOf(b: Block): Slot {
    Slot(b.typ, b.colon, b.name)
  }

  predicate NoOpen(s: string) {
    forall i | 0 <= i < |s| :: s[i] != '['
  }

  /** A pattern as literal text interleaved with blocks. */
  datatype Template = Tail(text: string) | Seg(text: string, block: Block, rest: Template)

  function Render(t: Template): string {
    match t
    case Tail(x) => x
    case Seg(x, b, rest) => x + Text(b) + Render(rest)
  }

  function TemplateBlocks(t: Template): seq<Block> {
    match t
    case Tail(_) => []
    case Seg(_, b, rest) => [b] + TemplateBlocks(rest)
  }

  function Slots(t: Template): seq<Slot> {
    match t
    case Tail(_) => []
    case Seg(_, b, rest) => [SlotOf(b)] + Slots(rest)
  }

  /** A template the scanner reads back block for block: literals hold no
      '[', a block without separator does not follow a '/' or '.', and a
      required block is not followed by a '?'. */
  predicate WellFormed(t: Template) {
    match t
    case Tail(x) => NoOpen(x)
    case Seg(x, b, rest) =>
      && NoOpen(x)
      && Valid(b)
      && (b.pre == "" && |x| > 0 ==> x[|x| - 1] != '/' && x[|x| - 1] != '.')
      && (!b.optional ==> !(|Render(rest)| > 0 && Render(rest)[0] == '?'))
      && WellFormed(rest)
  }

  /** Every '[' of the rendered text opens a block: no type or name holds one. */
  predicate Clean(t: Template) {
    match t
    case Tail(_) => true
    case Seg(_, b, rest) => NoOpen(b.typ) && NoOpen(b.name) && Clean(rest)
  }

  /** Literal text without '[' holds no block start, except where its last
      character becomes the separator of a block that follows. */
  lemma {:induction false} ScanSkip(s: string, p: nat, e: nat)
    requires p <= e <= |s| && forall i | p <= i < e :: s[i] != '['
    requires p < e < |s| && s[e] == '[' ==> s[e - 1] != '/' && s[e - 1] != '.'
    ensures Scan(s, p) == Scan(s, e)
    decreases e - p
  {
    if p < e {
      NoBlockHere(s, p);
      ScanNone(s, p);
      ScanSkip(s, p + 1, e);
    }
  }

  /** Scanning a rendered well-formed template finds exactly its blocks. */
  lemma {:induction false} ScanRender(s: string, p: nat, t: Template)
    requires p <= |s| && s[p..] == Render(t) && WellFormed(t)
    ensures Blocks(Scan(s, p)) == TemplateBlocks(t)
    decreases t
  {
    match t
    case Tail(x) =>
      assert forall i | p <= i < |s| :: s[i] == s[p..][i - p];
      ScanSkip(s, p, |s|);
    case Seg(x, b, rest) =>
      var e := ScanSeg(s, p, x, b, Render(rest));
      ScanRender(s, e, rest);
  }

  /** A literal and a block at `p` scan as that block, then the scan from
      the end of its text. */
  lemma ScanSeg(s: string, p: nat, x: string, b: Block, r: string) returns (e: nat)
    requires p <= |s| && s[p..] == x + Text(b) + r
    requires NoOpen(x) && Valid(b)
    requires b.pre == "" && |x| > 0 ==> x[|x| - 1] != '/' && x[|x| - 1] != '.'
    requires !b.optional ==> !(|r| > 0 && r[0] == '?')
    ensures e <= |s| && s[e..] == r
    ensures Blocks(Scan(s, p)) == [b] + Blocks(Scan(s, e))
  {
    var q := LiteralBefore(s, p, x, b, r);
    e := BlockAt(s, q, b, r);
  }

  /** The literal before a block is skipped. */
  lemma LiteralBefore(s: string, p: nat, x: string, b: Block, r: string) returns (q: nat)
    requires p <= |s| && s[p..] == x + Text(b) + r
    requires NoOpen(x) && Valid(b)
    requires b.pre == "" && |x| > 0 ==> x[|x| - 1] != '/' && x[|x| - 1] != '.'
    ensures q <= |s| && s[q..] == Text(b) + r && Scan(s, p) == Scan(s, q)
  {
    q := p + |x|;
    assert x + Text(b) + r == x + (Text(b) + r);
    DropAppend(s, p, x, Text(b) + r);
    SkipLiteral(s, p, q, x, b, Text(b) + r);
  }

  /** A block's text at `q` scans as that block, then the scan from the
      end of its text. */
  lemma BlockAt(s: string, q: nat, b: Block, r: string) returns (e: nat)
    requires q <= |s| && s[q..] == Text(b) + r && Valid(b)
    requires !b.optional ==> !(|r| > 0 && r[0] == '?')
    ensures e <= |s| && s[e..] == r
    ensures Blocks(Scan(s, q)) == [b] + Blocks(Scan(s, e))
  {
    DropAppend(s, q, Text(b), r);
    WidthText(b);
    ScanAtText(s, q, b, r);
    e := q + Width(b);
    ScanSome(s, q, b, e);
    BlocksCons(Occurrence(q, b), Scan(s, e));
  }

  /** The literal before a block adds nothing to the scan. */
  lemma SkipLiteral(s: string, p: nat, q: nat, x: string, b: Block, after: string)
    requires NoOpen(x) && Valid(b) && |after| > 0 && after[0] == Text(b)[0]
    requires b.pre == "" && |x| > 0 ==> x[|x| - 1] != '/' && x[|x| - 1] != '.'
    requires q == p + |x| && q <= |s| && s[p..q] == x && s[q..] == after
    ensures Scan(s, p) == Scan(s, q)
  {
    assert forall i | p <= i < q :: s[i] == x[i - p];
    if p < q && q < |s| && s[q] == '[' {
      assert s[q] == after[0];
      assert s[q - 1] == x[|x| - 1];
    }
    ScanSkip(s, p, q);
  }

  lemma BlocksCons(o: Occurrence, r: seq<Occurrence>)
    ensures Blocks([o] + r) == [o.block] + Blocks(r)
  {
  }

  /** The placeholders of a rendered well-formed template are its blocks. */
  lemma PatternOfTemplate(t: Template)
    requires WellFormed(t)
    ensures PatternBlocks(Render(t)) == TemplateBlocks(t)
  {
    ScanRender(Render(t), 0, t);
  }
}
