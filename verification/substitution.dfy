/** Replacing placeholders one at a time with str_replace over the whole
    route, as both reverse routing and route compilation do. The results
    below say when this behaves like replacing each placeholder in place:
    the placeholders are pairwise different, and the text put in for one
    never contains another's bracket. */
module Substitution {
  import opened Wrappers
  import opened PhpString
  import opened Placeholders
  import opened Sequences

  /** The index of the first ':' or ']' at or after `i`, or |s|. */
  function FirstDelim(s: string, i: nat): (m: nat)
    requires i <= |s|
    ensures i <= m <= |s| && PlainRun(s, i, m)
    ensures m < |s| ==> IsDelim(s[m])
    decreases |s| - i
  {
    if i == |s| || IsDelim(s[i]) then i else FirstDelim(s, i + 1)
  }

  /** Every '[' of `s` is closed by a ']' before any ':' and before the last
      character, so no bracket that starts in `s` can reach past it. */
  predicate Closed(s: string) {
    forall j | 0 <= j < |s| && s[j] == '[' :: FirstDelim(s, j + 1) + 1 < |s| && s[FirstDelim(s, j + 1)] == ']'
  }

  /** Text that can stand in a route next to the blocks `bs` without being
      taken for one of them. */
  predicate Inert(f: string, bs: seq<Block>) {
    Closed(f) && forall k | 0 <= k < |bs| :: !Contains(f, Bracket(bs[k]))
  }

  /** The blocks of a template differ in type, colon or name. */
  predicate DistinctSlots(t: Template) {
    match t
    case Tail(_) => true
    case Seg(_, b, rest) => SlotOf(b) !in Slots(rest) && DistinctSlots(rest)
  }

  lemma NoOpenInert(f: string, bs: seq<Block>)
    requires NoOpen(f)
    ensures Inert(f, bs)
  {
    forall k | 0 <= k < |bs|
      ensures !Contains(f, Bracket(bs[k]))
    {
      var w := Bracket(bs[k]);
      assert w[0] == '[';
      forall i: nat | i + |w| <= |f|
        ensures f[i..i + |w|][0] == f[i]
      {
      }
    }
  }

  /** Where a block's bracket starts at a '[' closed by the ']' at `m`, the
      block has no name part and its bracket ends at `m`, or one further
      when a '?' follows. */
  lemma BracketWithin(s: string, j: nat, m: nat, b: Block)
    requires Valid(b) && OccursAt(s, Bracket(b), j)
    requires j < m < |s| && s[m] == ']' && PlainRun(s, j + 1, m)
    ensures !b.colon && b.typ == s[j + 1..m]
    ensures j + |Bracket(b)| <= m + 1 + (if Marked(s, m + 1) then 1 else 0)
  {
    var c := b.(pre := "");
    var w := Bracket(b);
    var tail := s[j + |w|..];
    assert s[j..] == w + tail;
    assert s[j] == w[0];
    ParseText(s, j, c, tail);
    ParseBareAt(s, j, j, m);
    WidthText(c);
  }

  /** A bracket starting inside a closed prefix lies inside it. */
  lemma OccursWithin(d: string, y: string, j: nat, b: Block)
    requires Closed(d) && Valid(b) && j < |d| && OccursAt(d + y, Bracket(b), j)
    ensures OccursAt(d, Bracket(b), j)
  {
    var s := d + y;
    var w := Bracket(b);
    assert s[j] == w[0];
    var m := FirstDelim(d, j + 1);
    assert PlainRun(s, j + 1, m) by {
      forall k | j + 1 <= k < m ensures !IsDelim(s[k]) {
        assert s[k] == d[k];
      }
    }
    BracketWithin(s, j, m, b);
    assert s[..|d|] == d;
  }

  /** Splitting a string at the '[' of a block's text. */
  lemma OccursSuffix(s: string, w: string, g: nat, i: nat)
    requires OccursAt(s, w, i) && g <= |w|
    ensures OccursAt(s, w[g..], i + g)
  {
    assert s[i + g..i + |w|] == s[i..i + |w|][g..];
  }

  lemma FirstDelimExtend(s: string, e: string, i: nat)
    requires i <= |s| && FirstDelim(s, i) < |s|
    ensures FirstDelim(s + e, i) == FirstDelim(s, i)
    decreases |s| - i
  {
    assert (s + e)[i] == s[i];
    if !IsDelim(s[i]) {
      FirstDelimExtend(s, e, i + 1);
    }
  }

  lemma {:induction false} FirstDelimShift(p: string, f: string, i: nat)
    requires i <= |f|
    ensures FirstDelim(p + f, |p| + i) == |p| + FirstDelim(f, i)
    decreases |f| - i
  {
    if i < |f| {
      assert (p + f)[|p| + i] == f[i];
      if !IsDelim(f[i]) {
        FirstDelimShift(p, f, i + 1);
      }
    }
  }

  /** Closed text, then text without '[', then closed text, is closed. */
  lemma ClosedAppend(d: string, y: string, f: string)
    requires Closed(d) && NoOpen(y) && Closed(f)
    ensures Closed(d + y + f)
  {
    ClosedThenPlain(d, y);
    ClosedCat(d + y, f);
  }

  /** Closed text followed by text without '[' is closed. */
  lemma ClosedThenPlain(d: string, y: string)
    requires Closed(d) && NoOpen(y)
    ensures Closed(d + y)
  {
    var s := d + y;
    forall j | 0 <= j < |s| && s[j] == '['
      ensures FirstDelim(s, j + 1) + 1 < |s| && s[FirstDelim(s, j + 1)] == ']'
    {
      OpenBefore(d, y, j);
      ClosedLeft(d, y, j);
    }
  }

  /** Two closed texts side by side are closed. */
  lemma ClosedCat(a: string, f: string)
    requires Closed(a) && Closed(f)
    ensures Closed(a + f)
  {
    var s := a + f;
    forall j | 0 <= j < |s| && s[j] == '['
      ensures FirstDelim(s, j + 1) + 1 < |s| && s[FirstDelim(s, j + 1)] == ']'
    {
      if j < |a| {
        ClosedLeft(a, f, j);
      } else {
        ClosedRight(a, f, j - |a|);
      }
    }
  }

  /** A '[' of closed text is closed the same way whatever follows. */
  lemma ClosedLeft(a: string, f: string, j: nat)
    requires Closed(a) && j < |a| && a[j] == '['
    ensures FirstDelim(a + f, j + 1) + 1 < |a + f| && (a + f)[FirstDelim(a + f, j + 1)] == ']'
  {
    FirstDelimExtend(a, f, j + 1);
  }

  /** A '[' of closed text is closed the same way whatever precedes. */
  lemma ClosedRight(a: string, f: string, j: nat)
    requires Closed(f) && j < |f| && f[j] == '['
    ensures FirstDelim(a + f, |a| + j + 1) + 1 < |a + f| && (a + f)[FirstDelim(a + f, |a| + j + 1)] == ']'
  {
    FirstDelimShift(a, f, j + 1);
  }

  /** A bracket found in closed text, then text without '[', then more
      text, lies in the first part or in the last. */
  lemma OccursSplit(d: string, y: string, f: string, b: Block, i: nat)
    requires Closed(d) && NoOpen(y) && Valid(b)
    ensures OccursAt(d + y + f, Bracket(b), i) ==>
              OccursAt(d, Bracket(b), i) || (i >= |d| + |y| && OccursAt(f, Bracket(b), i - |d| - |y|))
  {
    var s := d + y + f;
    var w := Bracket(b);
    assert forall j | |d| <= j < |d| + |y| :: s[j] == y[j - |d|];
    if OccursAt(s, w, i) {
      assert s[i] == w[0];
      if i < |d| {
        assert s == d + (y + f);
        OccursWithin(d, y + f, i, b);
      } else {
        var i' := i - |d| - |y|;
        assert s[i..i + |w|] == f[i'..i' + |w|];
      }
    }
  }

  /** The same, for a bracket that occurs in neither closed part. */
  lemma AbsentAppend(d: string, y: string, f: string, b: Block)
    requires Closed(d) && NoOpen(y) && Valid(b)
    requires !Contains(d, Bracket(b)) && !Contains(f, Bracket(b))
    ensures !Contains(d + y + f, Bracket(b))
  {
    forall i: nat | i <= |d + y + f|
      ensures !OccursAt(d + y + f, Bracket(b), i)
    {
      OccursSplit(d, y, f, b, i);
    }
  }

  /** The only '[' of a clean block's text is the one after the separator. */
  lemma TextOpenAt(b: Block, k: nat)
    requires Valid(b) && NoOpen(b.typ) && NoOpen(b.name)
    requires k < |Text(b)| && Text(b)[k] == '['
    ensures k == |b.pre|
  {
    var mid := if b.colon then ":" + b.name else "";
    var opt := if b.optional then "?" else "";
    var a := b.pre + "[";
    assert NoOpen(mid) by {
      if b.colon {
        NoOpenCat(":", b.name);
      }
    }
    OpenBefore(a + b.typ + mid + "]", opt, k);
    OpenBefore(a + b.typ + mid, "]", k);
    OpenBefore(a + b.typ, mid, k);
    OpenBefore(a, b.typ, k);
    OpenAfter(b.pre, "[", k);
  }

  /** A '[' in text followed by text without one lies in the first part. */
  lemma OpenBefore(x: string, y: string, k: nat)
    requires NoOpen(y) && k < |x + y| && (x + y)[k] == '['
    ensures k < |x| && x[k] == '['
  {
  }

  /** A '[' before the end of text without one lies past it. */
  lemma OpenAfter(x: string, y: string, j: nat)
    requires NoOpen(x) && j < |x + y| && (x + y)[j] == '['
    ensures j >= |x|
  {
    assert forall i | 0 <= i < |x| :: (x + y)[i] == x[i];
  }

  /** Every '[' of a rendered well-formed clean template opens the bracket
      of one of its blocks. */
  lemma {:induction false} BracketSite(t: Template, j: nat) returns (c: Block, tail: string)
    requires WellFormed(t) && Clean(t) && j < |Render(t)| && Render(t)[j] == '['
    ensures Valid(c) && SlotOf(c) in Slots(t) && Render(t)[j..] == Bracket(c) + tail
    decreases t
  {
    match t
    case Tail(x) =>
      assert false;
    case Seg(x, b, rest) =>
      var r := Render(rest);
      assert Render(t) == x + (Text(b) + r);
      OpenAfter(x, Text(b) + r, j);
      if j < |x| + |Text(b)| {
        OpenInBlock(x, b, r, j);
        c, tail := b, r;
      } else {
        var j' := j - |x| - |Text(b)|;
        OpenInRest(x, Text(b), r, j);
        c, tail := BracketSite(rest, j');
      }
  }

  /** A '[' inside a clean block's text is the one of its bracket. */
  lemma OpenInBlock(x: string, b: Block, r: string, j: nat)
    requires Valid(b) && NoOpen(b.typ) && NoOpen(b.name)
    requires |x| <= j < |x| + |Text(b)| && (x + (Text(b) + r))[j] == '['
    ensures (x + (Text(b) + r))[j..] == Bracket(b) + r
  {
    var s := x + (Text(b) + r);
    assert Text(b)[j - |x|] == s[j];
    TextOpenAt(b, j - |x|);
    TextBracket(b);
    assert s == x + b.pre + (Bracket(b) + r);
  }

  lemma OpenInRest(x: string, u: string, r: string, j: nat)
    requires |x| + |u| <= j < |x| + |u| + |r|
    ensures (x + (u + r))[j] == r[j - |x| - |u|]
    ensures (x + (u + r))[j..] == r[j - |x| - |u|..]
  {
    assert x + (u + r) == (x + u) + r;
  }

  /** A block whose bracket occurs in a rendered template has the slot of
      one of the template's blocks. */
  lemma SlotAt(t: Template, j: nat, b: Block)
    requires WellFormed(t) && Clean(t) && Valid(b) && OccursAt(Render(t), Bracket(b), j)
    ensures SlotOf(b) in Slots(t)
  {
    BracketOpen(Render(t), j, b);
    var c, tail := BracketSite(t, j);
    SameBracket(Render(t), j, b, c, tail);
  }

  /** An occurrence of a bracket starts with its '['. */
  lemma BracketOpen(s: string, j: nat, b: Block)
    requires OccursAt(s, Bracket(b), j)
    ensures j < |s| && s[j] == '['
  {
    assert s[j] == Bracket(b)[0];
  }

  /** Two brackets read at the same place have the same slot. */
  lemma SameBracket(s: string, j: nat, b: Block, c: Block, tail: string)
    requires Valid(b) && Valid(c) && OccursAt(s, Bracket(b), j)
    requires j <= |s| && s[j..] == Bracket(c) + tail
    ensures SlotOf(b) == SlotOf(c)
  {
    var w := Bracket(b);
    var tail' := s[j + |w|..];
    assert s[j..] == w + tail';
    ParseText(s, j, b.(pre := ""), tail');
    ParseText(s, j, c.(pre := ""), tail);
  }

  /** The search text without its separator is the block's bracket. */
  lemma SearchBracket(b: Block, keep: string, search: string)
    requires keep + search == Text(b) && (keep == "" || keep == b.pre)
    ensures |keep| <= |b.pre| && search[|b.pre| - |keep|..] == Bracket(b)
    ensures |search| > 0 && search[|b.pre| - |keep|] == '['
  {
    TextBracket(b);
    assert (keep + search)[|b.pre|..] == Bracket(b);
    assert (keep + search)[|b.pre|..] == search[|b.pre| - |keep|..];
  }

  lemma Regroup(u: string, k: string, s: string, r: string, p: string, w: string)
    requires k + s == p + w
    ensures u + k + (s + r) == u + p + (w + r)
  {
    assert u + k + (s + r) == u + (k + s) + r;
    assert u + p + (w + r) == u + (p + w) + r;
  }

  lemma Regroup2(d: string, x: string, k: string, s: string, r: string, u: string)
    requires k + s == u
    ensures d + (x + u + r) == d + x + k + (s + r)
  {
    assert d + (x + u + r) == d + x + (k + s) + r;
  }

  /** Where an occurrence of the search text has its '['. */
  lemma OccursOpen(s: string, b: Block, keep: string, search: string, i: nat)
    requires keep + search == Text(b) && (keep == "" || keep == b.pre)
    ensures OccursAt(s, search, i) ==> OccursAt(s, Bracket(b), i + |b.pre| - |keep|)
  {
    SearchBracket(b, keep, search);
    if OccursAt(s, search, i) {
      OccursSuffix(s, search, |b.pre| - |keep|, i);
    }
  }

  /** No occurrence of a block's text, or of its bracket part, starts
      before the block: the text before it has no '[' except inside the
      closed prefix `d`, and a bracket starting there lies inside it. */
  lemma PrefixFree(d: string, x: string, b: Block, keep: string, search: string, r: string, i: nat)
    requires Valid(b) && NoOpen(x) && keep + search == Text(b) && (keep == "" || keep == b.pre)
    requires Closed(d) && i < |d + x + keep|
    ensures OccursAt(d + x + keep + (search + r), search, i) ==> OccursAt(d, Bracket(b), i + |b.pre| - |keep|)
  {
    var s := d + x + keep + (search + r);
    var w := Bracket(b);
    TextBracket(b);
    OccursOpen(s, b, keep, search, i);
    Regroup(d + x, keep, search, r, b.pre, w);
    PreNoOpen(b);
    NoOpenCat(x, b.pre);
    SeqAssoc4(d, x, b.pre, w + r);
    PrefixOpen(d, x + b.pre, w + r, b, i + |b.pre| - |keep|);
  }

  lemma PreNoOpen(b: Block)
    requires Valid(b)
    ensures NoOpen(b.pre)
  {
  }

  /** A bracket that starts before the end of closed text followed by text
      without '[' starts inside the closed text, and lies inside it. */
  lemma PrefixOpen(d: string, y: string, z: string, b: Block, j: nat)
    requires Closed(d) && NoOpen(y) && Valid(b) && j < |d| + |y|
    ensures OccursAt(d + (y + z), Bracket(b), j) ==> OccursAt(d, Bracket(b), j)
  {
    var s := d + (y + z);
    if OccursAt(s, Bracket(b), j) {
      assert s[j] == Bracket(b)[0];
      if j < |d| {
        OccursWithin(d, y + z, j, b);
      }
    }
  }

  /** Nor does one start after the block, where the other blocks' slots
      differ from its own. */
  lemma RestFree(b: Block, rest: Template, keep: string, search: string, i: nat)
    requires Valid(b) && WellFormed(rest) && Clean(rest)
    requires keep + search == Text(b) && (keep == "" || keep == b.pre)
    ensures OccursAt(Render(rest), search, i) ==> SlotOf(b) in Slots(rest)
  {
    OccursOpen(Render(rest), b, keep, search, i);
    if OccursAt(Render(rest), search, i) {
      SlotAt(rest, i + |b.pre| - |keep|, b);
    }
  }

  lemma PrefixFreeAll(d: string, x: string, b: Block, keep: string, search: string, r: string)
    requires Valid(b) && NoOpen(x) && keep + search == Text(b) && (keep == "" || keep == b.pre)
    requires Closed(d) && !Contains(d, Bracket(b))
    ensures forall i: nat | i < |d + x + keep| :: !OccursAt(d + x + keep + (search + r), search, i)
  {
    forall i: nat | i < |d + x + keep|
      ensures !OccursAt(d + x + keep + (search + r), search, i)
    {
      PrefixFree(d, x, b, keep, search, r, i);
    }
  }

  lemma RestFreeAll(b: Block, rest: Template, keep: string, search: string)
    requires Valid(b) && WellFormed(rest) && Clean(rest) && SlotOf(b) !in Slots(rest)
    requires keep + search == Text(b) && (keep == "" || keep == b.pre)
    ensures !Contains(Render(rest), search)
  {
    forall i: nat | i <= |Render(rest)|
      ensures !OccursAt(Render(rest), search, i)
    {
      RestFree(b, rest, keep, search, i);
    }
  }

  /** str_replace on text where the search string occurs exactly once, at
      the boundary between `a` and the rest. */
  lemma ReplaceOnce(a: string, search: string, r: string, piece: string)
    requires |search| > 0
    requires forall i: nat | i < |a| :: !OccursAt(a + (search + r), search, i)
    requires !Contains(r, search)
    ensures ReplaceAll(a + (search + r), search, piece) == a + (piece + r)
  {
    ReplaceAllSkip(a, search + r, search, piece);
    ReplaceAllHead(search, r, piece);
    ReplaceAllAbsent(r, search, piece);
  }

  /** One replacement on text `d`, a literal `x`, a block's text and the
      rest `r`: when the search text does not occur in `r`, only the block
      is affected. */
  lemma ReplaceCore(d: string, x: string, b: Block, r: string, keep: string, search: string, piece: string)
    requires Valid(b) && NoOpen(x) && keep + search == Text(b) && (keep == "" || keep == b.pre)
    requires Closed(d) && !Contains(d, Bracket(b)) && !Contains(r, search)
    ensures |search| > 0
    ensures ReplaceAll(d + (x + Text(b) + r), search, piece) == d + x + keep + piece + r
  {
    var a := d + x + keep;
    SearchBracket(b, keep, search);
    Regroup2(d, x, keep, search, r, Text(b));
    PrefixFreeAll(d, x, b, keep, search, r);
    ReplaceOnce(a, search, r, piece);
  }

  /** What a replacement step needs to know of the first block of a
      template: the block's text and its bracket occur nowhere in the rest. */
  lemma StepFacts(x: string, b: Block, rest: Template)
    requires WellFormed(Seg(x, b, rest)) && Clean(Seg(x, b, rest)) && SlotOf(b) !in Slots(rest)
    ensures Valid(b) && NoOpen(x)
    ensures !Contains(Render(rest), Text(b)) && !Contains(Render(rest), Bracket(b))
    ensures Render(Seg(x, b, rest)) == x + Text(b) + Render(rest)
  {
    TextBracket(b);
    RestFreeAll(b, rest, "", Text(b));
    RestFreeAll(b, rest, b.pre, Bracket(b));
  }

  /** What stays true of the replaced part after a step. */
  lemma InertStep(d: string, y: string, piece: string, bs: seq<Block>)
    requires Inert(d, bs) && NoOpen(y) && Inert(piece, bs)
    requires forall k | 0 <= k < |bs| :: Valid(bs[k])
    ensures Inert(d + y + piece, bs)
  {
    ClosedAppend(d, y, piece);
    forall k | 0 <= k < |bs|
      ensures !Contains(d + y + piece, Bracket(bs[k]))
    {
      AbsentAppend(d, y, piece, bs[k]);
    }
  }

  lemma BlocksValid(t: Template)
    requires WellFormed(t)
    ensures forall k | 0 <= k < |TemplateBlocks(t)| :: Valid(TemplateBlocks(t)[k])
    decreases t
  {
    match t
    case Tail(_) =>
    case Seg(_, b, rest) =>
      BlocksValid(rest);
      assert forall k | 1 <= k < |TemplateBlocks(t)| :: TemplateBlocks(t)[k] == TemplateBlocks(rest)[k - 1];
  }

  lemma BlocksClean(t: Template)
    requires Clean(t)
    ensures forall k | 0 <= k < |TemplateBlocks(t)| :: NoOpen(TemplateBlocks(t)[k].typ) && NoOpen(TemplateBlocks(t)[k].name)
    decreases t
  {
    match t
    case Tail(_) =>
    case Seg(_, b, rest) =>
      BlocksClean(rest);
      assert forall k | 1 <= k < |TemplateBlocks(t)| :: TemplateBlocks(t)[k] == TemplateBlocks(rest)[k - 1];
  }

  /** Text inert towards a template's blocks is inert towards those after
      the first, and the first block's bracket does not occur in it. */
  lemma InertRest(d: string, x: string, b: Block, rest: Template)
    requires Inert(d, TemplateBlocks(Seg(x, b, rest)))
    ensures Inert(d, TemplateBlocks(rest))
    ensures Closed(d) && !Contains(d, Bracket(b))
  {
    var bs := TemplateBlocks(Seg(x, b, rest));
    assert bs[0] == b;
    assert forall k | 0 <= k < |TemplateBlocks(rest)| :: TemplateBlocks(rest)[k] == bs[k + 1];
  }

  lemma NoOpenCat(a: string, b: string)
    requires NoOpen(a) && NoOpen(b)
    ensures NoOpen(a + b)
  {
    assert forall i | 0 <= i < |a + b| :: (a + b)[i] == if i < |a| then a[i] else b[i - |a|];
  }

  /** A bracket found in closed text has no name part. */
  lemma OccursBare(s: string, b: Block, i: nat)
    requires Closed(s) && Valid(b)
    ensures OccursAt(s, Bracket(b), i) ==> !b.colon
  {
    if OccursAt(s, Bracket(b), i) {
      assert s[i] == Bracket(b)[0];
      var m := FirstDelim(s, i + 1);
      BracketWithin(s, i, m, b);
    }
  }

  /** So a named block's bracket never occurs in closed text. */
  lemma NamedAbsent(s: string, b: Block)
    requires Closed(s) && Valid(b) && b.colon
    ensures !Contains(s, Bracket(b))
  {
    forall i: nat | i <= |s|
      ensures !OccursAt(s, Bracket(b), i)
    {
      OccursBare(s, b, i);
    }
  }

  lemma InertSuffix(f: string, bs: seq<Block>)
    requires |bs| > 0 && Inert(f, bs)
    ensures Inert(f, bs[1..])
  {
    assert forall k | 0 <= k < |bs| - 1 :: bs[1..][k] == bs[k + 1];
  }

  /** The template of the pattern "/users/[i:id]". */
  lemma UsersTemplate(b: Block, t: Template)
    requires b == Block("/", "i", true, "id", false) && t == Seg("/users", b, Tail(""))
    ensures Render(t) == "/users/[i:id]"
    ensures WellFormed(t) && Clean(t) && DistinctSlots(t)
    ensures TemplateBlocks(t) == [b]
  {
  }
}
