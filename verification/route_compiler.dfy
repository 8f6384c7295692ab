/** Route compilation: compileRoute() turns a stored pattern into the PCRE
    regex match() runs, replacing each placeholder block with a capture
    group built from its match type. */
module RouteCompiler {
  import opened PhpString
  import opened PhpArray
  import opened Placeholders
  import opened Substitution
  import opened Sequences
  import opened RouteTable

  /** $matchTypes[$type] when that key is set; otherwise the type text is
      used as a regex of its own. */
  function ResolveType(types: Array<string>, typ: string): (r: string)
    ensures HasKey(types, NormalizeKey(typ)) ==> (NormalizeKey(typ), r) in types
    ensures !HasKey(types, NormalizeKey(typ)) ==> r == typ
  {
    var found := Find(types, NormalizeKey(typ));
    if found.Some? then found.value else typ
  }

  /** The separator as a regex: a '.' is escaped, '/' and "" stand for
      themselves. */
  function SeparatorRegex(pre: string): string {
    if pre == "." then "\\." else pre
  }

  /** The named-group prefix, present only for a non-empty name. */
  function GroupName(name: string): string {
    if name != "" then "?P<" + name + ">" else ""
  }

  function Marker(optional: bool): string {
    if optional then "?" else ""
  }

  /** What closes a fragment: the group, then the non-capturing group, each
      made optional for an optional block. */
  function Closing(optional: bool): string {
    ")" + Marker(optional) + ")" + Marker(optional)
  }

  /** The regex put in place of one block. */
  function Fragment(b: Block, types: Array<string>): string {
    "(?:" + SeparatorRegex(b.pre) + "(" + GroupName(b.name) + ResolveType(types, b.typ) + Closing(b.optional)
  }

  /** The loop of compileRoute(): each block's whole text, every occurrence
      of it, is replaced by its fragment. */
  function RewriteAll(route: string, bs: seq<Block>, types: Array<string>): string
    decreases |bs|
  {
    if |bs| == 0 then route
    else RewriteAll(ReplaceAll(route, Text(bs[0]), Fragment(bs[0], types)), bs[1..], types)
  }

  const RegexHead: string := "`^(?J)"
  const RegexTail: string := "$`u"

  /** compileRoute(): the rewritten route between the anchors, delimiters
      and flags. */
  function Compile(route: string, types: Array<string>): (r: string)
    ensures StartsWith(r, RegexHead) && |r| >= |RegexHead| + |RegexTail|
    ensures r[|r| - |RegexTail|..] == RegexTail
  {
    var r := RegexHead + RewriteAll(route, PatternBlocks(route), types) + RegexTail;
    assert r[..|RegexHead|] == RegexHead;
    assert r[|r| - |RegexTail|..] == RegexTail;
    r
  }

  /** The regex a template stands for: each block replaced in place by its
      fragment. */
  function FillFragments(t: Template, types: Array<string>): string
    decreases t
  {
    match t
    case Tail(x) => x
    case Seg(x, b, rest) => x + Fragment(b, types) + FillFragments(rest, types)
  }

  /** No block's fragment can be taken for the text of any block of the
      template. */
  predicate FragmentsInert(t: Template, types: Array<string>) {
    forall k | 0 <= k < |TemplateBlocks(t)| :: Inert(Fragment(TemplateBlocks(t)[k], types), TemplateBlocks(t))
  }

  lemma FragmentsRest(x: string, b: Block, rest: Template, types: Array<string>)
    requires FragmentsInert(Seg(x, b, rest), types)
    ensures FragmentsInert(rest, types)
    ensures Inert(Fragment(b, types), TemplateBlocks(rest))
  {
    var bs := TemplateBlocks(Seg(x, b, rest));
    var tail := TemplateBlocks(rest);
    assert bs[0] == b && bs[1..] == tail;
    forall k | 0 <= k < |tail|
      ensures Inert(Fragment(tail[k], types), tail)
    {
      assert tail[k] == bs[k + 1];
      InertSuffix(Fragment(tail[k], types), bs);
    }
    InertSuffix(Fragment(b, types), bs);
  }

  /** The first block's pass of the loop, on text `d`, a literal `x`, the
      block's text and the rest `r` of the route. */
  lemma RewriteStep(d: string, x: string, b: Block, r: string, types: Array<string>)
    requires Valid(b) && NoOpen(x) && !Contains(r, Text(b))
    requires Closed(d) && !Contains(d, Bracket(b))
    ensures ReplaceAll(d + (x + Text(b) + r), Text(b), Fragment(b, types)) == d + x + Fragment(b, types) + r
  {
    var f := Fragment(b, types);
    EmptyCat(Text(b));
    EmptyCat(d + x);
    ReplaceCore(d, x, b, r, "", Text(b), f);
  }

  /** After that pass, the text before the rest of the template is inert
      towards the remaining blocks. */
  lemma RewriteInert(d: string, x: string, b: Block, rest: Template, types: Array<string>)
    requires WellFormed(Seg(x, b, rest)) && FragmentsInert(Seg(x, b, rest), types)
    requires Inert(d, TemplateBlocks(Seg(x, b, rest)))
    ensures Inert(d + x + Fragment(b, types), TemplateBlocks(rest))
    ensures FragmentsInert(rest, types)
  {
    InertRest(d, x, b, rest);
    FragmentsRest(x, b, rest, types);
    BlocksValid(rest);
    InertStep(d, x, Fragment(b, types), TemplateBlocks(rest));
  }

  /** The loop over a well-formed template with distinct clean blocks whose
      fragments are inert puts each fragment in its block's place. */
  lemma {:induction false} RewriteTemplate(d: string, t: Template, types: Array<string>)
    requires WellFormed(t) && Clean(t) && DistinctSlots(t) && FragmentsInert(t, types)
    requires Inert(d, TemplateBlocks(t))
    ensures RewriteAll(d + Render(t), TemplateBlocks(t), types) == d + FillFragments(t, types)
    decreases t
  {
    match t
    case Tail(x) =>
    case Seg(x, b, rest) =>
      var f := Fragment(b, types);
      var tail := TemplateBlocks(rest);
      assert TemplateBlocks(t)[0] == b && TemplateBlocks(t)[1..] == tail;
      InertRest(d, x, b, rest);
      StepFacts(x, b, rest);
      RewriteStep(d, x, b, Render(rest), types);
      RewriteInert(d, x, b, rest, types);
      RewriteTemplate(d + x + f, rest, types);
      calc {
        RewriteAll(d + Render(t), TemplateBlocks(t), types);
        RewriteAll(ReplaceAll(d + Render(t), Text(b), f), tail, types);
        RewriteAll(d + x + f + Render(rest), tail, types);
        d + x + f + FillFragments(rest, types);
        { SeqAssoc4(d, x, f, FillFragments(rest, types)); }
        d + FillFragments(t, types);
      }
  }

  /** Compiling a template route gives its fragments in place between the
      anchors. */
  lemma CompileTemplate(t: Template, types: Array<string>)
    requires WellFormed(t) && Clean(t) && DistinctSlots(t) && FragmentsInert(t, types)
    ensures Compile(Render(t), types) == RegexHead + FillFragments(t, types) + RegexTail
  {
    PatternOfTemplate(t);
    NoOpenInert("", TemplateBlocks(t));
    RewriteTemplate("", t, types);
    assert "" + Render(t) == Render(t);
    assert "" + FillFragments(t, types) == FillFragments(t, types);
  }

  /** A route without '[' compiles to itself between the anchors. */
  lemma CompilePlain(route: string, types: Array<string>)
    requires NoOpen(route)
    ensures Compile(route, types) == RegexHead + route + RegexTail
  {
    PatternOfTemplate(Tail(route));
  }

  /** Every regex of the table is closed: each '[' is matched by a ']'
      before any ':' and before the end. */
  predicate ClosedTypes(types: Array<string>) {
    forall i | 0 <= i < |types| :: Closed(types[i].1)
  }

  lemma NoOpenClosed(s: string)
    requires NoOpen(s)
    ensures Closed(s)
  {
  }

  /** The part of a fragment before the type's regex holds no '['. */
  lemma FragmentHead(b: Block)
    requires Valid(b) && NoOpen(b.name)
    ensures NoOpen("(?:" + SeparatorRegex(b.pre) + "(" + GroupName(b.name))
  {
    var u := "(?:" + SeparatorRegex(b.pre) + "(";
    assert NoOpen(u) by {
      if b.pre == "." {
        assert u == "(?:\\.(";
      } else if b.pre == "/" {
        assert u == "(?:/(";
      } else {
        assert u == "(?:(";
      }
    }
    assert NoOpen(GroupName(b.name)) by {
      if b.name != "" {
        NoOpenCat("?P<", b.name);
        NoOpenCat("?P<" + b.name, ">");
      }
    }
    NoOpenCat(u, GroupName(b.name));
  }

  /** The part of a fragment after the type's regex holds no '['. */
  lemma FragmentTail(optional: bool)
    ensures NoOpen(Closing(optional))
  {
  }

  lemma ResolveClosed(types: Array<string>, typ: string)
    requires ClosedTypes(types) && NoOpen(typ)
    ensures Closed(ResolveType(types, typ))
  {
    if HasKey(types, NormalizeKey(typ)) {
      var i :| 0 <= i < |types| && types[i] == (NormalizeKey(typ), ResolveType(types, typ));
    }
  }

  /** With closed match types, the fragment of a valid clean block is closed. */
  lemma FragmentClosed(b: Block, types: Array<string>)
    requires Valid(b) && NoOpen(b.typ) && NoOpen(b.name) && ClosedTypes(types)
    ensures Closed(Fragment(b, types))
  {
    var regex := ResolveType(types, b.typ);
    ResolveClosed(types, b.typ);
    var head := "(?:" + SeparatorRegex(b.pre) + "(" + GroupName(b.name);
    var tail := Closing(b.optional);
    FragmentHead(b);
    FragmentTail(b.optional);
    EmptyCat(head);
    EmptyCat(head + regex + tail);
    ClosedAppend("", head, regex);
    ClosedAppend(head + regex, tail, "");
  }

  /** Every block named: the compiled regex is the in-place rendering,
      whatever the (closed) match types. */
  lemma NamedFragmentsInert(t: Template, types: Array<string>)
    requires WellFormed(t) && Clean(t) && ClosedTypes(types)
    requires forall k | 0 <= k < |TemplateBlocks(t)| :: TemplateBlocks(t)[k].colon
    ensures FragmentsInert(t, types)
  {
    var bs := TemplateBlocks(t);
    BlocksValid(t);
    BlocksClean(t);
    forall k | 0 <= k < |bs|
      ensures Inert(Fragment(bs[k], types), bs)
    {
      var f := Fragment(bs[k], types);
      FragmentClosed(bs[k], types);
      forall j | 0 <= j < |bs|
        ensures !Contains(f, Bracket(bs[j]))
      {
        NamedAbsent(f, bs[j]);
      }
    }
  }

  /** Closedness checked one index at a time from `i` on, which the
      verifier can evaluate on a literal regex. */
  predicate ClosedFrom(s: string, i: nat)
    requires i <= |s|
    decreases |s| - i
  {
    i == |s| || ((s[i] != '[' || (FirstDelim(s, i + 1) + 1 < |s| && s[FirstDelim(s, i + 1)] == ']')) && ClosedFrom(s, i + 1))
  }

  lemma {:induction false} ClosedFromSound(s: string, i: nat)
    requires i <= |s| && ClosedFrom(s, i)
    ensures forall j | i <= j < |s| && s[j] == '[' :: FirstDelim(s, j + 1) + 1 < |s| && s[FirstDelim(s, j + 1)] == ']'
    decreases |s| - i
  {
    if i < |s| {
      ClosedFromSound(s, i + 1);
    }
  }

  lemma LiteralClosed(s: string)
    requires ClosedFrom(s, 0)
    ensures Closed(s)
  {
    ClosedFromSound(s, 0);
  }

  lemma DigitsClosed()
    ensures Closed("[0-9]++")
  {
    LiteralClosed("[0-9]++");
  }
  lemma AlnumClosed()
    ensures Closed("[0-9A-Za-z]++")
  {
    LiteralClosed("[0-9A-Za-z]++");
  }
  lemma HexClosed()
    ensures Closed("[0-9A-Fa-f]++")
  {
    LiteralClosed("[0-9A-Fa-f]++");
  }
  lemma SegmentClosed()
    ensures Closed("[^/\\.]++")
  {
    LiteralClosed("[^/\\.]++");
  }

  /** The router's built-in match types are closed. */
  lemma DefaultTypesClosed()
    ensures ClosedTypes(DefaultMatchTypes)
  {
    DigitsClosed();
    AlnumClosed();
    HexClosed();
    NoOpenClosed(".+?");
    NoOpenClosed(".++");
    SegmentClosed();
  }

  /** "/users/[i:id]" with the built-in types: the separator moves into the
      group and the type becomes the digits regex. */
  lemma CompileUsersRoute()
    ensures Compile("/users/[i:id]", DefaultMatchTypes) == "`^(?J)/users(?:/(?P<id>[0-9]++))$`u"
  {
    var b := Block("/", "i", true, "id", false);
    var t := Seg("/users", b, Tail(""));
    UsersTemplate(b, t);
    DefaultTypesClosed();
    NamedFragmentsInert(t, DefaultMatchTypes);
    CompileTemplate(t, DefaultMatchTypes);
    var f := Fragment(b, DefaultMatchTypes);
    UsersFragment(b);
    assert FillFragments(t, DefaultMatchTypes) == "/users" + f + "";
    UsersRegex(f);
  }

  lemma ResolveDigits()
    ensures ResolveType(DefaultMatchTypes, "i") == "[0-9]++"
  {
    assert NormalizeKey("i") == Str("i") by {
      assert !IsDigit('i');
    }
    FindAt(DefaultMatchTypes, 0);
  }

  lemma UsersFragment(b: Block)
    requires b == Block("/", "i", true, "id", false)
    ensures Fragment(b, DefaultMatchTypes) == "(?:/(?P<id>[0-9]++))"
  {
    ResolveDigits();
    assert Fragment(b, DefaultMatchTypes) == "(?:" + "/" + "(" + ("?P<" + "id" + ">") + "[0-9]++" + (")" + "" + ")" + "");
  }

  lemma UsersRegex(f: string)
    requires f == "(?:/(?P<id>[0-9]++))"
    ensures RegexHead + ("/users" + f + "") + RegexTail == "`^(?J)/users(?:/(?P<id>[0-9]++))$`u"
  {
  }
}
