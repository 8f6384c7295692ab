/** Reverse routing: generate() rebuilds the URL of a named route by
    putting parameter values in place of its placeholders. */
module ReverseRouter {
  import opened Wrappers
  import opened PhpString
  import opened PhpArray
  import opened Placeholders
  import opened Substitution
  import opened Sequences
  import opened RouteTable

  /** The $params argument; a null value counts as not supplied. */
  type Values = Array<Option<string>>

  /** isset($params[$param]) ? $params[$param]: the value supplied for the
      block's name, if any. */
  function Supplied(params: Values, b: Block): Option<string> {
    NonNull(params, NormalizeKey(b.name))
  }

  /** One pass of generate()'s loop, for the block found `index`-th: a
      supplied value replaces the bracket and keeps the separator; a missing
      optional block other than the first goes together with its separator;
      otherwise only the bracket goes. Each replaces every occurrence. */
  function Substitute(url: string, b: Block, index: nat, params: Values): string {
    var v := Supplied(params, b);
    if v.Some? then ReplaceAll(url, Bracket(b), v.value)
    else if b.optional && index != 0 then ReplaceAll(url, Text(b), "")
    else ReplaceAll(url, Bracket(b), "")
  }

  /** The loop over the blocks found, numbered from `index`. */
  function SubstituteAll(url: string, bs: seq<Block>, index: nat, params: Values): string
    decreases |bs|
  {
    if |bs| == 0 then url
    else SubstituteAll(Substitute(url, bs[0], index, params), bs[1..], index + 1, params)
  }

  /** generate(): an unknown name raises; otherwise the base path and the
      stored pattern, with the pattern's blocks substituted. */
  function Generate<T>(r: Router<T>, name: string, params: Values): (res: Result<string, RouterError>)
    ensures res.Failure? <==> name !in r.named
    ensures res.Failure? ==> res.error == RouteNotFound(name)
  {
    if name !in r.named then Failure(RouteNotFound(name))
    else
      var route := r.named[name];
      Success(SubstituteAll(r.basePath + route, PatternBlocks(route), 0, params))
  }

  /** What stands in place of a block's text in the generated URL. */
  function Piece(b: Block, index: nat, params: Values): string {
    var v := Supplied(params, b);
    if v.Some? then b.pre + v.value
    else if b.optional && index != 0 then ""
    else b.pre
  }

  /** The URL a template stands for, each block replaced in place. */
  function Fill(t: Template, params: Values, index: nat): string
    decreases t
  {
    match t
    case Tail(x) => x
    case Seg(x, b, rest) => x + Piece(b, index, params) + Fill(rest, params, index + 1)
  }

  /** No supplied value holds a '['. */
  predicate PlainValues(params: Values) {
    forall i | 0 <= i < |params| :: params[i].1.Some? ==> NoOpen(params[i].1.value)
  }

  lemma SuppliedPlain(params: Values, b: Block)
    requires PlainValues(params) && Supplied(params, b).Some?
    ensures NoOpen(Supplied(params, b).value)
  {
    var found := Find(params, NormalizeKey(b.name));
    var i :| 0 <= i < |params| && params[i] == (NormalizeKey(b.name), found.value);
  }

  /** The first block's pass of the loop, on text `d`, a literal `x`, the
      block's text and the rest `r` of the route. */
  lemma SubstituteStep(d: string, x: string, b: Block, r: string, index: nat, params: Values)
    requires Valid(b) && NoOpen(x) && !Contains(r, Text(b)) && !Contains(r, Bracket(b))
    requires Closed(d) && !Contains(d, Bracket(b))
    ensures Substitute(d + (x + Text(b) + r), b, index, params) == d + x + Piece(b, index, params) + r
  {
    var v := Supplied(params, b);
    TextBracket(b);
    if v.Some? {
      ReplaceCore(d, x, b, r, b.pre, Bracket(b), v.value);
      SeqAssoc4Mid(d + x, b.pre, v.value, r);
    } else if b.optional && index != 0 {
      EmptyCat(Text(b));
      EmptyCat(d + x);
      ReplaceCore(d, x, b, r, "", Text(b), "");
    } else {
      EmptyCat(d + x + b.pre);
      ReplaceCore(d, x, b, r, b.pre, Bracket(b), "");
    }
  }

  /** The loop over a well-formed template with distinct clean blocks and
      values without '[' puts each piece in its block's place. */
  lemma {:induction false} SubstituteTemplate(d: string, t: Template, index: nat, params: Values)
    requires WellFormed(t) && Clean(t) && DistinctSlots(t) && PlainValues(params)
    requires Inert(d, TemplateBlocks(t))
    ensures SubstituteAll(d + Render(t), TemplateBlocks(t), index, params) == d + Fill(t, params, index)
    decreases t
  {
    match t
    case Tail(x) =>
    case Seg(x, b, rest) =>
      var p := Piece(b, index, params);
      var tail := TemplateBlocks(rest);
      assert TemplateBlocks(t)[0] == b && TemplateBlocks(t)[1..] == tail;
      InertRest(d, x, b, rest);
      StepFacts(x, b, rest);
      SubstituteStep(d, x, b, Render(rest), index, params);
      InertAfter(d, x, b, rest, index, params);
      SubstituteTemplate(d + x + p, rest, index + 1, params);
      calc {
        SubstituteAll(d + Render(t), TemplateBlocks(t), index, params);
        SubstituteAll(Substitute(d + Render(t), b, index, params), tail, index + 1, params);
        SubstituteAll(d + x + p + Render(rest), tail, index + 1, params);
        d + x + p + Fill(rest, params, index + 1);
        { SeqAssoc4(d, x, p, Fill(rest, params, index + 1)); }
        d + Fill(t, params, index);
      }
  }

  /** After the first block's pass, the text before the rest of the
      template is still inert towards the remaining blocks. */
  lemma InertAfter(d: string, x: string, b: Block, rest: Template, index: nat, params: Values)
    requires WellFormed(Seg(x, b, rest)) && PlainValues(params)
    requires Inert(d, TemplateBlocks(Seg(x, b, rest)))
    ensures Inert(d + x + Piece(b, index, params), TemplateBlocks(rest))
  {
    var bs := TemplateBlocks(rest);
    BlocksValid(rest);
    InertRest(d, x, b, rest);
    var v := Supplied(params, b);
    var value := if v.Some? then v.value else "";
    if v.Some? {
      SuppliedPlain(params, b);
    }
    NoOpenInert(value, bs);
    var p := Piece(b, index, params);
    if p == "" {
      NoOpenInert("", bs);
      InertStep(d, x, "", bs);
      EmptyCat(d + x);
    } else {
      assert p == b.pre + value;
      assert NoOpen(x + b.pre);
      InertStep(d, x + b.pre, value, bs);
      assert d + (x + b.pre) + value == d + x + p;
    }
  }

  /** Reverse routing on a stored pattern that is a well-formed template
      with distinct clean blocks, for a base path and values without '[':
      the result is the base path followed by the template with every block
      replaced in place. */
  lemma GenerateTemplate<T>(r: Router<T>, name: string, params: Values, t: Template)
    requires name in r.named && r.named[name] == Render(t)
    requires WellFormed(t) && Clean(t) && DistinctSlots(t)
    requires NoOpen(r.basePath) && PlainValues(params)
    ensures Generate(r, name, params) == Success(r.basePath + Fill(t, params, 0))
  {
    PatternOfTemplate(t);
    NoOpenInert(r.basePath, TemplateBlocks(t));
    SubstituteTemplate(r.basePath, t, 0, params);
  }

  /** A stored pattern without '[' holds no placeholder, so the result is
      the base path and the pattern unchanged. */
  lemma GeneratePlain<T>(r: Router<T>, name: string, params: Values)
    requires name in r.named && NoOpen(r.named[name])
    ensures Generate(r, name, params) == Success(r.basePath + r.named[name])
  {
    PatternOfTemplate(Tail(r.named[name]));
  }

  /** Reverse routing "/users/[i:id]" under the base path "/api": the value
      goes after the separator, and without one only the bracket goes. */
  lemma GenerateUsersRoute<T>(r: Router<T>)
    requires "users" in r.named && r.named["users"] == "/users/[i:id]" && r.basePath == "/api"
    ensures Generate(r, "users", [(Str("id"), Some("5"))]) == Success("/api/users/5")
    ensures Generate(r, "users", []) == Success("/api/users/")
  {
    var b := Block("/", "i", true, "id", false);
    var t := Seg("/users", b, Tail(""));
    var given: Values := [(Str("id"), Some("5"))];
    UsersFill(b, t, given);
    UsersGenerate(r, b, t, given);
    UsersGenerate(r, b, t, []);
  }

  lemma UsersGenerate<T>(r: Router<T>, b: Block, t: Template, params: Values)
    requires b == Block("/", "i", true, "id", false) && t == Seg("/users", b, Tail(""))
    requires "users" in r.named && r.named["users"] == "/users/[i:id]" && r.basePath == "/api"
    requires PlainValues(params)
    ensures Generate(r, "users", params) == Success("/api" + Fill(t, params, 0))
  {
    UsersTemplate(b, t);
    GenerateTemplate(r, "users", params, t);
  }

  lemma UsersFill(b: Block, t: Template, given: Values)
    requires b == Block("/", "i", true, "id", false) && t == Seg("/users", b, Tail(""))
    requires given == [(Str("id"), Some("5"))]
    ensures PlainValues(given)
    ensures "/api" + Fill(t, given, 0) == "/api/users/5" && "/api" + Fill(t, [], 0) == "/api/users/"
  {
    assert NormalizeKey("id") == Str("id") by {
      assert !IsDigit('i');
    }
    FindAt(given, 0);
    assert Piece(b, 0, given) == "/" + "5";
    assert Piece(b, 0, []) == "/";
    assert "/users" + "/5" + "" == "/users/5";
    assert "/users" + "/" + "" == "/users/";
    assert "/api" + "/users/5" == "/api/users/5";
    assert "/api" + "/users/" == "/api/users/";
  }
}
