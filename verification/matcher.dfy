/** Route matching: match() tries the mapped routes in order against the
    request path and method, and the first that matches yields its target,
    its name and the named parameters, which are also handed to the request
    store. The regex engine is a parameter of the model. */
module Matcher {
  import opened Wrappers
  import opened PhpString
  import opened PhpArray
  import opened Placeholders
  import opened Substitution
  import opened Sequences
  import opened RouteTable
  import opened RouteCompiler
  import opened RequestParams

  /** preg_match: for a regex and a subject, the groups of the first match,
      numbered and named as PHP fills $matches, or None when there is none. */
  type Engine = (string, string) -> Option<Params>

  /** The part of the request URL that routes are matched against: as many
      characters as the base path has are cut from the front (without
      comparing them), then everything from the first '?' on. */
  function RequestPath(basePath: string, url: string): (p: string)
    ensures '?' !in p
    ensures |basePath| <= |url| ==> StartsWith(url[|basePath|..], p)
    ensures |basePath| <= |url| && '?' !in url[|basePath|..] ==> p == url[|basePath|..]
    ensures |basePath| >= |url| ==> p == ""
  {
    var u := Substr(url, |basePath|, None);
    match Strpos(u, '?')
    case None => u
    case Some(i) => Substr(u, 0, Some(i))
  }

  /** stripos($methods, $requestMethod) !== false: the request method, in
      any letter case, is a substring of the route's method list. */
  predicate MethodAllowed(methods: string, verb: string) {
    Stripos(methods, verb).Some?
  }

  /** One route of the loop: the groups it matched, or None when the loop
      goes on to the next route. A match that is not a regex match leaves
      the groups empty. */
  function TryRoute<T>(route: Route<T>, path: string, verb: string, types: Array<string>, engine: Engine): Option<Params> {
    var pattern := route.pattern;
    if !MethodAllowed(route.methods, verb) then None
    else if pattern == "*" then Some([])
    else if |pattern| > 0 && pattern[0] == '@' then engine("`" + pattern[1..] + "`u", path)
    else match Strpos(pattern, '[')
      case None => if path == pattern then Some([]) else None
      case Some(pos) =>
        if StartsWith(path, pattern[..pos]) then engine(Compile(pattern, types), path) else None
  }

  /** A route whose method list does not hold the request method is
      passed over, whatever its pattern. */
  lemma MethodFilter<T>(route: Route<T>, path: string, verb: string, types: Array<string>, engine: Engine)
    requires !MethodAllowed(route.methods, verb)
    ensures TryRoute(route, path, verb, types, engine) == None
  {
  }

  /** The first route from index `i` on that matches, with its groups. */
  function FirstMatch<T>(routes: seq<Route<T>>, i: nat, path: string, verb: string, types: Array<string>, engine: Engine): (r: Option<(nat, Params)>)
    requires i <= |routes|
    ensures r.Some? ==> i <= r.value.0 < |routes|
                        && TryRoute(routes[r.value.0], path, verb, types, engine) == Some(r.value.1)
                        && forall j | i <= j < r.value.0 :: TryRoute(routes[j], path, verb, types, engine).None?
    ensures r.None? ==> forall j | i <= j < |routes| :: TryRoute(routes[j], path, verb, types, engine).None?
    decreases |routes| - i
  {
    if i == |routes| then None
    else
      var hit := TryRoute(routes[i], path, verb, types, engine);
      if hit.Some? then Some((i, hit.value)) else FirstMatch(routes, i + 1, path, verb, types, engine)
  }

  /** `r` lists its entries in the order they have in `g`. */
  predicate InOrder<X(==)>(r: seq<X>, g: seq<X>) {
    forall i, j | 0 <= i < j < |r| :: PairInOrder(r, g, i, j)
  }

  /** The `i`-th and `j`-th entries of `r` occur in `g`, in that order. */
  predicate PairInOrder<X(==)>(r: seq<X>, g: seq<X>, i: int, j: int)
    requires 0 <= i < j < |r|
  {
    exists i', j' | 0 <= i' < j' < |g| :: g[i'] == r[i] && g[j'] == r[j]
  }

  lemma InOrderSkip<X>(r: seq<X>, g: seq<X>)
    requires |g| > 0 && InOrder(r, g[1..])
    ensures InOrder(r, g)
  {
    forall i, j | 0 <= i < j < |r|
      ensures PairInOrder(r, g, i, j)
    {
      assert PairInOrder(r, g[1..], i, j);
      var a, b :| 0 <= a < b < |g[1..]| && g[1..][a] == r[i] && g[1..][b] == r[j];
      assert g[a + 1] == r[i] && g[b + 1] == r[j];
    }
  }

  lemma InOrderCons<X>(r: seq<X>, g: seq<X>)
    requires |g| > 0 && InOrder(r, g[1..])
    requires forall i | 0 <= i < |r| :: r[i] in g[1..]
    ensures InOrder([g[0]] + r, g)
  {
    var res := [g[0]] + r;
    InOrderSkip(r, g);
    forall i, j | 0 <= i < j < |res|
      ensures PairInOrder(res, g, i, j)
    {
      if i == 0 {
        assert r[j - 1] in g[1..];
        var b :| 0 <= b < |g[1..]| && g[1..][b] == r[j - 1];
        assert g[0] == res[0] && g[b + 1] == res[j];
      } else {
        assert PairInOrder(r, g, i - 1, j - 1);
        var a, b :| 0 <= a < b < |g| && g[a] == r[i - 1] && g[b] == r[j - 1];
        assert g[a] == res[i] && g[b] == res[j];
      }
    }
  }

  /** Dropping the numbered groups: only the named ones remain, with the
      same values and in the same order. */
  function StripNumeric(groups: Params): (r: Params)
    ensures forall i | 0 <= i < |r| :: r[i].0.Str?
    ensures forall e :: e in r <==> e in groups && e.0.Str?
    ensures InOrder(r, groups)
    decreases |groups|
  {
    if |groups| == 0 then []
    else
      var tail: Params := groups[1..];
      var rest := StripNumeric(tail);
      if groups[0].0.Int? then
        InOrderSkip(rest, groups);
        rest
      else
        assert forall i | 0 <= i < |rest| :: rest[i] in tail;
        InOrderCons(rest, groups);
        [groups[0]] + rest
  }

  /** Every named group keeps its value. */
  lemma StripNumericFind(groups: Params, s: string)
    ensures Find(StripNumeric(groups), Str(s)) == Find(groups, Str(s))
  {
    var r := StripNumeric(groups);
    var found := Find(groups, Str(s));
    if found.Some? {
      FindEntry(r, Str(s), found.value);
    } else if Find(r, Str(s)).Some? {
      FindEntry(groups, Str(s), Find(r, Str(s)).value);
    }
  }

  /** What match() returns on success. */
  datatype Matched<T> = Matched(target: T, params: Params, name: Option<string>)

  /** match(): the outcome and the request store afterwards. */
  function Match<T>(r: Router<T>, url: string, verb: string, engine: Engine, store: Store): (res: (Option<Matched<T>>, Store))
    ensures res.0.None? <==> forall j | 0 <= j < |r.routes| :: TryRoute(r.routes[j], RequestPath(r.basePath, url), verb, r.matchTypes, engine).None?
    ensures res.0.None? ==> res.1 == store
    ensures res.0.Some? ==> DynamicParameters(res.1) == res.0.value.params
    ensures res.0.Some? ==> forall i | 0 <= i < |res.0.value.params| :: res.0.value.params[i].0.Str?
  {
    var path := RequestPath(r.basePath, url);
    var hit := FirstMatch(r.routes, 0, path, verb, r.matchTypes, engine);
    if hit.None? then (None, store)
    else
      var route := r.routes[hit.value.0];
      var params := StripNumeric(hit.value.1);
      (Some(Matched(route.target, params, route.name)), SetDynamicParameters(store, Some(params)))
  }

  /** A successful match comes from the first route that matches: its
      target and name, and its named groups. */
  lemma MatchedFirst<T>(r: Router<T>, url: string, verb: string, engine: Engine, store: Store) returns (i: nat)
    requires Match(r, url, verb, engine, store).0.Some?
    ensures i < |r.routes|
    ensures var path := RequestPath(r.basePath, url);
            var m := Match(r, url, verb, engine, store).0.value;
            && TryRoute(r.routes[i], path, verb, r.matchTypes, engine).Some?
            && (forall j | 0 <= j < i :: TryRoute(r.routes[j], path, verb, r.matchTypes, engine).None?)
            && m.target == r.routes[i].target
            && m.name == r.routes[i].name
            && m.params == StripNumeric(TryRoute(r.routes[i], path, verb, r.matchTypes, engine).value)
  {
    var path := RequestPath(r.basePath, url);
    i := FirstMatch(r.routes, 0, path, verb, r.matchTypes, engine).value.0;
  }

  /** The request path of a URL made of the base path, a path without '?'
      and a query string. */
  lemma RequestPathOf(basePath: string, path: string, query: string)
    requires '?' !in path && (query == "" || query[0] == '?')
    ensures RequestPath(basePath, basePath + path + query) == path
  {
    var url := basePath + path + query;
    var u := url[|basePath|..];
    assert u == path + query;
    if query != "" {
      assert u[|path|] == '?';
      assert u[..|path|] == path;
    }
  }

  /** Only the length of the base path counts, not its characters. */
  lemma RequestPathLength(b1: string, b2: string, url: string)
    requires |b1| == |b2|
    ensures RequestPath(b1, url) == RequestPath(b2, url)
  {
  }

  /** Routes that are neither regexes nor patterns with placeholders never
      reach the regex engine. */
  lemma LiteralRouteIgnoresEngine<T>(route: Route<T>, path: string, verb: string, types: Array<string>, e1: Engine, e2: Engine)
    requires !(|route.pattern| > 0 && route.pattern[0] == '@') && '[' !in route.pattern
    ensures TryRoute(route, path, verb, types, e1) == TryRoute(route, path, verb, types, e2)
    ensures TryRoute(route, path, verb, types, e1).Some? <==>
              MethodAllowed(route.methods, verb) && (route.pattern == "*" || path == route.pattern)
  {
  }

  /** A route with a placeholder is only handed to the regex engine when
      the path starts with the text before its first '['. */
  lemma PrefixGuard<T>(route: Route<T>, path: string, verb: string, types: Array<string>, engine: Engine, x: string, y: string)
    requires route.pattern == x + "[" + y && '[' !in x && !(|x| > 0 && x[0] == '@')
    requires MethodAllowed(route.methods, verb)
    ensures TryRoute(route, path, verb, types, engine) ==
              if StartsWith(path, x) then engine(Compile(route.pattern, types), path) else None
  {
    var p := route.pattern;
    assert p[|x|] == '[';
    assert p[..|x|] == x;
    if |x| == 0 {
      assert p[0] == '[';
    } else {
      assert p[0] == x[0];
    }
  }

  /** A template route is its literal prefix, then the first '['. */
  lemma TemplatePrefix(t: Template) returns (y: string)
    requires t.Seg? && WellFormed(t)
    ensures Render(t) == t.text + t.block.pre + "[" + y
    ensures '[' !in t.text + t.block.pre
    ensures |t.text| == 0 ==> !(|t.block.pre| > 0 && t.block.pre[0] == '@')
  {
    var b := t.block;
    var after := b.typ + (if b.colon then ":" + b.name else "") + "]" + (if b.optional then "?" else "");
    y := after + Render(t.rest);
    TextAfterOpen(b, after);
    SeqRegroup5(t.text, b.pre, "[", after, Render(t.rest));
    NoOpenCat(t.text, b.pre);
  }

  lemma TextAfterOpen(b: Block, after: string)
    requires after == b.typ + (if b.colon then ":" + b.name else "") + "]" + (if b.optional then "?" else "")
    ensures Text(b) == b.pre + "[" + after
  {
  }

  /** Matching a template route: after the prefix check, the engine gets
      the template's fragments in place between the anchors. */
  lemma TemplateRoute<T>(route: Route<T>, t: Template, path: string, verb: string, types: Array<string>, engine: Engine)
    requires t.Seg? && route.pattern == Render(t) && !(|t.text| > 0 && t.text[0] == '@')
    requires WellFormed(t) && Clean(t) && DistinctSlots(t) && FragmentsInert(t, types)
    requires MethodAllowed(route.methods, verb)
    ensures TryRoute(route, path, verb, types, engine) ==
              if StartsWith(path, t.text + t.block.pre)
              then engine(RegexHead + FillFragments(t, types) + RegexTail, path)
              else None
  {
    var x := t.text + t.block.pre;
    var y := TemplatePrefix(t);
    assert !(|x| > 0 && x[0] == '@') by {
      if |t.text| == 0 {
        assert x == t.block.pre;
      } else {
        assert x[0] == t.text[0];
      }
    }
    PrefixGuard(route, path, verb, types, engine, x, y);
    CompileTemplate(t, types);
  }
}
