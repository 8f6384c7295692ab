/** The router's tables: the ordered list of mapped routes, the index from
    route names to patterns, the base path and the named match types, and
    the operations that fill them: map, addRoutes, setBasePath,
    addMatchTypes and the constructor. */
module RouteTable {
  import opened Wrappers
  import opened PhpArray
  import opened Sequences

  /** One mapped route: the method list, the stored pattern (root path
      already prepended), the target, which the router never inspects, and
      the optional name. */
  datatype Route<T> = Route(methods: string, pattern: string, target: T, name: Option<string>)

  /** The RouterException cases. */
  datatype RouterError = DuplicateRoute(name: string) | RouteNotFound(name: string)

  /** The router's state. The name index is a map: PHP turns a name that
      spells an integer into an integer key, but distinct names still give
      distinct keys, so lookups agree. */
  datatype Router<T> = Router(routes: seq<Route<T>>, named: map<string, string>, basePath: string, matchTypes: Array<string>)

  /** The match types every router starts with. */
  const DefaultMatchTypes: Array<string> := [
    (Str("i"), "[0-9]++"),
    (Str("a"), "[0-9A-Za-z]++"),
    (Str("h"), "[0-9A-Fa-f]++"),
    (Str("*"), ".+?"),
    (Str("**"), ".++"),
    (Str(""), "[^/\\.]++")
  ]

  function EmptyRouter<T>(): Router<T> {
    Router([], map[], "", DefaultMatchTypes)
  }

  /** PHP truthiness of a name: null, "" and "0" are false. */
  predicate TruthyName(name: Option<string>) {
    name.Some? && name.value != "" && name.value != "0"
  }

  /** `k` is the first route of the list carrying the name `n`. */
  predicate FirstNamedAt<T>(routes: seq<Route<T>>, n: string, k: nat) {
    && k < |routes|
    && routes[k].name == Some(n)
    && forall j | 0 <= j < k :: routes[j].name != Some(n)
  }

  /** The name index agrees with the route list: it holds exactly the truthy
      names of the routes, each with the pattern of the first route mapped
      under that name. */
  predicate Indexed<T>(r: Router<T>) {
    && (forall n | n in r.named ::
          TruthyName(Some(n)) && exists k | 0 <= k < |r.routes| :: FirstNamedAt(r.routes, n, k) && r.named[n] == r.routes[k].pattern)
    && (forall k | 0 <= k < |r.routes| :: TruthyName(r.routes[k].name) ==> r.routes[k].name.value in r.named)
  }

  lemma EmptyIndexed<T>()
    ensures Indexed(EmptyRouter<T>())
  {
  }

  /** map(): the route is appended with the root path in front of its
      pattern; then a truthy name already in the index raises, leaving the
      appended route in place, and a new truthy name is indexed. */
  function MapRoute<T>(r: Router<T>, root: string, methods: string, route: string, target: T, name: Option<string>)
    : (res: (Router<T>, Option<RouterError>))
    ensures res.0.routes == r.routes + [Route(methods, root + route, target, name)]
    ensures res.0.basePath == r.basePath && res.0.matchTypes == r.matchTypes
    ensures res.1.Some? <==> TruthyName(name) && name.value in r.named
    ensures res.1.Some? ==> res.1.value == DuplicateRoute(name.value) && res.0.named == r.named
    ensures res.1.None? && TruthyName(name) ==> res.0.named == r.named[name.value := root + route]
    ensures !TruthyName(name) ==> res.0.named == r.named
  {
    var stored := r.(routes := r.routes + [Route(methods, root + route, target, name)]);
    if !TruthyName(name) then (stored, None)
    else if name.value in r.named then (stored, Some(DuplicateRoute(name.value)))
    else (stored.(named := r.named[name.value := root + route]), None)
  }

  /** Mapping a route keeps the index in step with the route list, whether
      or not it raises: a duplicate leaves the first registration indexed. */
  lemma MapIndexed<T>(r: Router<T>, root: string, methods: string, route: string, target: T, name: Option<string>)
    requires Indexed(r)
    ensures Indexed(MapRoute(r, root, methods, route, target, name).0)
  {
    var r' := MapRoute(r, root, methods, route, target, name).0;
    var e := Route(methods, root + route, target, name);
    assert r'.routes == r.routes + [e];
    forall n | n in r'.named
      ensures TruthyName(Some(n)) && exists k | 0 <= k < |r'.routes| :: FirstNamedAt(r'.routes, n, k) && r'.named[n] == r'.routes[k].pattern
    {
      if n in r.named {
        var k :| 0 <= k < |r.routes| && FirstNamedAt(r.routes, n, k) && r.named[n] == r.routes[k].pattern;
        assert r'.routes[k] == r.routes[k];
        assert FirstNamedAt(r'.routes, n, k);
      } else {
        var k := |r.routes|;
        forall j | 0 <= j < k
          ensures r'.routes[j].name != Some(n)
        {
          assert r'.routes[j] == r.routes[j];
          if TruthyName(r.routes[j].name) {
            assert r.routes[j].name.value in r.named;
          }
        }
        assert FirstNamedAt(r'.routes, n, k);
      }
    }
  }

  /** The routes a list of definitions adds, root path prepended. */
  function Registered<T>(root: string, defs: seq<Route<T>>): (rs: seq<Route<T>>)
    ensures |rs| == |defs|
    ensures forall k | 0 <= k < |defs| :: rs[k] == defs[k].(pattern := root + defs[k].pattern)
  {
    seq(|defs|, k requires 0 <= k < |defs| => defs[k].(pattern := root + defs[k].pattern))
  }

  /** The definition at index `i` redeclares a name: one already indexed or
      one given to an earlier definition. */
  predicate ClashAt<T>(named: map<string, string>, defs: seq<Route<T>>, i: nat)
    requires i < |defs|
  {
    && TruthyName(defs[i].name)
    && (defs[i].name.value in named || exists j | 0 <= j < i :: defs[j].name == defs[i].name)
  }

  predicate Clash<T>(named: map<string, string>, defs: seq<Route<T>>) {
    exists i | 0 <= i < |defs| :: ClashAt(named, defs, i)
  }

  /** addRoutes(): map() for each definition in order, stopping at the first
      exception. */
  function AddRoutes<T>(r: Router<T>, root: string, defs: seq<Route<T>>): (res: (Router<T>, Option<RouterError>))
    decreases |defs|
  {
    if |defs| == 0 then (r, None)
    else
      var d := defs[0];
      var step := MapRoute(r, root, d.methods, d.pattern, d.target, d.name);
      if step.1.Some? then step else AddRoutes(step.0, root, defs[1..])
  }

  /** The names the definitions add to an index, for definitions without a
      clash. */
  function NamesOf<T>(named: map<string, string>, root: string, defs: seq<Route<T>>): map<string, string>
    decreases |defs|
  {
    if |defs| == 0 then named
    else
      var d := defs[0];
      NamesOf(if TruthyName(d.name) then named[d.name.value := root + d.pattern] else named, root, defs[1..])
  }

  lemma ClashCons<T>(named: map<string, string>, root: string, defs: seq<Route<T>>)
    requires |defs| > 0 && !ClashAt(named, defs, 0)
    ensures var d := defs[0];
            var named' := if TruthyName(d.name) then named[d.name.value := root + d.pattern] else named;
            Clash(named, defs) <==> Clash(named', defs[1..])
  {
    var d := defs[0];
    var named' := if TruthyName(d.name) then named[d.name.value := root + d.pattern] else named;
    var tl := defs[1..];
    if Clash(named, defs) {
      var i :| 0 <= i < |defs| && ClashAt(named, defs, i);
      assert i > 0;
      assert tl[i - 1] == defs[i];
      if defs[i].name.value in named {
        assert ClashAt(named', tl, i - 1);
      } else {
        var j :| 0 <= j < i && defs[j].name == defs[i].name;
        if j == 0 {
          assert ClashAt(named', tl, i - 1);
        } else {
          assert tl[j - 1] == defs[j];
          assert ClashAt(named', tl, i - 1);
        }
      }
    }
    if Clash(named', tl) {
      var i :| 0 <= i < |tl| && ClashAt(named', tl, i);
      assert tl[i] == defs[i + 1];
      if tl[i].name.value in named' {
        if tl[i].name.value in named {
          assert ClashAt(named, defs, i + 1);
        } else {
          assert defs[0].name == defs[i + 1].name;
          assert ClashAt(named, defs, i + 1);
        }
      } else {
        var j :| 0 <= j < i && tl[j].name == tl[i].name;
        assert tl[j] == defs[j + 1];
        assert ClashAt(named, defs, i + 1);
      }
    }
  }

  /** addRoutes raises exactly when some definition redeclares a name. */
  lemma {:induction false} AddRoutesFails<T>(r: Router<T>, root: string, defs: seq<Route<T>>)
    ensures AddRoutes(r, root, defs).1.Some? <==> Clash(r.named, defs)
    decreases |defs|
  {
    if |defs| > 0 {
      var d := defs[0];
      var step := MapRoute(r, root, d.methods, d.pattern, d.target, d.name);
      if step.1.Some? {
        assert ClashAt(r.named, defs, 0);
      } else {
        ClashCons(r.named, root, defs);
        AddRoutesFails(step.0, root, defs[1..]);
      }
    } else {
      assert !Clash(r.named, defs);
    }
  }

  /** Without an exception, every definition is appended in order, its name
      indexed, and nothing else changes. */
  lemma {:induction false} AddRoutesSucceeds<T>(r: Router<T>, root: string, defs: seq<Route<T>>)
    requires AddRoutes(r, root, defs).1.None?
    ensures var r' := AddRoutes(r, root, defs).0;
            && r'.routes == r.routes + Registered(root, defs)
            && r'.named == NamesOf(r.named, root, defs)
            && r'.basePath == r.basePath && r'.matchTypes == r.matchTypes
    decreases |defs|
  {
    if |defs| > 0 {
      var d := defs[0];
      var step := MapRoute(r, root, d.methods, d.pattern, d.target, d.name);
      AddRoutesSucceeds(step.0, root, defs[1..]);
      assert Registered(root, defs) == [d.(pattern := root + d.pattern)] + Registered(root, defs[1..]);
    }
  }

  /** On an exception, the error names the first definition that clashes,
      and the definitions up to and including it have been appended. */
  lemma AddRoutesStops<T>(r: Router<T>, root: string, defs: seq<Route<T>>) returns (i: nat)
    requires AddRoutes(r, root, defs).1.Some?
    ensures i < |defs| && ClashAt(r.named, defs, i)
    ensures forall j | 0 <= j < i :: !ClashAt(r.named, defs, j)
    ensures AddRoutes(r, root, defs).1.value == DuplicateRoute(defs[i].name.value)
    ensures AddRoutes(r, root, defs).0.routes == r.routes + Registered(root, defs[..i + 1])
  {
    i := StopIndex(r, root, defs);
    StopRoutes(r, root, defs, i);
  }

  /** The index of the definition that raises: the first that clashes. */
  lemma {:induction false} StopIndex<T>(r: Router<T>, root: string, defs: seq<Route<T>>) returns (i: nat)
    requires AddRoutes(r, root, defs).1.Some?
    ensures i < |defs| && ClashAt(r.named, defs, i)
    ensures forall j | 0 <= j < i :: !ClashAt(r.named, defs, j)
    ensures AddRoutes(r, root, defs).1.value == DuplicateRoute(defs[i].name.value)
    decreases |defs|
  {
    var d := defs[0];
    var step := MapRoute(r, root, d.methods, d.pattern, d.target, d.name);
    if step.1.Some? {
      i := 0;
    } else {
      var i' := StopIndex(step.0, root, defs[1..]);
      i := i' + 1;
      FirstClash(r.named, root, defs, i);
      NoClashBefore(r, root, defs, i);
    }
  }

  /** Up to the first clash, every definition has been appended. */
  lemma {:induction false} StopRoutes<T>(r: Router<T>, root: string, defs: seq<Route<T>>, i: nat)
    requires i < |defs| && ClashAt(r.named, defs, i)
    requires forall j | 0 <= j < i :: !ClashAt(r.named, defs, j)
    ensures AddRoutes(r, root, defs).0.routes == r.routes + Registered(root, defs[..i + 1])
    decreases |defs|
  {
    var d := defs[0];
    var step := MapRoute(r, root, d.methods, d.pattern, d.target, d.name);
    if i == 0 {
      assert Registered(root, defs[..1]) == [d.(pattern := root + d.pattern)];
    } else {
      assert !ClashAt(r.named, defs, 0);
      var tl := defs[1..];
      LaterClash(r.named, root, defs, i);
      NoClashTail(r, root, defs, i);
      StopRoutes(step.0, root, tl, i - 1);
      RegisteredCons(root, defs, i - 1);
      SeqAssoc(r.routes, [d.(pattern := root + d.pattern)], Registered(root, tl[..i]));
    }
  }

  /** Conversely, no definition of the tail clashes before `i - 1` against
      the head's index when none of the list clashes before `i`. */
  lemma NoClashTail<T>(r: Router<T>, root: string, defs: seq<Route<T>>, i: nat)
    requires 0 < i < |defs| && forall j | 0 <= j < i :: !ClashAt(r.named, defs, j)
    ensures var step := MapRoute(r, root, defs[0].methods, defs[0].pattern, defs[0].target, defs[0].name);
            forall j | 0 <= j < i - 1 :: !ClashAt(step.0.named, defs[1..], j)
  {
    var step := MapRoute(r, root, defs[0].methods, defs[0].pattern, defs[0].target, defs[0].name);
    assert !ClashAt(r.named, defs, 0);
    forall j | 0 <= j < i - 1
      ensures !ClashAt(step.0.named, defs[1..], j)
    {
      if ClashAt(step.0.named, defs[1..], j) {
        FirstClash(r.named, root, defs, j + 1);
      }
    }
  }

  /** No definition clashes before index `i` when the head does not and
      the tail has no clash before `i - 1` against the head's index. */
  lemma NoClashBefore<T>(r: Router<T>, root: string, defs: seq<Route<T>>, i: nat)
    requires 0 < i < |defs|
    requires MapRoute(r, root, defs[0].methods, defs[0].pattern, defs[0].target, defs[0].name).1.None?
    requires var step := MapRoute(r, root, defs[0].methods, defs[0].pattern, defs[0].target, defs[0].name);
             forall j | 0 <= j < i - 1 :: !ClashAt(step.0.named, defs[1..], j)
    ensures forall j | 0 <= j < i :: !ClashAt(r.named, defs, j)
  {
    forall j | 0 <= j < i
      ensures !ClashAt(r.named, defs, j)
    {
      if j == 0 {
        assert !ClashAt(r.named, defs, 0);
      } else if ClashAt(r.named, defs, j) {
        LaterClash(r.named, root, defs, j);
        assert false;
      }
    }
  }

  lemma RegisteredCons<T>(root: string, defs: seq<Route<T>>, k: nat)
    requires k + 1 < |defs|
    ensures Registered(root, defs[..k + 2]) == [defs[0].(pattern := root + defs[0].pattern)] + Registered(root, defs[1..][..k + 1])
  {
    assert defs[..k + 2] == [defs[0]] + defs[1..][..k + 1];
  }

  /** A clash of the whole list after a head that does not clash is a
      clash of the tail one index earlier. */
  lemma LaterClash<T>(named: map<string, string>, root: string, defs: seq<Route<T>>, i: nat)
    requires 0 < i < |defs| && !ClashAt(named, defs, 0) && ClashAt(named, defs, i)
    ensures var d := defs[0];
            ClashAt(if TruthyName(d.name) then named[d.name.value := root + d.pattern] else named, defs[1..], i - 1)
  {
    var tl := defs[1..];
    assert tl[i - 1] == defs[i];
    if defs[i].name.value !in named {
      var j :| 0 <= j < i && defs[j].name == defs[i].name;
      if j > 0 {
        assert tl[j - 1] == defs[j];
      }
    }
  }

  /** A clash in the tail, after a head that adds its name, is a clash of
      the whole list one index later. */
  lemma FirstClash<T>(named: map<string, string>, root: string, defs: seq<Route<T>>, i: nat)
    requires 0 < i < |defs| && !ClashAt(named, defs, 0)
    requires var d := defs[0];
             ClashAt(if TruthyName(d.name) then named[d.name.value := root + d.pattern] else named, defs[1..], i - 1)
    ensures ClashAt(named, defs, i)
  {
    var tl := defs[1..];
    assert tl[i - 1] == defs[i];
    var named' := if TruthyName(defs[0].name) then named[defs[0].name.value := root + defs[0].pattern] else named;
    if defs[i].name.value in named' && defs[i].name.value !in named {
      assert defs[0].name == defs[i].name;
    } else if defs[i].name.value !in named' {
      var j :| 0 <= j < i - 1 && tl[j].name == tl[i - 1].name;
      assert tl[j] == defs[j + 1];
    }
  }

  /** addRoutes keeps the index in step with the route list. */
  lemma {:induction false} AddRoutesIndexed<T>(r: Router<T>, root: string, defs: seq<Route<T>>)
    requires Indexed(r)
    ensures Indexed(AddRoutes(r, root, defs).0)
    decreases |defs|
  {
    if |defs| > 0 {
      var d := defs[0];
      MapIndexed(r, root, d.methods, d.pattern, d.target, d.name);
      var step := MapRoute(r, root, d.methods, d.pattern, d.target, d.name);
      if step.1.None? {
        AddRoutesIndexed(step.0, root, defs[1..]);
      }
    }
  }

  /** setBasePath(): only the base path changes. */
  function SetBasePath<T>(r: Router<T>, basePath: string): (r': Router<T>)
    ensures r'.basePath == basePath
    ensures r'.routes == r.routes && r'.named == r.named && r'.matchTypes == r.matchTypes
    ensures Indexed(r) ==> Indexed(r')
  {
    r.(basePath := basePath)
  }

  /** addMatchTypes(): array_merge of the current types with the new ones. */
  function AddMatchTypes<T>(r: Router<T>, types: Array<string>): (r': Router<T>)
    ensures r'.routes == r.routes && r'.named == r.named && r'.basePath == r.basePath
    ensures Renumbered(r'.matchTypes)
  {
    r.(matchTypes := Merge([r.matchTypes, types]))
  }

  /** A type named by a string is overridden by the new types, and kept
      when they do not name it. */
  lemma AddMatchTypesNamed<T>(r: Router<T>, types: Array<string>, name: string)
    ensures Find(AddMatchTypes(r, types).matchTypes, Str(name)) ==
              if HasKey(types, Str(name)) then Find(types, Str(name)) else Find(r.matchTypes, Str(name))
  {
    Merge2(r.matchTypes, types);
    MergeIntoStr([], r.matchTypes, name);
    MergeIntoStr(MergeInto([], r.matchTypes), types, name);
  }

  /** Types under integer keys are never overridden: all are kept, the old
      ones first, and renumbered from 0. */
  lemma AddMatchTypesNumbered<T>(r: Router<T>, types: Array<string>)
    ensures IntValues(AddMatchTypes(r, types).matchTypes) == IntValues(r.matchTypes) + IntValues(types)
    ensures IntEntries(AddMatchTypes(r, types).matchTypes) == Numbered(IntValues(r.matchTypes) + IntValues(types), 0)
  {
    var m := AddMatchTypes(r, types).matchTypes;
    MergeTwoInts(r.matchTypes, types);
    RenumberedEntries(m);
  }

  /** array_merge of two arrays keeps the integer-keyed values of both. */
  lemma MergeTwoInts<V>(a: Array<V>, b: Array<V>)
    ensures IntValues(Merge([a, b])) == IntValues(a) + IntValues(b)
  {
    Merge2(a, b);
    var m1 := MergeInto([], a);
    MergeIntoInts([], a);
    var e: seq<V> := IntValues([]);
    assert e == [];
    assert e + IntValues(a) == IntValues(a);
    MergeIntoInts(m1, b);
  }

  lemma AddRoutesFromEmpty<T>(root: string, defs: seq<Route<T>>)
    ensures var added := AddRoutes(EmptyRouter<T>(), root, defs);
            && (added.1.Some? <==> Clash(map[], defs))
            && Indexed(added.0)
            && (added.1.None? ==> added.0.routes == Registered(root, defs) && added.0.matchTypes == DefaultMatchTypes)
  {
    AddRoutesFails(EmptyRouter<T>(), root, defs);
    EmptyIndexed<T>();
    AddRoutesIndexed(EmptyRouter<T>(), root, defs);
    if AddRoutes(EmptyRouter<T>(), root, defs).1.None? {
      AddRoutesSucceeds(EmptyRouter<T>(), root, defs);
    }
  }

  /** The constructor: addRoutes, then setBasePath, then addMatchTypes; an
      exception from addRoutes means no router. */
  function NewRouter<T>(root: string, defs: seq<Route<T>>, basePath: string, types: Array<string>)
    : (res: Result<Router<T>, RouterError>)
    ensures res.Failure? <==> Clash(map[], defs)
    ensures res.Success? ==> && Indexed(res.value)
                             && res.value.routes == Registered(root, defs)
                             && res.value.basePath == basePath
                             && res.value.matchTypes == Merge([DefaultMatchTypes, types])
  {
    var added := AddRoutes(EmptyRouter(), root, defs);
    AddRoutesFromEmpty<T>(root, defs);
    if added.1.Some? then Failure(added.1.value)
    else Success(AddMatchTypes(SetBasePath(added.0, basePath), types))
  }
}
