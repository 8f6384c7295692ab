/** Request parameter lookup: the GET and POST arrays (given here as
    inputs instead of superglobals) and the request-scoped store of
    parameters the router extracted from the path. */
module RequestParams {
  import opened Wrappers
  import opened PhpArray

  /** A parameter array; a value may be null. */
  type Params = Array<Option<string>>

  /** The static definedDynamicParameters field: None while unset or null. */
  type Store = Option<Params>

  /** isset($a[$name]) ? $a[$name] : null, as getGetParameter and
      getPostParameter read their superglobal. */
  function Get(a: Params, name: string): (r: Option<string>)
    ensures r.Some? ==> (NormalizeKey(name), Some(r.value)) in a
    ensures r.None? ==> forall v | (NormalizeKey(name), v) in a :: v == None
    ensures forall v | (NormalizeKey(name), Some(v)) in a :: r == Some(v)
  {
    var r := NonNull(a, NormalizeKey(name));
    assert forall v | (NormalizeKey(name), Some(v)) in a :: r == Some(v) by {
      forall v | (NormalizeKey(name), Some(v)) in a ensures r == Some(v) {
        FindEntry(a, NormalizeKey(name), Some(v));
      }
    }
    assert r.None? ==> forall v | (NormalizeKey(name), v) in a :: v == None by {
      if r.None? {
        forall v | (NormalizeKey(name), v) in a ensures v == None {
          var i :| 0 <= i < |a| && a[i] == (NormalizeKey(name), v);
          FindAt(a, i);
        }
      }
    }
    r
  }

  /** getDefinedDynamicParameters: the stored array, or the empty array
      while nothing (or null) is stored. */
  function DynamicParameters(store: Store): (r: Params)
    ensures store.None? ==> r == []
    ensures store.Some? ==> r == store.value
  {
    if store.None? then [] else store.value
  }

  /** setDefinedDynamicParameters: the new array replaces whatever was
      stored; afterwards the getter returns exactly that array. */
  function SetDynamicParameters(previous: Store, params: Option<Params>): (s: Store)
    ensures DynamicParameters(s) == if params.Some? then params.value else []
  {
    params
  }

  /** getDefinedDynamicParameter. */
  function DynamicParameter(store: Store, name: string): (r: Option<string>)
    ensures store.None? ==> r == None
    ensures r.Some? ==> store.Some? && (NormalizeKey(name), Some(r.value)) in store.value
    ensures store.Some? ==> forall v | (NormalizeKey(name), Some(v)) in store.value :: r == Some(v)
  {
    Get(DynamicParameters(store), name)
  }

  /** getParameter: GET first, then POST, then the dynamic store. The third
      guard `isset(...) !== null` always holds, so the store is read
      directly, which gives null for a missing key just as isset would. */
  function Parameter(get: Params, post: Params, store: Store, name: string): (r: Option<string>)
    ensures Get(get, name).Some? ==> r == Get(get, name)
    ensures Get(get, name).None? && Get(post, name).Some? ==> r == Get(post, name)
    ensures Get(get, name).None? && Get(post, name).None? ==> r == DynamicParameter(store, name)
    ensures r.None? <==> Get(get, name).None? && Get(post, name).None? && DynamicParameter(store, name).None?
  {
    if Get(get, name).Some? then Get(get, name)
    else if Get(post, name).Some? then Get(post, name)
    else
      var raw := Find(DynamicParameters(store), NormalizeKey(name));
      if raw.Some? then raw.value else None
  }

  /** getParameters: array_merge(GET, POST, dynamic). */
  function Parameters(get: Params, post: Params, store: Store): (r: Params)
    ensures Renumbered(r)
  {
    Merge([get, post, DynamicParameters(store)])
  }

  /** Every string key of the three arrays is present in the merge, and the
      dynamic store overrides POST, which overrides GET. */
  lemma ParametersStringKeys(get: Params, post: Params, store: Store, s: string)
    ensures var r := Find(Parameters(get, post, store), Str(s));
            var dyn := DynamicParameters(store);
            r == if HasKey(dyn, Str(s)) then Find(dyn, Str(s))
                 else if HasKey(post, Str(s)) then Find(post, Str(s))
                 else Find(get, Str(s))
  {
    var dyn := DynamicParameters(store);
    Merge3(get, post, dyn);
    var m1 := MergeInto([], get);
    var m2 := MergeInto(m1, post);
    MergeIntoStr([], get, s);
    MergeIntoStr(m1, post, s);
    MergeIntoStr(m2, dyn, s);
  }

  /** Integer-keyed values are all kept, GET's first, then POST's, then the
      store's, renumbered 0, 1, 2, ... */
  lemma ParametersIntKeys(get: Params, post: Params, store: Store)
    ensures IntValues(Parameters(get, post, store)) ==
              IntValues(get) + IntValues(post) + IntValues(DynamicParameters(store))
    ensures IntEntries(Parameters(get, post, store)) == Numbered(IntValues(Parameters(get, post, store)), 0)
  {
    var dyn := DynamicParameters(store);
    Merge3(get, post, dyn);
    var m1 := MergeInto([], get);
    var m2 := MergeInto(m1, post);
    var m3 := MergeInto(m2, dyn);
    MergeIntoInts([], get);
    MergeIntoInts(m1, post);
    MergeIntoInts(m2, dyn);
    assert IntValues(m1) == IntValues(get);
    assert IntValues(m2) == IntValues(get) + IntValues(post);
    assert IntValues(m3) == IntValues(get) + IntValues(post) + IntValues(dyn);
    RenumberedEntries(m3);
  }

  /** getParameter and getParameters disagree on precedence: a name set in
      both GET and the store is read from GET by the one and from the store
      by the other. */
  lemma PrecedenceDiffers()
    ensures var get: Params := [(Str("id"), Some("1"))];
            var store: Store := Some([(Str("id"), Some("2"))]);
            Parameter(get, [], store, "id") == Some("1") &&
            Find(Parameters(get, [], store), Str("id")) == Some(Some("2"))
  {
    var get: Params := [(Str("id"), Some("1"))];
    var store: Store := Some([(Str("id"), Some("2"))]);
    assert NormalizeKey("id") == Str("id") by {
      assert !IsCanonicalInt("id") by { assert !IsDigit('i'); }
    }
    assert get[0] == (Str("id"), Some("1"));
    ParametersStringKeys(get, [], store, "id");
    assert HasKey(DynamicParameters(store), Str("id")) by {
      assert DynamicParameters(store)[0].0 == Str("id");
    }
  }
}
