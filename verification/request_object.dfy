/** The Request data object and its two array encodings: a verbose one
    keyed by field names and a compact one keyed by the integers 1 to 5. */
module RequestObject {
  import opened Wrappers
  import opened PhpArray

  /** A PHP value as far as this object is concerned. */
  datatype Value = Null | Text(s: string) | List(items: seq<(Key, Value)>)

  /** A freshly constructed object has every field null. */
  datatype Request = Request(
    clientIp: Value,
    apiVersion: Value,
    methodName: Value,
    parameters: Value,
    requestMethod: Value)

  const Blank := Request(Null, Null, Null, Null, Null)

  /** The compact and the verbose key of each field, in field order. */
  const ClientIpKeys := (Int(1), Str("client_ip"))
  const ApiVersionKeys := (Int(2), Str("api_version"))
  const MethodKeys := (Int(3), Str("method"))
  const ParametersKeys := (Int(4), Str("parameters"))
  const RequestMethodKeys := (Int(5), Str("request_method"))

  function Fields(r: Request): seq<Value> {
    [r.clientIp, r.apiVersion, r.methodName, r.parameters, r.requestMethod]
  }

  function FieldKeys(compact: bool): (ks: seq<Key>)
    ensures |ks| == 5
  {
    if compact then [Int(1), Int(2), Int(3), Int(4), Int(5)]
    else [Str("client_ip"), Str("api_version"), Str("method"), Str("parameters"), Str("request_method")]
  }

  /** toArray($compact). */
  function ToArray(r: Request, compact: bool): (a: Array<Value>)
    ensures |a| == 5
    ensures forall i | 0 <= i < 5 :: a[i] == (FieldKeys(compact)[i], Fields(r)[i])
    ensures forall k :: HasKey(a, k) <==> k in FieldKeys(compact)
  {
    if compact then
      [(Int(1), r.clientIp), (Int(2), r.apiVersion), (Int(3), r.methodName),
       (Int(4), r.parameters), (Int(5), r.requestMethod)]
    else
      [(Str("client_ip"), r.clientIp), (Str("api_version"), r.apiVersion), (Str("method"), r.methodName),
       (Str("parameters"), r.parameters), (Str("request_method"), r.requestMethod)]
  }

  /** isset($data[$k]): present and not null. */
  predicate Isset(data: Entries<Value>, k: Key) {
    Find(data, k).Some? && Find(data, k).value != Null
  }

  /** One field of fromArray: the compact key is read first and the verbose
      key, when set, overwrites it. */
  function ReadField(data: Entries<Value>, keys: (Key, Key), current: Value): (v: Value)
    ensures Isset(data, keys.1) ==> v == Find(data, keys.1).value
    ensures !Isset(data, keys.1) && Isset(data, keys.0) ==> v == Find(data, keys.0).value
    ensures !Isset(data, keys.1) && !Isset(data, keys.0) ==> v == current
  {
    var fromCompact := if Isset(data, keys.0) then Find(data, keys.0).value else current;
    if Isset(data, keys.1) then Find(data, keys.1).value else fromCompact
  }

  /** fromArray($data). */
  function FromArray(data: Array<Value>): Request {
    Request(
      ReadField(data, ClientIpKeys, Blank.clientIp),
      ReadField(data, ApiVersionKeys, Blank.apiVersion),
      ReadField(data, MethodKeys, Blank.methodName),
      ReadField(data, ParametersKeys, Blank.parameters),
      ReadField(data, RequestMethodKeys, Blank.requestMethod))
  }

  /** Each field of the result is read from its pair of keys, starting
      from null. */
  lemma FromArrayField(data: Array<Value>, i: nat)
    requires i < 5
    ensures Fields(FromArray(data))[i] == ReadField(data, (FieldKeys(true)[i], FieldKeys(false)[i]), Null)
  {
    var r := FromArray(data);
    if i == 0 {
      assert Fields(r)[0] == r.clientIp;
    } else if i == 1 {
      assert Fields(r)[1] == r.apiVersion;
    } else if i == 2 {
      assert Fields(r)[2] == r.methodName;
    } else if i == 3 {
      assert Fields(r)[3] == r.parameters;
    } else {
      assert Fields(r)[4] == r.requestMethod;
    }
  }

  /** A request is determined by its five fields. */
  lemma FieldsDetermine(x: Request, y: Request)
    requires forall i | 0 <= i < 5 :: Fields(x)[i] == Fields(y)[i]
    ensures x == y
  {
    assert Fields(x)[0] == Fields(y)[0] && Fields(x)[1] == Fields(y)[1] && Fields(x)[2] == Fields(y)[2];
    assert Fields(x)[3] == Fields(y)[3] && Fields(x)[4] == Fields(y)[4];
  }

  /** Decoding either encoding gives back the object. */
  lemma RoundTrip(r: Request, compact: bool)
    ensures FromArray(ToArray(r, compact)) == r
  {
    forall i | 0 <= i < 5
      ensures Fields(FromArray(ToArray(r, compact)))[i] == Fields(r)[i]
    {
      RoundTripField(r, compact, i);
    }
    FieldsDetermine(FromArray(ToArray(r, compact)), r);
  }

  lemma RoundTripField(r: Request, compact: bool, i: nat)
    requires i < 5
    ensures Fields(FromArray(ToArray(r, compact)))[i] == Fields(r)[i]
  {
    var a := ToArray(r, compact);
    var keys := (FieldKeys(true)[i], FieldKeys(false)[i]);
    FromArrayField(a, i);
    FindAt(a, i);
    assert a[i] == (FieldKeys(compact)[i], Fields(r)[i]);
    var other := FieldKeys(!compact)[i];
    KeysApart(compact, i);
    ReadOnlyKey(a, keys, Fields(r)[i], compact);
  }

  /** No key of one encoding is a key of the other. */
  lemma KeysApart(compact: bool, i: nat)
    requires i < 5
    ensures FieldKeys(!compact)[i] !in FieldKeys(compact)
  {
    var ks := FieldKeys(compact);
    assert forall j | 0 <= j < 5 :: ks[j].Int? == compact;
    assert FieldKeys(!compact)[i].Int? == !compact;
  }

  /** A field whose array holds only one of its two keys reads the value
      under that key. */
  lemma ReadOnlyKey(data: Entries<Value>, keys: (Key, Key), v: Value, compact: bool)
    requires (if compact then Find(data, keys.0) else Find(data, keys.1)) == Some(v)
    requires !HasKey(data, if compact then keys.1 else keys.0)
    ensures ReadField(data, keys, Null) == v
  {
  }

  /** With none of the ten keys set, every field stays null. */
  lemma NoKeysGiveBlank(data: Array<Value>)
    requires forall i | 0 <= i < 5 :: !Isset(data, FieldKeys(true)[i]) && !Isset(data, FieldKeys(false)[i])
    ensures FromArray(data) == Blank
  {
    forall i | 0 <= i < 5
      ensures Fields(FromArray(data))[i] == Fields(Blank)[i]
    {
      FromArrayField(data, i);
    }
    FieldsDetermine(FromArray(data), Blank);
  }

  /** When both keys of a field are set, the verbose key wins. */
  lemma VerboseKeyWins(data: Array<Value>, i: nat)
    requires i < 5
    requires Isset(data, FieldKeys(true)[i]) && Isset(data, FieldKeys(false)[i])
    ensures Fields(FromArray(data))[i] == Find(data, FieldKeys(false)[i]).value
  {
    FromArrayField(data, i);
  }

  /** Keys other than the ten recognised ones do not affect the result. */
  lemma OtherKeysIgnored(data1: Array<Value>, data2: Array<Value>)
    requires forall i | 0 <= i < 5 ::
      Find(data1, FieldKeys(true)[i]) == Find(data2, FieldKeys(true)[i]) &&
      Find(data1, FieldKeys(false)[i]) == Find(data2, FieldKeys(false)[i])
    ensures FromArray(data1) == FromArray(data2)
  {
    forall i | 0 <= i < 5
      ensures Fields(FromArray(data1))[i] == Fields(FromArray(data2))[i]
    {
      FromArrayField(data1, i);
      FromArrayField(data2, i);
    }
    FieldsDetermine(FromArray(data1), FromArray(data2));
  }
}
