/** PHP arrays: ordered maps whose keys are integers or strings. A string
    key that spells a canonical 64-bit decimal integer is stored as that
    integer, and array_merge renumbers integer keys while letting later
    string keys override earlier ones. */
module PhpArray {
  import opened Wrappers
  import opened Sequences

  datatype Key = Int(i: int) | Str(s: string)

  /** The entries of an array, in insertion order. */
  type Entries<V> = seq<(Key, V)>

  predicate HasKey<V>(a: Entries<V>, k: Key) {
    exists i | 0 <= i < |a| :: a[i].0 == k
  }

  predicate Distinct<V>(a: Entries<V>) {
    forall i, j | 0 <= i < j < |a| :: a[i].0 != a[j].0
  }

  /** A PHP array never holds a key twice. */
  type Array<V> = a: Entries<V> | Distinct(a) witness []

  /** $a[$k] when the key is present. */
  function Find<V>(a: Entries<V>, k: Key): (r: Option<V>)
    ensures r.Some? <==> HasKey(a, k)
    ensures r.Some? ==> (k, r.value) in a
  {
    if |a| == 0 then None
    else if a[0].0 == k then Some(a[0].1)
    else
      assert forall i | 1 <= i < |a| :: a[i] == a[1..][i - 1];
      Find(a[1..], k)
  }

  /** In a PHP array, the entry at index i is the one `$a[key]` reads. */
  lemma {:induction false} FindAt<V>(a: Array<V>, i: nat)
    requires i < |a|
    ensures Find(a, a[i].0) == Some(a[i].1)
  {
    if i > 0 {
      var a': Array<V> := a[1..];
      assert a'[i - 1] == a[i];
      FindAt(a', i - 1);
    }
  }

  /** In a PHP array an entry is what the lookup of its key finds. */
  lemma FindEntry<V>(a: Array<V>, k: Key, v: V)
    requires (k, v) in a
    ensures Find(a, k) == Some(v)
  {
    var i :| 0 <= i < |a| && a[i] == (k, v);
    FindAt(a, i);
  }

  /** isset($a[$k]) followed by $a[$k], for arrays whose values may be null. */
  function NonNull<V>(a: Entries<Option<V>>, k: Key): Option<V> {
    var found := Find(a, k);
    if found.Some? then found.value else None
  }

  const IntMin: int := -0x8000_0000_0000_0000
  const IntMax: int := 0x7FFF_FFFF_FFFF_FFFF

  predicate IsDigit(c: char) {
    '0' <= c <= '9'
  }

  predicate AllDigits(s: string) {
    forall i | 0 <= i < |s| :: IsDigit(s[i])
  }

  function DigitsValue(s: string): nat
    requires AllDigits(s)
  {
    if |s| == 0 then 0
    else 10 * DigitsValue(s[..|s| - 1]) + (s[|s| - 1] as int - '0' as int)
  }

  /** A decimal integer spelled the way PHP prints one: an optional minus
      sign, no leading zero, and no "-0". */
  predicate IsCanonicalInt(s: string) {
    var digits := if |s| > 0 && s[0] == '-' then s[1..] else s;
    |digits| > 0 && AllDigits(digits) && (digits[0] != '0' || s == "0")
  }

  function CanonicalIntValue(s: string): int
    requires IsCanonicalInt(s)
  {
    if s[0] == '-' then -(DigitsValue(s[1..]) as int) else DigitsValue(s)
  }

  /** The key PHP uses for `$a["..."]`. */
  function NormalizeKey(s: string): (k: Key)
    ensures k.Str? <==> !(IsCanonicalInt(s) && IntMin <= CanonicalIntValue(s) <= IntMax)
    ensures k.Str? ==> k.s == s
    ensures k.Int? ==> k.i == CanonicalIntValue(s)
  {
    if IsCanonicalInt(s) && IntMin <= CanonicalIntValue(s) <= IntMax then Int(CanonicalIntValue(s))
    else Str(s)
  }

  /** $a[$k] = $v: overwrite in place when the key exists, append otherwise. */
  function Put<V>(a: Entries<V>, k: Key, v: V): (r: Entries<V>)
    ensures Find(r, k) == Some(v)
  {
    if |a| == 0 then [(k, v)]
    else if a[0].0 == k then [(k, v)] + a[1..]
    else [a[0]] + Put(a[1..], k, v)
  }

  lemma {:induction false} PutFind<V>(a: Entries<V>, k: Key, v: V, k': Key)
    ensures Find(Put(a, k, v), k') == if k' == k then Some(v) else Find(a, k')
  {
    if |a| > 0 && a[0].0 != k {
      PutFind(a[1..], k, v, k');
    }
  }

  lemma {:induction false} PutDistinct<V>(a: Entries<V>, k: Key, v: V)
    requires Distinct(a)
    ensures Distinct(Put(a, k, v))
  {
    if |a| > 0 && a[0].0 == k {
      var r := [(k, v)] + a[1..];
      forall i, j | 0 <= i < j < |r| ensures r[i].0 != r[j].0 {
        assert r[i].0 == a[i].0 && r[j].0 == a[j].0;
      }
    } else if |a| > 0 {
      PutDistinct(a[1..], k, v);
      var tail := Put(a[1..], k, v);
      var r := [a[0]] + tail;
      forall j | 0 <= j < |tail| ensures tail[j].0 != a[0].0 {
        if tail[j].0 == a[0].0 {
          assert HasKey(tail, a[0].0);
          PutFind(a[1..], k, v, a[0].0);
        }
      }
      forall i, j | 0 <= i < j < |r| ensures r[i].0 != r[j].0 {
        if i > 0 {
          assert r[i] == tail[i - 1] && r[j] == tail[j - 1];
        } else {
          assert r[j] == tail[j - 1];
        }
      }
    }
  }

  /** The integer-keyed entries, in order. */
  function IntEntries<V>(a: Entries<V>): seq<(int, V)> {
    if |a| == 0 then []
    else (if a[0].0.Int? then [(a[0].0.i, a[0].1)] else []) + IntEntries(a[1..])
  }

  /** The values of the integer-keyed entries, in order. */
  function IntValues<V>(a: Entries<V>): seq<V> {
    if |a| == 0 then []
    else (if a[0].0.Int? then [a[0].1] else []) + IntValues(a[1..])
  }

  /** The values `vs` keyed `start`, `start + 1`, ... */
  function Numbered<V>(vs: seq<V>, start: int): (r: seq<(int, V)>)
    ensures |r| == |vs|
    ensures forall i | 0 <= i < |vs| :: r[i] == (start + i, vs[i])
  {
    seq(|vs|, i requires 0 <= i < |vs| => (start + i, vs[i]))
  }

  /** The integer keys are 0, 1, 2, ... in order, as array_merge leaves them. */
  predicate Renumbered<V>(a: Entries<V>) {
    forall j | 0 <= j < |IntEntries(a)| :: IntEntries(a)[j].0 == j
  }

  /** Integer-keyed entries and their values distribute over concatenation. */
  lemma IntEntriesAppend<V>(a: Entries<V>, b: Entries<V>)
    ensures IntEntries(a + b) == IntEntries(a) + IntEntries(b)
    ensures IntValues(a + b) == IntValues(a) + IntValues(b)
  {
    IntEntriesCat(a, b);
    IntValuesCat(a, b);
  }

  lemma {:induction false} IntEntriesCat<V>(a: Entries<V>, b: Entries<V>)
    ensures IntEntries(a + b) == IntEntries(a) + IntEntries(b)
    decreases |a|
  {
    if |a| == 0 {
      assert a + b == b;
    } else {
      var head := if a[0].0.Int? then [(a[0].0.i, a[0].1)] else [];
      assert (a + b)[0] == a[0];
      assert (a + b)[1..] == a[1..] + b;
      IntEntriesCat(a[1..], b);
      calc {
        IntEntries(a + b);
        head + IntEntries(a[1..] + b);
        head + (IntEntries(a[1..]) + IntEntries(b));
        { SeqAssoc(head, IntEntries(a[1..]), IntEntries(b)); }
        head + IntEntries(a[1..]) + IntEntries(b);
      }
    }
  }

  lemma {:induction false} IntValuesCat<V>(a: Entries<V>, b: Entries<V>)
    ensures IntValues(a + b) == IntValues(a) + IntValues(b)
    decreases |a|
  {
    if |a| == 0 {
      assert a + b == b;
    } else {
      var head := if a[0].0.Int? then [a[0].1] else [];
      assert (a + b)[0] == a[0];
      assert (a + b)[1..] == a[1..] + b;
      IntValuesCat(a[1..], b);
      calc {
        IntValues(a + b);
        head + IntValues(a[1..] + b);
        head + (IntValues(a[1..]) + IntValues(b));
        { SeqAssoc(head, IntValues(a[1..]), IntValues(b)); }
        head + IntValues(a[1..]) + IntValues(b);
      }
    }
  }

  /** Writing a string key leaves the integer-keyed entries alone. */
  lemma {:induction false} PutStrKeepsInts<V>(a: Entries<V>, s: string, v: V)
    ensures IntEntries(Put(a, Str(s), v)) == IntEntries(a)
    ensures IntValues(Put(a, Str(s), v)) == IntValues(a)
  {
    if |a| > 0 && a[0].0 != Str(s) {
      PutStrKeepsInts(a[1..], s, v);
      assert Put(a, Str(s), v) == [a[0]] + Put(a[1..], Str(s), v);
    } else if |a| > 0 {
      assert Put(a, Str(s), v) == [(Str(s), v)] + a[1..];
    }
  }

  /** An integer key that is present shows up among the integer-keyed entries. */
  lemma {:induction false} IntKeyListed<V>(a: Entries<V>, n: int)
    requires HasKey(a, Int(n))
    ensures exists j | 0 <= j < |IntEntries(a)| :: IntEntries(a)[j].0 == n
  {
    if a[0].0 == Int(n) {
      assert IntEntries(a)[0].0 == n;
    } else {
      var i :| 0 <= i < |a| && a[i].0 == Int(n);
      assert a[1..][i - 1].0 == Int(n);
      IntKeyListed(a[1..], n);
      var j :| 0 <= j < |IntEntries(a[1..])| && IntEntries(a[1..])[j].0 == n;
      var head := if a[0].0.Int? then [(a[0].0.i, a[0].1)] else [];
      assert IntEntries(a)[|head| + j] == IntEntries(a[1..])[j];
    }
  }

  /** The next key array_merge hands out is free in a renumbered array. */
  lemma NextIntKeyFree<V>(a: Entries<V>)
    requires Renumbered(a)
    ensures !HasKey(a, Int(|IntEntries(a)|))
  {
    if HasKey(a, Int(|IntEntries(a)|)) {
      IntKeyListed(a, |IntEntries(a)|);
    }
  }

  lemma {:induction false} FindAppendOther<V>(a: Entries<V>, e: (Key, V), k: Key)
    requires e.0 != k
    ensures Find(a + [e], k) == Find(a, k)
    decreases |a|
  {
    if |a| > 0 && a[0].0 != k {
      assert (a + [e])[1..] == a[1..] + [e];
      FindAppendOther(a[1..], e, k);
    }
  }

  /** Appending an entry under a fresh integer key, as array_merge does. */
  function AppendInt<V>(acc: Array<V>, v: V): (r: Array<V>)
    requires Renumbered(acc)
    ensures Renumbered(r)
    ensures IntEntries(r) == IntEntries(acc) + [(|IntEntries(acc)|, v)]
    ensures IntValues(r) == IntValues(acc) + [v]
    ensures r == acc + [(Int(|IntEntries(acc)|), v)]
  {
    var n := |IntEntries(acc)|;
    NextIntKeyFree(acc);
    var r := acc + [(Int(n), v)];
    assert Distinct(r) by {
      forall i | 0 <= i < |acc| ensures acc[i].0 != Int(n) {
      }
    }
    IntEntriesAppend(acc, [(Int(n), v)]);
    r
  }

  /** Writing a string key, as array_merge does. */
  function PutStr<V>(acc: Array<V>, s: string, v: V): (r: Array<V>)
    requires Renumbered(acc)
    ensures Renumbered(r)
    ensures IntEntries(r) == IntEntries(acc) && IntValues(r) == IntValues(acc)
    ensures r == Put(acc, Str(s), v)
  {
    PutDistinct(acc, Str(s), v);
    PutStrKeepsInts(acc, s, v);
    Put(acc, Str(s), v)
  }

  /** One argument of array_merge: the entries of `b` are added to `acc` in order. */
  function MergeInto<V>(acc: Array<V>, b: Array<V>): (r: Array<V>)
    requires Renumbered(acc)
    ensures Renumbered(r)
    decreases |b|
  {
    if |b| == 0 then acc
    else MergeInto(MergeStep(acc, b[0]), b[1..])
  }

  /** One entry of an array_merge argument: an integer key is renumbered
      to the next free one, a string key is written over. */
  function MergeStep<V>(acc: Array<V>, e: (Key, V)): (r: Array<V>)
    requires Renumbered(acc)
    ensures Renumbered(r)
    ensures IntValues(r) == IntValues(acc) + (if e.0.Int? then [e.1] else [])
  {
    if e.0.Int? then AppendInt(acc, e.1) else PutStr(acc, e.0.s, e.1)
  }

  /** array_merge(...$arrays). */
  function Merge<V>(arrays: seq<Array<V>>): (r: Array<V>)
    ensures Renumbered(r)
    decreases |arrays|
  {
    if |arrays| == 0 then []
    else MergeInto(Merge(arrays[..|arrays| - 1]), arrays[|arrays| - 1])
  }

  /** array_merge of two arrays is two merge steps from the empty array. */
  lemma Merge2<V>(a: Array<V>, b: Array<V>)
    ensures Merge([a, b]) == MergeInto(MergeInto([], a), b)
  {
    assert [a, b][..1] == [a];
    assert [a][..0] == [];
    assert Merge([a]) == MergeInto([], a);
  }

  /** array_merge of three arrays is three merge steps from the empty array. */
  lemma Merge3<V>(a: Array<V>, b: Array<V>, c: Array<V>)
    ensures Merge([a, b, c]) == MergeInto(MergeInto(MergeInto([], a), b), c)
  {
    assert [a, b, c][..2] == [a, b];
    assert [a, b][..1] == [a];
    assert [a][..0] == [];
    assert Merge([a]) == MergeInto([], a);
    assert Merge([a, b]) == MergeInto(Merge([a]), b);
  }

  lemma IntValuesCons<V>(b: Entries<V>)
    requires |b| > 0
    ensures IntValues(b) == (if b[0].0.Int? then [b[0].1] else []) + IntValues(b[1..])
  {
  }

  /** array_merge keeps every integer-keyed value, in order, and renumbers them. */
  lemma {:induction false} MergeIntoInts<V>(acc: Array<V>, b: Array<V>)
    requires Renumbered(acc)
    ensures IntValues(MergeInto(acc, b)) == IntValues(acc) + IntValues(b)
    decreases |b|
  {
    if |b| > 0 {
      var b': Array<V> := b[1..];
      var head := if b[0].0.Int? then [b[0].1] else [];
      var next := MergeStep(acc, b[0]);
      IntValuesCons(b);
      MergeIntoInts(next, b');
      calc {
        IntValues(MergeInto(acc, b));
        IntValues(next) + IntValues(b');
        IntValues(acc) + head + IntValues(b');
        { SeqAssoc(IntValues(acc), head, IntValues(b')); }
        IntValues(acc) + IntValues(b);
      }
    }
  }

  /** A string key of the later array overrides the earlier one; other string
      keys keep their earlier value. */
  lemma {:induction false} MergeIntoStr<V>(acc: Array<V>, b: Array<V>, s: string)
    requires Renumbered(acc)
    ensures Find(MergeInto(acc, b), Str(s)) == if HasKey(b, Str(s)) then Find(b, Str(s)) else Find(acc, Str(s))
    decreases |b|
  {
    if |b| > 0 {
      var b' := b[1..];
      assert HasKey(b, Str(s)) <==> b[0].0 == Str(s) || HasKey(b', Str(s)) by {
        assert forall i | 1 <= i < |b| :: b[i] == b'[i - 1];
      }
      if b[0].0 == Str(s) {
        assert !HasKey(b', Str(s));
      }
      if b[0].0.Int? {
        FindAppendOther(acc, (Int(|IntEntries(acc)|), b[0].1), Str(s));
      } else {
        PutFind(acc, b[0].0, b[0].1, Str(s));
      }
      MergeIntoStr(MergeStep(acc, b[0]), b', s);
    }
  }

  /** The integer keys of a renumbered array are exactly 0 .. n-1, holding
      the integer-keyed values in order. */
  lemma {:induction false} RenumberedEntries<V>(a: Entries<V>)
    requires Renumbered(a)
    ensures IntEntries(a) == Numbered(IntValues(a), 0)
  {
    IntEntriesValues(a);
  }

  lemma {:induction false} IntEntriesValues<V>(a: Entries<V>)
    ensures |IntEntries(a)| == |IntValues(a)|
    ensures forall j | 0 <= j < |IntValues(a)| :: IntEntries(a)[j].1 == IntValues(a)[j]
  {
    if |a| > 0 {
      IntEntriesValues(a[1..]);
    }
  }
}
