/**
 * `std::map<std::string, V>` as a strictly key-sorted association list.
 *
 * Both core structures are ordered maps keyed by strings: the children of a
 * virtual directory and the table of discovered UPnP devices. Iterating a
 * `std::map` visits its entries in ascending key order, and the source relies
 * on that order (the first matching server wins), so the model keeps the
 * entries as a sequence sorted by `Below`, the order of `std::string::operator<`.
 */
module OrderedMap {
  import opened Wrappers

  /** Strict lexicographic order on strings: a proper prefix comes first,
      otherwise the first differing character decides. */
  predicate Below(a: string, b: string)
    decreases |a|
  {
    |b| > 0 && (|a| == 0 || a[0] < b[0] || (a[0] == b[0] && Below(a[1..], b[1..])))
  }

  lemma {:induction false} BelowIrreflexive(a: string)
    ensures !Below(a, a)
  {
    if |a| > 0 {
      BelowIrreflexive(a[1..]);
    }
  }

  lemma {:induction false} BelowTransitive(a: string, b: string, c: string)
    requires Below(a, b) && Below(b, c)
    ensures Below(a, c)
  {
    if |a| > 0 && a[0] == b[0] && b[0] == c[0] {
      BelowTransitive(a[1..], b[1..], c[1..]);
    }
  }

  /** Any two distinct strings are ordered one way or the other. */
  lemma {:induction false} BelowTotal(a: string, b: string)
    requires a != b
    ensures Below(a, b) || Below(b, a)
  {
    if |a| > 0 && |b| > 0 && a[0] == b[0] {
      assert a == [a[0]] + a[1..] && b == [b[0]] + b[1..];
      BelowTotal(a[1..], b[1..]);
    }
  }

  lemma BelowAsymmetric(a: string, b: string)
    requires Below(a, b)
    ensures !Below(b, a)
  {
    if Below(b, a) {
      BelowTransitive(a, b, a);
      BelowIrreflexive(a);
    }
  }

  /** One key/value pair of a map. */
  datatype Entry<V> = Entry(key: string, value: V)

  /** The representation invariant of every `std::map`: keys strictly ascending. */
  ghost predicate Sorted<V>(s: seq<Entry<V>>)
  {
    forall i, j :: 0 <= i < j < |s| ==> Below(s[i].key, s[j].key)
  }

  /** In a sorted entry list no key occurs twice. */
  lemma SortedKeysDistinct<V>(s: seq<Entry<V>>)
    requires Sorted(s)
    ensures forall i, j :: 0 <= i < |s| && 0 <= j < |s| && i != j ==> s[i].key != s[j].key
  {
    forall i, j | 0 <= i < |s| && 0 <= j < |s| && i != j
      ensures s[i].key != s[j].key
    {
      BelowIrreflexive(s[i].key);
    }
  }

  /** `find`: the position of the entry for `k`, or -1 (the end iterator). */
  function IndexOf<V>(s: seq<Entry<V>>, k: string): (i: int)
    ensures -1 <= i < |s|
    ensures i < 0 ==> forall j :: 0 <= j < |s| ==> s[j].key != k
    ensures 0 <= i ==> s[i].key == k && forall j :: 0 <= j < i ==> s[j].key != k
  {
    if s == [] then -1
    else if s[0].key == k then 0
    else
      var i := IndexOf(s[1..], k);
      if i < 0 then -1 else i + 1
  }

  /** The value stored for `k`, if any. */
  function Get<V>(s: seq<Entry<V>>, k: string): (r: Option<V>)
    ensures r.Some? ==> Entry(k, r.value) in s
    ensures r.None? ==> forall e :: e in s ==> e.key != k
  {
    var i := IndexOf(s, k);
    if i < 0 then None else Some(s[i].value)
  }

  lemma GetCons<V>(e: Entry<V>, s: seq<Entry<V>>)
    ensures forall k :: Get([e] + s, k) == if e.key == k then Some(e.value) else Get(s, k)
  {
    assert ([e] + s)[1..] == s;
  }

  /** In a sorted list the entry at position i is the one `find` returns for its key. */
  lemma GetAt<V>(s: seq<Entry<V>>, i: int)
    requires Sorted(s) && 0 <= i < |s|
    ensures Get(s, s[i].key) == Some(s[i].value)
  {
    SortedKeysDistinct(s);
  }

  /** `m[k] = v`: replace the value of an existing key, or insert a new entry in key order. */
  function Insert<V>(s: seq<Entry<V>>, k: string, v: V): (r: seq<Entry<V>>)
    ensures Get(r, k) == Some(v)
    ensures forall j :: j != k ==> Get(r, j) == Get(s, j)
    ensures forall e :: e in r ==> e == Entry(k, v) || e in s
  {
    if s == [] then [Entry(k, v)]
    else if s[0].key == k then
      GetCons(Entry(k, v), s[1..]);
      GetCons(s[0], s[1..]);
      assert s == [s[0]] + s[1..];
      [Entry(k, v)] + s[1..]
    else if Below(k, s[0].key) then
      GetCons(Entry(k, v), s);
      [Entry(k, v)] + s
    else
      var r' := Insert(s[1..], k, v);
      GetCons(s[0], r');
      GetCons(s[0], s[1..]);
      assert s == [s[0]] + s[1..];
      [s[0]] + r'
  }

  /** Inserting keeps the keys sorted. */
  lemma {:induction false} InsertSorted<V>(s: seq<Entry<V>>, k: string, v: V)
    requires Sorted(s)
    ensures Sorted(Insert(s, k, v))
  {
    if s == [] || s[0].key == k {
    } else if Below(k, s[0].key) {
      forall j | 0 <= j < |s| ensures Below(k, s[j].key) {
        if j > 0 { BelowTransitive(k, s[0].key, s[j].key); }
      }
    } else {
      InsertSorted(s[1..], k, v);
      BelowTotal(k, s[0].key);
      var r := Insert(s, k, v);
      assert r == [s[0]] + Insert(s[1..], k, v);
      forall j | 1 <= j < |r| ensures Below(s[0].key, r[j].key) {
        assert r[j] in Insert(s[1..], k, v);
        if r[j] != Entry(k, v) {
          var m :| 0 <= m < |s[1..]| && s[1..][m] == r[j];
          assert s[m + 1] == r[j];
        }
      }
    }
  }

  /** Writing twice to one key leaves the second value, wherever the key sits. */
  lemma {:induction false} InsertInsert<V>(s: seq<Entry<V>>, k: string, v: V, w: V)
    ensures Insert(Insert(s, k, v), k, w) == Insert(s, k, w)
  {
    if s != [] && s[0].key != k && !Below(k, s[0].key) {
      InsertInsert(s[1..], k, v, w);
      assert Insert(s, k, v)[1..] == Insert(s[1..], k, v);
    }
  }

  /** Writing back the value a key already has changes nothing. */
  lemma {:induction false} InsertExisting<V>(s: seq<Entry<V>>, k: string)
    requires Sorted(s) && Get(s, k).Some?
    ensures Insert(s, k, Get(s, k).value) == s
  {
    if s[0].key == k {
      assert s == [s[0]] + s[1..];
    } else {
      var i := IndexOf(s, k);
      BelowAsymmetric(s[0].key, s[i].key);
      assert s[1..][i - 1] == s[i];
      GetCons(s[0], s[1..]);
      assert s == [s[0]] + s[1..];
      InsertExisting(s[1..], k);
    }
  }

  /** `m.erase(it)`: remove the entry at a position. */
  function EraseAt<V>(s: seq<Entry<V>>, i: int): (r: seq<Entry<V>>)
    requires 0 <= i < |s|
    ensures |r| == |s| - 1
    ensures forall e :: e in r ==> e in s
  {
    s[..i] + s[i + 1..]
  }

  lemma EraseAtSorted<V>(s: seq<Entry<V>>, i: int)
    requires Sorted(s) && 0 <= i < |s|
    ensures Sorted(EraseAt(s, i))
  {
    var r := EraseAt(s, i);
    forall a, b | 0 <= a < b < |r| ensures Below(r[a].key, r[b].key) {
      var a', b' := if a < i then a else a + 1, if b < i then b else b + 1;
      assert r[a] == s[a'] && r[b] == s[b'];
    }
  }

  /** Erasing the entry of key `s[i].key` removes exactly that key. */
  lemma GetEraseAt<V>(s: seq<Entry<V>>, i: int)
    requires Sorted(s) && 0 <= i < |s|
    ensures Get(EraseAt(s, i), s[i].key) == None
    ensures forall j :: j != s[i].key ==> Get(EraseAt(s, i), j) == Get(s, j)
  {
    SortedKeysDistinct(s);
    var r := EraseAt(s, i);
    forall e | e in r ensures e.key != s[i].key {
      var m :| 0 <= m < |r| && r[m] == e;
      assert r[m] == if m < i then s[m] else s[m + 1];
    }
    forall j | j != s[i].key ensures Get(r, j) == Get(s, j) {
      var x := IndexOf(s, j);
      if x >= 0 {
        var y := if x < i then x else x - 1;
        assert r[y] == s[x];
        EraseAtSorted(s, i);
        GetAt(r, y);
        GetAt(s, x);
      }
    }
  }

  /** The abstract value of an entry list: the map it represents. */
  function Table<V>(s: seq<Entry<V>>): (t: map<string, V>)
    ensures forall k :: Get(s, k) == if k in t then Some(t[k]) else None
  {
    if s == [] then map[]
    else
      GetCons(s[0], s[1..]);
      assert s == [s[0]] + s[1..];
      Table(s[1..])[s[0].key := s[0].value]
  }

  /** A map is determined by the lookups it answers. */
  lemma TableIs<V>(s: seq<Entry<V>>, m: map<string, V>)
    requires forall k :: Get(s, k) == if k in m then Some(m[k]) else None
    ensures Table(s) == m
  {
    var t := Table(s);
    forall k ensures (k in t) == (k in m) && (k in t ==> t[k] == m[k]) {
      assert Get(s, k) == Get(s, k);
    }
  }

  lemma TableInsert<V>(s: seq<Entry<V>>, k: string, v: V)
    ensures Table(Insert(s, k, v)) == Table(s)[k := v]
  {
    TableIs(Insert(s, k, v), Table(s)[k := v]);
  }

  lemma TableEraseAt<V>(s: seq<Entry<V>>, i: int)
    requires Sorted(s) && 0 <= i < |s|
    ensures Table(EraseAt(s, i)) == Table(s) - {s[i].key}
  {
    GetEraseAt(s, i);
    TableIs(EraseAt(s, i), Table(s) - {s[i].key});
  }
}
