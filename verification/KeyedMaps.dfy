/**
 Maps filled by writing named items one after the other, the way batches and
 stores are filled.  The lemmas say what such a map holds in terms of the items.
 */
module KeyedMaps {

  ghost predicate Injective<K(!new)>(name: K -> string) {
    forall k, l :: name(k) == name(l) ==> k == l
  }

  ghost predicate NoRepeats<K>(items: seq<K>) {
    forall i, j :: 0 <= i < j < |items| ==> items[i] != items[j]
  }

  /** The map after the first `n` items are written. */
  function PutFirst<K, V>(name: K -> string, value: K -> V, base: map<string, V>, items: seq<K>, n: nat): map<string, V>
    requires n <= |items|
  {
    if n == 0 then base else PutFirst(name, value, base, items, n - 1)[name(items[n - 1]) := value(items[n - 1])]
  }

  function Put<K, V>(name: K -> string, value: K -> V, base: map<string, V>, items: seq<K>): map<string, V> {
    PutFirst(name, value, base, items, |items|)
  }

  lemma {:induction false} PrefixDecides<K, V>(
        name: K -> string, value: K -> V, base: map<string, V>, a: seq<K>, b: seq<K>, n: nat)
    requires n <= |a| && n <= |b| && a[..n] == b[..n]
    ensures PutFirst(name, value, base, a, n) == PutFirst(name, value, base, b, n)
  {
    if n > 0 {
      assert a[n - 1] == a[..n][n - 1] == b[..n][n - 1] == b[n - 1];
      assert a[..n - 1] == a[..n][..n - 1] == b[..n][..n - 1] == b[..n - 1];
      PrefixDecides(name, value, base, a, b, n - 1);
    }
  }

  lemma PutOne<K, V>(name: K -> string, value: K -> V, base: map<string, V>, items: seq<K>, item: K)
    ensures Put(name, value, base, items + [item]) == Put(name, value, base, items)[name(item) := value(item)]
  {
    PrefixDecides(name, value, base, items, items + [item], |items|);
  }

  /** Writing two runs of items is writing the first and then the second. */
  lemma {:induction false} PutAppend<K, V>(name: K -> string, value: K -> V, base: map<string, V>, a: seq<K>, b: seq<K>)
    ensures Put(name, value, base, a + b) == Put(name, value, Put(name, value, base, a), b)
  {
    if b == [] {
      assert a + b == a;
    } else {
      var rest, last := b[..|b| - 1], b[|b| - 1];
      assert a + b == (a + rest) + [last] && b == rest + [last];
      PutOne(name, value, base, a + rest, last);
      PutOne(name, value, Put(name, value, base, a), rest, last);
      PutAppend(name, value, base, a, rest);
    }
  }

  /** Collecting items first and then laying them over a map is writing them to the map. */
  lemma {:induction false} PutOver<K, V>(name: K -> string, value: K -> V, base: map<string, V>, items: seq<K>)
    ensures base + Put(name, value, map[], items) == Put(name, value, base, items)
  {
    FirstOver(name, value, base, items, |items|);
  }

  lemma {:induction false} FirstOver<K, V>(
        name: K -> string, value: K -> V, base: map<string, V>, items: seq<K>, n: nat)
    requires n <= |items|
    ensures base + PutFirst(name, value, map[], items, n) == PutFirst(name, value, base, items, n)
  {
    if n > 0 {
      FirstOver(name, value, base, items, n - 1);
    }
  }

  ghost predicate Named<K>(name: K -> string, items: seq<K>, id: string) {
    exists k :: k in items && name(k) == id
  }

  /** The keys are those of the base and the names of the items. */
  lemma {:induction false} PutKey<K, V>(
        name: K -> string, value: K -> V, base: map<string, V>, items: seq<K>, id: string)
    ensures id in Put(name, value, base, items) <==> id in base || Named(name, items, id)
  {
    if items != [] {
      var rest, last := items[..|items| - 1], items[|items| - 1];
      PutOne(name, value, base, rest, last);
      PutKey(name, value, base, rest, id);
      assert items == rest + [last];
      if Named(name, rest, id) {
        var k :| k in rest && name(k) == id;
        assert k in items;
      }
      if name(last) == id {
        assert last in items;
      }
    }
  }

  /** Every item is found under its name, with its value. */
  lemma {:induction false} PutValue<K(!new), V>(
      name: K -> string, value: K -> V, base: map<string, V>, items: seq<K>, item: K)
    requires Injective(name) && item in items
    ensures name(item) in Put(name, value, base, items) && Put(name, value, base, items)[name(item)] == value(item)
  {
    var rest, last := items[..|items| - 1], items[|items| - 1];
    assert items == rest + [last];
    PutOne(name, value, base, rest, last);
    if item != last {
      PutValue(name, value, base, rest, item);
    }
  }

  /** Items that do not repeat, and are not in the base, each add one entry. */
  lemma {:induction false} PutSize<K(!new), V>(name: K -> string, value: K -> V, base: map<string, V>, items: seq<K>)
    requires Injective(name) && NoRepeats(items)
    requires forall k :: k in items ==> name(k) !in base
    ensures |Put(name, value, base, items)| == |base| + |items|
  {
    if items != [] {
      var rest, last := items[..|items| - 1], items[|items| - 1];
      assert items == rest + [last];
      PutOne(name, value, base, rest, last);
      PutSize(name, value, base, rest);
      PutKey(name, value, base, rest, name(last));
    }
  }

  lemma InJoined<K>(a: seq<K>, b: seq<K>, k: K)
    ensures k in a + b <==> k in a || k in b
  {
  }

  lemma NoRepeatsJoined<K>(a: seq<K>, b: seq<K>)
    requires NoRepeats(a) && NoRepeats(b)
    requires forall k :: k in b ==> k !in a
    ensures NoRepeats(a + b)
  {
    var c := a + b;
    forall i, j | 0 <= i < j < |c| ensures c[i] != c[j] {
      if i < |a| <= j {
        assert c[j] in b && c[i] in a;
      }
    }
  }

  // ---- Lists of entries ----

  function KeyOf<V>(entry: (string, V)): string {
    entry.0
  }

  function ValueOf<V>(entry: (string, V)): V {
    entry.1
  }

  /** The map after the entries are written one after the other, a later entry over an earlier one. */
  function Overwritten<V>(base: map<string, V>, entries: seq<(string, V)>): map<string, V> {
    Put(KeyOf<V>, ValueOf<V>, base, entries)
  }

  function KeySet<V>(entries: seq<(string, V)>): set<string> {
    set i | 0 <= i < |entries| :: entries[i].0
  }

  function Entries<K, V>(name: K -> string, value: K -> V, items: seq<K>): seq<(string, V)> {
    seq(|items|, i requires 0 <= i < |items| => (name(items[i]), value(items[i])))
  }

  lemma EntriesJoin<K, V>(name: K -> string, value: K -> V, a: seq<K>, b: seq<K>)
    ensures Entries(name, value, a + b) == Entries(name, value, a) + Entries(name, value, b)
  {
  }

  /** Writing the entries of items is writing the items. */
  lemma {:induction false} EntriesWritten<K, V>(
      name: K -> string, value: K -> V, base: map<string, V>, items: seq<K>)
    ensures Overwritten(base, Entries(name, value, items)) == Put(name, value, base, items)
  {
    FirstEntriesWritten(name, value, base, items, |items|);
  }

  lemma {:induction false} FirstEntriesWritten<K, V>(
      name: K -> string, value: K -> V, base: map<string, V>, items: seq<K>, n: nat)
    requires n <= |items|
    ensures PutFirst(KeyOf<V>, ValueOf<V>, base, Entries(name, value, items), n)
         == PutFirst(name, value, base, items, n)
  {
    if n > 0 {
      FirstEntriesWritten(name, value, base, items, n - 1);
    }
  }

  lemma {:induction false} KeysWritten<V>(entries: seq<(string, V)>, id: string)
    ensures id in Overwritten(map[], entries) <==> id in KeySet(entries)
  {
    PutKey(KeyOf<V>, ValueOf<V>, map[], entries, id);
    if id in KeySet(entries) {
      var i :| 0 <= i < |entries| && entries[i].0 == id;
      assert entries[i] in entries && KeyOf(entries[i]) == id;
    }
  }
}
