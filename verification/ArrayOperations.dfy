/** The keyed-array update expressions behind every tag, parameter and metadata write. */
module ArrayOperations {

  /** One element of an embedded `{k, v}` array. */
  datatype Entry<V> = Entry(k: string, v: V)

  ghost predicate UniqueKeys<V>(s: seq<Entry<V>>) {
    forall i, j :: 0 <= i < j < |s| ==> s[i].k != s[j].k
  }

  /** The object an array denotes: `$arrayToObject`, later entries winning. */
  ghost function AsMap<V>(s: seq<Entry<V>>): map<string, V> {
    if s == [] then map[] else AsMap(s[..|s| - 1])[s[|s| - 1].k := s[|s| - 1].v]
  }

  /** Outside `keys` two maps are the same. */
  ghost predicate SameBut<K(!new), V>(before: map<K, V>, after: map<K, V>, keys: set<K>) {
    forall k :: k !in keys ==> (k in after <==> k in before) && (k in before ==> after[k] == before[k])
  }

  predicate HasKey<V>(s: seq<Entry<V>>, k: string) {
    exists i :: 0 <= i < |s| && s[i].k == k
  }

  function KeySet<V>(s: seq<Entry<V>>): (r: set<string>)
    ensures forall k :: k in r <==> HasKey(s, k)
  {
    if s == [] then {} else
      assert s == s[..|s| - 1] + [s[|s| - 1]];
      KeySet(s[..|s| - 1]) + {s[|s| - 1].k}
  }

  /** `$filter` keeping the elements of `stored` whose key is not a key of `other`. */
  function Without<U, V>(stored: seq<Entry<V>>, other: seq<Entry<U>>): (r: seq<Entry<V>>)
    ensures forall e <- r :: e in stored && !HasKey(other, e.k)
    ensures forall e <- stored :: !HasKey(other, e.k) ==> e in r
  {
    if stored == [] then [] else
      var n := |stored| - 1;
      var init := Without(stored[..n], other);
      assert stored == stored[..n] + [stored[n]];
      if HasKey(other, stored[n].k) then init else init + [stored[n]]
  }

  /** build_merge_array_expression: incoming records replace stored ones of the same key. */
  function Merge<V>(stored: seq<Entry<V>>, incoming: seq<Entry<V>>): seq<Entry<V>> {
    Without(stored, incoming) + incoming
  }

  /** _merge_missing_records: only keys that are not stored yet are appended. */
  function MergeMissing<V>(stored: seq<Entry<V>>, values: seq<Entry<V>>): seq<Entry<V>> {
    stored + Without(values, stored)
  }

  /** The `$pull` update of build_remove_array_element_update. */
  function Pull<V>(stored: seq<Entry<V>>, k: string): seq<Entry<V>> {
    Without(stored, [Entry(k, ())])
  }

  lemma AsMapSnoc<V>(s: seq<Entry<V>>, e: Entry<V>)
    ensures AsMap(s + [e]) == AsMap(s)[e.k := e.v]
  {
    assert (s + [e])[..|s|] == s;
  }

  lemma {:induction false} AsMapKeys<V>(s: seq<Entry<V>>)
    ensures forall k :: k in AsMap(s) <==> HasKey(s, k)
  {
    if s != [] {
      AsMapKeys(s[..|s| - 1]);
    }
  }

  lemma {:induction false} AsMapAppend<V>(a: seq<Entry<V>>, b: seq<Entry<V>>)
    ensures AsMap(a + b) == AsMap(a) + AsMap(b)
  {
    if b == [] {
      assert a + b == a;
    } else {
      var init, last := b[..|b| - 1], b[|b| - 1];
      AsMapAppend(a, init);
      assert a + b == (a + init) + [last];
      AsMapSnoc(a + init, last);
      OverridePut(AsMap(a), AsMap(init), last);
    }
  }

  lemma OverridePut<V>(m: map<string, V>, n: map<string, V>, e: Entry<V>)
    ensures m + n[e.k := e.v] == (m + n)[e.k := e.v]
  {}

  function MapWithout<U, V>(m: map<string, V>, other: seq<Entry<U>>): map<string, V> {
    map k | k in m && !HasKey(other, k) :: m[k]
  }

  lemma {:induction false} AsMapWithout<U, V>(s: seq<Entry<V>>, other: seq<Entry<U>>)
    ensures AsMap(Without(s, other)) == MapWithout(AsMap(s), other)
  {
    if s != [] {
      var init, last := s[..|s| - 1], s[|s| - 1];
      AsMapWithout(init, other);
      MapWithoutPut(AsMap(init), other, last);
      if !HasKey(other, last.k) { AsMapSnoc(Without(init, other), last); }
    }
  }

  lemma MapWithoutPut<U, V>(m: map<string, V>, other: seq<Entry<U>>, e: Entry<V>)
    ensures MapWithout(m[e.k := e.v], other) == if HasKey(other, e.k) then MapWithout(m, other)
            else MapWithout(m, other)[e.k := e.v]
  {}

  lemma AsMapOne<V>(e: Entry<V>)
    ensures AsMap([e]) == map[e.k := e.v]
  {
    assert [e][..0] == [];
  }

  lemma HasKeySnoc<V>(init: seq<Entry<V>>, last: Entry<V>, k: string)
    ensures HasKey(init + [last], k) <==> HasKey(init, k) || last.k == k
  {
    assert (init + [last])[|init|] == last;
    if HasKey(init, k) {
      var i :| 0 <= i < |init| && init[i].k == k;
      assert (init + [last])[i].k == k;
    }
  }

  /** As maps, a merge is the override of the stored object by the incoming one. */
  lemma MergeAsMap<V>(stored: seq<Entry<V>>, incoming: seq<Entry<V>>)
    ensures AsMap(Merge(stored, incoming)) == AsMap(stored) + AsMap(incoming)
  {
    AsMapWithout(stored, incoming);
    AsMapAppend(Without(stored, incoming), incoming);
    AsMapKeys(incoming);
  }

  /** As maps, a missing-only merge lets every stored value win. */
  lemma MergeMissingAsMap<V>(stored: seq<Entry<V>>, values: seq<Entry<V>>)
    ensures AsMap(MergeMissing(stored, values)) == AsMap(values) + AsMap(stored)
  {
    AsMapWithout(values, stored);
    AsMapAppend(stored, Without(values, stored));
    AsMapKeys(stored);
  }

  lemma PullAsMap<V>(stored: seq<Entry<V>>, k: string)
    ensures AsMap(Pull(stored, k)) == AsMap(stored) - {k}
  {
    AsMapWithout(stored, [Entry(k, ())]);
    assert [Entry(k, ())][0].k == k;
  }

  lemma {:induction false} WithoutUnique<U, V>(s: seq<Entry<V>>, other: seq<Entry<U>>)
    requires UniqueKeys(s)
    ensures UniqueKeys(Without(s, other))
  {
    if s != [] {
      WithoutUnique(s[..|s| - 1], other);
    }
  }

  /** No write made through these expressions ever stores a key twice. */
  lemma WritesKeepKeysUnique<V>(stored: seq<Entry<V>>, incoming: seq<Entry<V>>, k: string)
    requires UniqueKeys(stored) && UniqueKeys(incoming)
    ensures UniqueKeys(Merge(stored, incoming))
    ensures UniqueKeys(MergeMissing(stored, incoming))
    ensures UniqueKeys(Pull(stored, k))
  {
    WithoutUnique(stored, incoming);
    WithoutUnique(incoming, stored);
    WithoutUnique(stored, [Entry(k, ())]);
  }

  /** In an array with unique keys the object's value is the one element's value. */
  lemma {:induction false} UniqueLookup<V>(s: seq<Entry<V>>, e: Entry<V>)
    requires UniqueKeys(s) && e in s
    ensures e.k in AsMap(s) && AsMap(s)[e.k] == e.v
  {
    var n := |s| - 1;
    assert s == s[..n] + [s[n]];
    if e != s[n] {
      UniqueLookup(s[..n], e);
    }
  }

  /** A dictionary built from key/value records: the last value of a key, at its first position. */
  function LastOfEach<V>(entries: seq<Entry<V>>): seq<Entry<V>> {
    if entries == [] then []
    else
      var init, last := LastOfEach(entries[..|entries| - 1]), entries[|entries| - 1];
      Overwrite(init, last)
  }

  function Overwrite<V>(entries: seq<Entry<V>>, e: Entry<V>): seq<Entry<V>> {
    if HasKey(entries, e.k) then ReplaceKey(entries, e) else entries + [e]
  }

  function ReplaceKey<V>(entries: seq<Entry<V>>, e: Entry<V>): (r: seq<Entry<V>>)
    ensures |r| == |entries| && forall i :: 0 <= i < |r| ==> r[i].k == entries[i].k
  {
    if entries == [] then []
    else
      var init, last := ReplaceKey(entries[..|entries| - 1], e), entries[|entries| - 1];
      init + [if last.k == e.k then e else last]
  }

  ghost function PutIf<V>(m: map<string, V>, present: bool, e: Entry<V>): map<string, V> {
    if present then m[e.k := e.v] else m
  }

  lemma PutIfSnoc<V>(m: map<string, V>, present: bool, last: Entry<V>, e: Entry<V>)
    ensures last.k == e.k ==> PutIf(m, present, e)[e.k := e.v] == PutIf(m[last.k := last.v], true, e)
    ensures last.k != e.k ==> PutIf(m, present, e)[last.k := last.v] == PutIf(m[last.k := last.v], present, e)
  {}

  lemma {:induction false} ReplaceKeyAsMap<V>(entries: seq<Entry<V>>, e: Entry<V>)
    ensures AsMap(ReplaceKey(entries, e)) == PutIf(AsMap(entries), HasKey(entries, e.k), e)
  {
    if entries != [] {
      var init, last := entries[..|entries| - 1], entries[|entries| - 1];
      ReplaceKeyAsMap(init, e);
      assert entries == init + [last];
      AsMapSnoc(ReplaceKey(init, e), if last.k == e.k then e else last);
      HasKeySnoc(init, last, e.k);
      PutIfSnoc(AsMap(init), HasKey(init, e.k), last, e);
    }
  }

  lemma {:induction false} LastOfEachAsMap<V>(entries: seq<Entry<V>>)
    ensures UniqueKeys(LastOfEach(entries))
    ensures AsMap(LastOfEach(entries)) == AsMap(entries)
  {
    if entries != [] {
      var init, last := LastOfEach(entries[..|entries| - 1]), entries[|entries| - 1];
      LastOfEachAsMap(entries[..|entries| - 1]);
      ReplaceKeyAsMap(init, last);
      AsMapSnoc(init, last);
    }
  }

  /** The object's value for a key is the value of one of the array's entries. */
  lemma {:induction false} EntryOf<V>(entries: seq<Entry<V>>, k: string) returns (i: nat)
    requires k in AsMap(entries)
    ensures i < |entries| && entries[i].k == k && entries[i].v == AsMap(entries)[k]
  {
    var n := |entries| - 1;
    if entries[n].k == k {
      i := n;
    } else {
      i := EntryOf(entries[..n], k);
    }
  }

  /** Every entry of the dictionary is one of the records. */
  lemma {:induction false} LastOfEachSelects<V(!new)>(entries: seq<Entry<V>>, e: Entry<V>)
    requires e in LastOfEach(entries)
    ensures e in entries
  {
    var init, last := entries[..|entries| - 1], entries[|entries| - 1];
    assert entries == init + [last];
    if e != last {
      OverwriteSelects(LastOfEach(init), last, e);
      LastOfEachSelects(init, e);
    }
  }

  lemma OverwriteSelects<V>(entries: seq<Entry<V>>, last: Entry<V>, e: Entry<V>)
    requires e in Overwrite(entries, last)
    ensures e in entries || e == last
  {
    if HasKey(entries, last.k) { ReplaceKeySelects(entries, last, e); }
  }

  lemma {:induction false} ReplaceKeySelects<V>(entries: seq<Entry<V>>, last: Entry<V>, e: Entry<V>)
    requires e in ReplaceKey(entries, last)
    ensures e in entries || e == last
  {
    if entries != [] {
      var n := |entries| - 1;
      if e in ReplaceKey(entries[..n], last) { ReplaceKeySelects(entries[..n], last, e); }
    }
  }
}
