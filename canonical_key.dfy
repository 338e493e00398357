/**
 * The canonical key encoder `serializeObj` (src/helpers/serializeObj.ts): sort the
 * object's keys, rebuild a record with every value coerced by `String()`, and
 * `JSON.stringify` it. Every pair subscription, dispatch and query key is built
 * with it.
 *
 * The central fact is `SameKeyIff`: two objects get the same key exactly when they
 * have the same keys and, key by key, the same `String()` of their values.
 */
module CanonicalKey {
  import opened JsValues
  import Json

  // ---------------------------------------------------------------------------
  // The default order of `Array.prototype.sort`: strings compared element by element

  predicate Less(a: string, b: string)
  {
    if |a| == 0 then |b| > 0
    else if |b| == 0 then false
    else if a[0] == b[0] then Less(a[1..], b[1..])
    else a[0] < b[0]
  }

  lemma {:induction false} LessIrreflexive(a: string)
    ensures !Less(a, a)
  {
    if |a| > 0 { LessIrreflexive(a[1..]); }
  }

  lemma {:induction false} LessTransitive(a: string, b: string, c: string)
    requires Less(a, b) && Less(b, c)
    ensures Less(a, c)
  {
    if |a| > 0 && |b| > 0 && |c| > 0 && a[0] == b[0] && b[0] == c[0] {
      LessTransitive(a[1..], b[1..], c[1..]);
    }
  }

  lemma {:induction false} LessTotal(a: string, b: string)
    requires a != b
    ensures Less(a, b) || Less(b, a)
  {
    if |a| > 0 && |b| > 0 && a[0] == b[0] {
      assert a == [a[0]] + a[1..] && b == [b[0]] + b[1..];
      LessTotal(a[1..], b[1..]);
    }
  }

  lemma LessAsymmetric(a: string, b: string)
    requires Less(a, b)
    ensures !Less(b, a)
  {
    if Less(b, a) {
      LessTransitive(a, b, a);
      LessIrreflexive(a);
    }
  }

  predicate StrictlySorted(s: seq<string>)
  {
    forall i, j :: 0 <= i < j < |s| ==> Less(s[i], s[j])
  }

  function Insert(x: string, s: seq<string>): seq<string>
  {
    if |s| == 0 then [x]
    else if Less(s[0], x) then [s[0]] + Insert(x, s[1..])
    else [x] + s
  }

  /** `keys.sort()`: a sort by `Less`. */
  function Sort(s: seq<string>): seq<string>
  {
    if |s| == 0 then [] else Insert(s[0], Sort(s[1..]))
  }

  lemma {:induction false} InsertPermutes(x: string, s: seq<string>)
    ensures multiset(Insert(x, s)) == multiset(s) + multiset{x}
  {
    if |s| > 0 && Less(s[0], x) {
      InsertPermutes(x, s[1..]);
      assert s == [s[0]] + s[1..];
    }
  }

  /** Inserting behind a smaller head: the head stays below everything after it. */
  lemma InsertBehindHead(x: string, s: seq<string>)
    requires |s| > 0 && StrictlySorted(s) && Less(s[0], x)
    requires StrictlySorted(Insert(x, s[1..]))
    ensures StrictlySorted(Insert(x, s))
  {
    var r := Insert(x, s[1..]);
    InsertPermutes(x, s[1..]);
    forall j | 0 <= j < |r| ensures Less(s[0], r[j]) {
      assert r[j] in multiset(r);
      if r[j] != x {
        assert r[j] in s[1..];
        var k :| 0 <= k < |s[1..]| && s[1..][k] == r[j];
        assert s[k + 1] == r[j];
      }
    }
    assert Insert(x, s) == [s[0]] + r;
    ConsStrictlySorted(s[0], r);
  }

  /** A head below every element of a sorted sequence keeps it sorted. */
  lemma ConsStrictlySorted(h: string, r: seq<string>)
    requires StrictlySorted(r) && forall j :: 0 <= j < |r| ==> Less(h, r[j])
    ensures StrictlySorted([h] + r)
  {
    var t := [h] + r;
    forall i, j | 0 <= i < j < |t| ensures Less(t[i], t[j]) {
      assert t[j] == r[j - 1];
      if i > 0 {
        assert t[i] == r[i - 1];
      }
    }
  }

  lemma {:induction false} InsertSorted(x: string, s: seq<string>)
    requires StrictlySorted(s) && x !in s
    ensures StrictlySorted(Insert(x, s))
    ensures multiset(Insert(x, s)) == multiset(s) + multiset{x}
  {
    InsertPermutes(x, s);
    if |s| > 0 {
      if Less(s[0], x) {
        assert x !in s[1..];
        InsertSorted(x, s[1..]);
        InsertBehindHead(x, s);
      } else {
        LessTotal(x, s[0]);
        forall j | 0 < j < |s| ensures Less(x, s[j]) {
          LessTransitive(x, s[0], s[j]);
        }
      }
    }
  }

  lemma {:induction false} SortSorted(s: seq<string>)
    requires forall i, j :: 0 <= i < j < |s| ==> s[i] != s[j]
    ensures StrictlySorted(Sort(s))
    ensures multiset(Sort(s)) == multiset(s)
  {
    if |s| > 0 {
      SortSorted(s[1..]);
      assert s == [s[0]] + s[1..];
      assert s[0] !in multiset(Sort(s[1..]));
      InsertSorted(s[0], Sort(s[1..]));
    }
  }

  /** Two strictly sorted sequences over the same elements are equal. */
  lemma {:induction false} SortedUnique(a: seq<string>, b: seq<string>)
    requires StrictlySorted(a) && StrictlySorted(b)
    requires forall x :: x in a <==> x in b
    ensures a == b
  {
    if |a| > 0 { assert a[0] in a; }
    if |b| > 0 { assert b[0] in b; }
    if |a| > 0 && |b| > 0 {
      assert a[0] in b && b[0] in a;
      if a[0] != b[0] {
        var i :| 0 <= i < |b| && b[i] == a[0];
        var j :| 0 <= j < |a| && a[j] == b[0];
        assert i > 0 && j > 0;
        LessAsymmetric(a[0], a[j]);
      }
      forall x ensures x in a[1..] <==> x in b[1..] {
        if x in a[1..] {
          var k :| 0 <= k < |a[1..]| && a[1..][k] == x;
          assert a[k + 1] == x;
          LessIrreflexive(a[0]);
          assert x in a && x in b;
          var m :| 0 <= m < |b| && b[m] == x;
          assert m > 0;
          assert b[1..][m - 1] == x;
        }
        if x in b[1..] {
          var k :| 0 <= k < |b[1..]| && b[1..][k] == x;
          assert b[k + 1] == x;
          LessIrreflexive(b[0]);
          assert x in b && x in a;
          var m :| 0 <= m < |a| && a[m] == x;
          assert m > 0;
          assert a[1..][m - 1] == x;
        }
      }
      SortedUnique(a[1..], b[1..]);
    }
  }

  lemma {:induction false} KeySetCard(o: Object)
    ensures |KeySet(o)| == |o|
  {
    if |o| > 0 {
      TailDistinct(o);
      KeySetCard(o[1..]);
    }
  }

  // ---------------------------------------------------------------------------
  // The encoder

  /** The object's keys in ascending order, each once. */
  function SortedKeys(o: Object): (ks: seq<string>)
    ensures StrictlySorted(ks)
    ensures forall k :: k in ks <==> k in KeySet(o)
    ensures |ks| == |KeySet(o)|
  {
    var keys := KeysOf(o);
    forall i, j | 0 <= i < j < |keys| ensures keys[i] != keys[j] { }
    SortSorted(keys);
    var ks := Sort(keys);
    forall k ensures k in ks <==> k in KeySet(o) {
      assert k in ks <==> k in multiset(keys);
      KeySetMember(o, k);
    }
    assert |ks| == |multiset(ks)| == |multiset(keys)| == |keys|;
    KeySetCard(o);
    ks
  }

  function Entries(o: Object, ks: seq<string>): (es: Json.Record)
    ensures |es| == |ks|
    ensures forall i :: 0 <= i < |ks| ==> es[i] == (ks[i], ToStr(Lookup(o, ks[i])))
  {
    if |ks| == 0 then [] else [(ks[0], ToStr(Lookup(o, ks[0])))] + Entries(o, ks[1..])
  }

  /** The record's keys are strictly ascending. */
  predicate Ascending(es: Json.Record)
  {
    forall i, j :: 0 <= i < j < |es| ==> Less(es[i].0, es[j].0)
  }

  /** The record `serializeObj` builds with its `reduce`: sorted keys, stringified values. */
  function Canonical(o: Object): (es: Json.Record)
    ensures |es| == |KeySet(o)|
    ensures Ascending(es)
    ensures forall k :: k in KeySet(o) <==> exists i :: 0 <= i < |es| && es[i].0 == k
    ensures forall i :: 0 <= i < |es| ==> es[i].1 == ToStr(Lookup(o, es[i].0))
  {
    var ks := SortedKeys(o);
    var es := Entries(o, ks);
    EntriesAscending(o, ks);
    forall k ensures k in KeySet(o) <==> exists i :: 0 <= i < |es| && es[i].0 == k {
      EntriesCover(o, ks, k);
    }
    es
  }

  lemma EntriesAscending(o: Object, ks: seq<string>)
    requires StrictlySorted(ks)
    ensures Ascending(Entries(o, ks))
  {
  }

  lemma EntriesCover(o: Object, ks: seq<string>, k: string)
    ensures k in ks <==> exists i :: 0 <= i < |Entries(o, ks)| && Entries(o, ks)[i].0 == k
  {
    var es := Entries(o, ks);
    if k in ks {
      var i :| 0 <= i < |ks| && ks[i] == k;
      assert es[i].0 == k;
    }
  }

  /** `serializeObj(obj)` */
  function SerializeObj(o: Object): string
  {
    Json.Stringify(Canonical(o))
  }

  /** The key reads back as the sorted, stringified record. */
  lemma SerializeObjDecodes(o: Object)
    ensures Json.Parse(SerializeObj(o)) == Some(Canonical(o))
  {
    Json.ParseStringify(Canonical(o));
  }

  // ---------------------------------------------------------------------------
  // What the key determines

  /** Same keys, and under each key the same `String()` of the value. */
  predicate SameStringified(o1: Object, o2: Object)
  {
    && KeySet(o1) == KeySet(o2)
    && forall k :: k in KeySet(o1) ==> ToStr(Lookup(o1, k)) == ToStr(Lookup(o2, k))
  }

  lemma CanonicalKeys(o: Object)
    ensures Canonical(o) == Entries(o, SortedKeys(o))
  {
  }

  lemma SameKeysSameOrder(o1: Object, o2: Object)
    requires KeySet(o1) == KeySet(o2)
    ensures SortedKeys(o1) == SortedKeys(o2)
  {
    SortedUnique(SortedKeys(o1), SortedKeys(o2));
  }

  lemma SameRecordAt(o1: Object, o2: Object, k: string)
    requires Canonical(o1) == Canonical(o2)
    requires k in KeySet(o1)
    ensures k in KeySet(o2) && ToStr(Lookup(o1, k)) == ToStr(Lookup(o2, k))
  {
    var es := Canonical(o1);
    var i :| 0 <= i < |es| && es[i].0 == k;
  }

  lemma SameRecordSameStringified(o1: Object, o2: Object)
    requires Canonical(o1) == Canonical(o2)
    ensures SameStringified(o1, o2)
  {
    forall k | k in KeySet(o1) ensures k in KeySet(o2) && ToStr(Lookup(o1, k)) == ToStr(Lookup(o2, k)) {
      SameRecordAt(o1, o2, k);
    }
    forall k | k in KeySet(o2) ensures k in KeySet(o1) {
      SameRecordAt(o2, o1, k);
    }
  }

  lemma SameKeyOnlyIfSameStringified(o1: Object, o2: Object)
    requires SerializeObj(o1) == SerializeObj(o2)
    ensures SameStringified(o1, o2)
  {
    Json.StringifyInjective(Canonical(o1), Canonical(o2));
    SameRecordSameStringified(o1, o2);
  }

  lemma SameStringifiedSameKey(o1: Object, o2: Object)
    requires SameStringified(o1, o2)
    ensures SerializeObj(o1) == SerializeObj(o2)
  {
    var ks1, ks2 := SortedKeys(o1), SortedKeys(o2);
    SameKeysSameOrder(o1, o2);
    var es1, es2 := Entries(o1, ks1), Entries(o2, ks2);
    forall i | 0 <= i < |es1| ensures es1[i] == es2[i] {
      assert ks1[i] in KeySet(o1);
    }
    assert es1 == es2;
  }

  /** Two objects share a key exactly when they agree on keys and stringified values. */
  lemma SameKeyIff(o1: Object, o2: Object)
    ensures SerializeObj(o1) == SerializeObj(o2) <==> SameStringified(o1, o2)
  {
    if SerializeObj(o1) == SerializeObj(o2) {
      SameKeyOnlyIfSameStringified(o1, o2);
    }
    if SameStringified(o1, o2) {
      SameStringifiedSameKey(o1, o2);
    }
  }

  /** Property insertion order does not matter: the same key/value pairs give the same key. */
  lemma OrderIndependent(o1: Object, o2: Object)
    requires EntrySet(o1) == EntrySet(o2)
    ensures SerializeObj(o1) == SerializeObj(o2)
  {
    forall k ensures k in KeySet(o1) <==> k in KeySet(o2) {
      KeyFromEntries(o1, o2, k);
      KeyFromEntries(o2, o1, k);
    }
    forall k | k in KeySet(o1) ensures Lookup(o1, k) == Lookup(o2, k) {
      LookupFromEntries(o1, o2, k);
    }
    SameStringifiedSameKey(o1, o2);
  }

  lemma KeyFromEntries(o1: Object, o2: Object, k: string)
    requires EntrySet(o1) == EntrySet(o2)
    ensures k in KeySet(o1) ==> k in KeySet(o2)
  {
    KeySetMember(o1, k);
    KeySetMember(o2, k);
    if k in KeySet(o1) {
      var i :| 0 <= i < |o1| && o1[i].0 == k;
      EntrySetMember(o1, o1[i]);
      EntrySetMember(o2, o1[i]);
      var j :| 0 <= j < |o2| && o2[j] == o1[i];
    }
  }

  lemma LookupFromEntries(o1: Object, o2: Object, k: string)
    requires EntrySet(o1) == EntrySet(o2) && k in KeySet(o1)
    ensures Lookup(o1, k) == Lookup(o2, k)
  {
    KeySetMember(o1, k);
    var i :| 0 <= i < |o1| && o1[i].0 == k;
    GetFromEntry(o1, i);
    EntrySetMember(o1, o1[i]);
    EntrySetMember(o2, o1[i]);
    var j :| 0 <= j < |o2| && o2[j] == o1[i];
    GetFromEntry(o2, j);
  }

  predicate AllStrings(o: Object)
  {
    forall i :: 0 <= i < |o| ==> o[i].1.JStr?
  }

  /** On string-valued objects the key is injective: equal keys mean the same key/value pairs. */
  lemma InjectiveOnStrings(o1: Object, o2: Object)
    requires AllStrings(o1) && AllStrings(o2)
    requires SerializeObj(o1) == SerializeObj(o2)
    ensures EntrySet(o1) == EntrySet(o2)
  {
    SameKeyIff(o1, o2);
    forall e | e in EntrySet(o1) ensures e in EntrySet(o2) {
      EntryMoves(o1, o2, e);
    }
    forall e | e in EntrySet(o2) ensures e in EntrySet(o1) {
      EntryMoves(o2, o1, e);
    }
  }

  lemma EntryMoves(o1: Object, o2: Object, e: Entry)
    requires AllStrings(o1) && AllStrings(o2) && SameStringified(o1, o2)
    requires e in EntrySet(o1)
    ensures e in EntrySet(o2)
  {
    EntrySetMember(o1, e);
    var i :| 0 <= i < |o1| && o1[i] == e;
    GetFromEntry(o1, i);
    KeySetMember(o1, e.0);
    KeySetMember(o2, e.0);
    var j :| 0 <= j < |o2| && o2[j].0 == e.0;
    GetFromEntry(o2, j);
    assert ToStr(Lookup(o1, e.0)) == ToStr(Lookup(o2, e.0));
    assert o2[j] == e;
    EntrySetMember(o2, e);
  }

  /** A key present in one object and absent from the other always shows in the key. */
  lemma KeysVisible(o1: Object, o2: Object, k: string)
    requires k in KeySet(o1) && k !in KeySet(o2)
    ensures SerializeObj(o1) != SerializeObj(o2)
  {
    SameKeyIff(o1, o2);
  }

  /** `String()` is applied before encoding: stringifying first changes nothing. */
  lemma StringifyKeepsKey(o: Object)
    ensures SerializeObj(Stringify(o)) == SerializeObj(o)
  {
    StringifySameStringified(o);
    SameStringifiedSameKey(Stringify(o), o);
  }

  lemma StringifySameStringified(o: Object)
    ensures SameStringified(Stringify(o), o)
  {
    var s := Stringify(o);
    forall k ensures k in KeySet(s) <==> k in KeySet(o) {
      KeySetMember(s, k);
      KeySetMember(o, k);
    }
    forall k | k in KeySet(s) ensures ToStr(Lookup(s, k)) == ToStr(Lookup(o, k)) {
      KeySetMember(s, k);
      var i :| 0 <= i < |s| && s[i].0 == k;
      GetFromEntry(s, i);
      GetFromEntry(o, i);
    }
  }

  lemma SingleCollision(k: string, v1: Value, v2: Value)
    requires ToStr(v1) == ToStr(v2)
    ensures SerializeObj([(k, v1)]) == SerializeObj([(k, v2)])
  {
    var o1: Object := [(k, v1)];
    var o2: Object := [(k, v2)];
    GetFromEntry(o1, 0);
    GetFromEntry(o2, 0);
    SameStringifiedSameKey(o1, o2);
  }

  /** `{a: 1}` and `{a: '1'}` get the same key. */
  lemma NumberCollision(k: string)
    ensures SerializeObj([(k, JNum(1))]) == SerializeObj([(k, JStr("1"))])
  {
    assert ToStr(JNum(1)) == "1";
    SingleCollision(k, JNum(1), JStr("1"));
  }

  /** `{a: null}` and `{a: 'null'}` get the same key. */
  lemma NullCollision(k: string)
    ensures SerializeObj([(k, JNull)]) == SerializeObj([(k, JStr("null"))])
  {
    SingleCollision(k, JNull, JStr("null"));
  }

  /** `{a: undefined}` and `{a: 'undefined'}` get the same key: an undefined value is kept, not dropped. */
  lemma UndefinedCollision(k: string)
    ensures SerializeObj([(k, JUndefined)]) == SerializeObj([(k, JStr("undefined"))])
  {
    SingleCollision(k, JUndefined, JStr("undefined"));
  }
}
