/**
 * JavaScript values as they occur in the dashboard's flat filter and pair-identity
 * objects, the `String()` coercion applied to them, and plain objects as ordered
 * lists of distinct-keyed properties (property order is the insertion order that
 * `Object.keys` and `Object.entries` report).
 */
module JsValues {

  datatype Option<+T> = None | Some(value: T)

  /** A scalar JavaScript value. Numbers are modelled by their integer value. */
  datatype Value = JStr(s: string) | JNum(n: int) | JBool(b: bool) | JNull | JUndefined

  predicate IsDigit(c: char) { '0' <= c <= '9' }

  function DigitChar(d: int): (c: char)
    requires 0 <= d < 10
    ensures IsDigit(c)
  {
    "0123456789"[d]
  }

  /** Decimal rendering of a natural number, without leading zeros. */
  function NatToString(n: nat): (r: string)
    ensures |r| >= 1
    ensures forall i :: 0 <= i < |r| ==> IsDigit(r[i])
    ensures n >= 10 ==> r[0] != '0'
    decreases n
  {
    if n < 10 then [DigitChar(n)] else NatToString(n / 10) + [DigitChar(n % 10)]
  }

  /** `String(v)` */
  function ToStr(v: Value): string
  {
    match v
    case JStr(s) => s
    case JNum(n) => if n < 0 then "-" + NatToString(-n) else NatToString(n)
    case JBool(b) => if b then "true" else "false"
    case JNull => "null"
    case JUndefined => "undefined"
  }

  /** JavaScript truthiness (`if (v)`, `v || d`). */
  predicate Truthy(v: Value)
  {
    match v
    case JStr(s) => s != ""
    case JNum(n) => n != 0
    case JBool(b) => b
    case JNull => false
    case JUndefined => false
  }

  type Entry = (string, Value)

  predicate DistinctKeys(es: seq<Entry>)
  {
    forall i, j :: 0 <= i < j < |es| ==> es[i].0 != es[j].0
  }

  /** A plain object: its own properties in insertion order; no key occurs twice. */
  type Object = es: seq<Entry> | DistinctKeys(es) witness []

  /** The set of keys of an entry list. */
  function KeySet(o: seq<Entry>): set<string>
  {
    if |o| == 0 then {} else {o[0].0} + KeySet(o[1..])
  }

  lemma {:induction false} KeySetMember(o: seq<Entry>, k: string)
    ensures k in KeySet(o) <==> exists i :: 0 <= i < |o| && o[i].0 == k
  {
    if |o| > 0 {
      KeySetMember(o[1..], k);
      if k in KeySet(o[1..]) {
        var i :| 0 <= i < |o[1..]| && o[1..][i].0 == k;
        assert o[i + 1].0 == k;
      }
      if exists i :: 0 <= i < |o| && o[i].0 == k {
        var i :| 0 <= i < |o| && o[i].0 == k;
        if i > 0 { assert o[1..][i - 1].0 == k; }
      }
    }
  }

  lemma ConsDistinct(e: Entry, rest: Object)
    requires e.0 !in KeySet(rest)
    ensures DistinctKeys([e] + rest)
  {
    forall j | 0 <= j < |rest| ensures rest[j].0 != e.0 {
      KeySetMember(rest, rest[j].0);
    }
  }

  lemma TailDistinct(o: Object)
    requires |o| > 0
    ensures DistinctKeys(o[1..]) && o[0].0 !in KeySet(o[1..])
  {
    forall i | 0 <= i < |o[1..]| ensures o[1..][i].0 != o[0].0 {
      assert o[1..][i] == o[i + 1];
    }
    KeySetMember(o[1..], o[0].0);
  }

  /** `Object.keys(o)` */
  function KeysOf(o: seq<Entry>): (ks: seq<string>)
    ensures |ks| == |o|
    ensures forall i :: 0 <= i < |o| ==> ks[i] == o[i].0
  {
    if |o| == 0 then [] else [o[0].0] + KeysOf(o[1..])
  }

  /** The set of (key, value) pairs of an object, forgetting their order. */
  function EntrySet(o: seq<Entry>): set<Entry>
  {
    if |o| == 0 then {} else {o[0]} + EntrySet(o[1..])
  }

  lemma {:induction false} EntrySetMember(o: seq<Entry>, e: Entry)
    ensures e in EntrySet(o) <==> e in o
  {
    if |o| > 0 {
      EntrySetMember(o[1..], e);
      assert o == [o[0]] + o[1..];
    }
  }

  /** Own-property lookup: `Some(v)` when the key is present. */
  function Get(o: Object, k: string): (r: Option<Value>)
    ensures r.Some? <==> k in KeySet(o)
    ensures r.Some? ==> (k, r.value) in o
  {
    if |o| == 0 then None
    else if o[0].0 == k then Some(o[0].1)
    else
      TailDistinct(o);
      Get(o[1..], k)
  }

  /** Property access `o[k]`: `undefined` for a missing key. */
  function Lookup(o: Object, k: string): Value
  {
    match Get(o, k)
    case Some(v) => v
    case None => JUndefined
  }

  lemma {:induction false} GetFromEntry(o: Object, i: int)
    requires 0 <= i < |o|
    ensures Get(o, o[i].0) == Some(o[i].1)
  {
    TailDistinct(o);
    if i > 0 {
      assert o[i].0 != o[0].0;
      GetFromEntry(o[1..], i - 1);
    }
  }

  /** Assignment `o[k] = v`: an existing property keeps its place, a new one goes last. */
  function Set(o: Object, k: string, v: Value): (r: Object)
    ensures KeySet(r) == KeySet(o) + {k}
    ensures Get(r, k) == Some(v)
    ensures forall k' :: k' != k ==> Get(r, k') == Get(o, k')
  {
    if |o| == 0 then [(k, v)]
    else
      TailDistinct(o);
      var tail: Object := o[1..];
      if o[0].0 == k then
        ConsDistinct((k, v), tail);
        var r: Object := [(k, v)] + tail;
        assert r[1..] == tail;
        r
      else
        var rest := Set(tail, k, v);
        ConsDistinct(o[0], rest);
        var r: Object := [o[0]] + rest;
        assert r[1..] == rest;
        r
  }

  /** Assigning to a property other than the first: the first keeps its place. */
  lemma SetPastHead(o: Object, k: string, v: Value)
    requires |o| > 0 && o[0].0 != k
    ensures DistinctKeys(o[1..])
    ensures KeysOf(Set(o, k, v)) == [o[0].0] + KeysOf(Set(o[1..], k, v))
    ensures KeysOf(o) == [o[0].0] + KeysOf(o[1..])
    ensures k in KeySet(o) <==> k in KeySet(o[1..])
  {
    TailDistinct(o);
    var rest := Set(o[1..], k, v);
    assert Set(o, k, v) == [o[0]] + rest;
    assert ([o[0]] + rest)[1..] == rest;
  }

  /** Assigning to the first property keeps every key where it was. */
  lemma SetAtHead(o: Object, v: Value)
    requires |o| > 0
    ensures KeysOf(Set(o, o[0].0, v)) == KeysOf(o)
  {
    TailDistinct(o);
    var tail: Object := o[1..];
    assert Set(o, o[0].0, v) == [(o[0].0, v)] + tail;
    assert ([(o[0].0, v)] + tail)[1..] == tail;
  }

  /** An existing property keeps its place; a new one is appended. */
  lemma {:induction false} SetKeepsOrder(o: Object, k: string, v: Value)
    ensures k in KeySet(o) ==> KeysOf(Set(o, k, v)) == KeysOf(o)
    ensures k !in KeySet(o) ==> KeysOf(Set(o, k, v)) == KeysOf(o) + [k]
  {
    if |o| > 0 {
      if o[0].0 != k {
        SetPastHead(o, k, v);
        var tail: Object := o[1..];
        SetKeepsOrder(tail, k, v);
        if k !in KeySet(o) {
          assert KeysOf(Set(o, k, v)) == [o[0].0] + (KeysOf(tail) + [k]);
          assert [o[0].0] + (KeysOf(tail) + [k]) == ([o[0].0] + KeysOf(tail)) + [k];
        }
      } else {
        SetAtHead(o, v);
        assert k in KeySet(o);
      }
    }
  }

  /** `delete o[k]`: the remaining properties keep their order. */
  function Delete(o: Object, k: string): (r: Object)
    ensures KeySet(r) == KeySet(o) - {k}
    ensures Get(r, k) == None
    ensures forall k' :: k' != k ==> Get(r, k') == Get(o, k')
    ensures EntrySet(r) <= EntrySet(o)
  {
    if |o| == 0 then []
    else
      TailDistinct(o);
      var tail: Object := o[1..];
      if o[0].0 == k then tail
      else
        var rest := Delete(tail, k);
        ConsDistinct(o[0], rest);
        [o[0]] + rest
  }

  /** Assigning the same value twice is assigning it once. */
  lemma {:induction false} SetIdempotent(o: Object, k: string, v: Value)
    ensures Set(Set(o, k, v), k, v) == Set(o, k, v)
  {
    if |o| == 0 {
      SetUnfold([(k, v)], k, v);
    } else {
      SetUnfold(o, k, v);
      var tail: Object := o[1..];
      var r := Set(o, k, v);
      SetUnfold(r, k, v);
      if o[0].0 != k {
        assert r[1..] == Set(tail, k, v);
        SetIdempotent(tail, k, v);
      } else {
        assert r[1..] == tail;
      }
    }
  }

  /** One step of `Set`. */
  lemma SetUnfold(o: Object, k: string, v: Value)
    requires |o| > 0
    ensures DistinctKeys(o[1..])
    ensures o[0].0 == k ==> Set(o, k, v) == [(k, v)] + o[1..]
    ensures o[0].0 != k ==> Set(o, k, v) == [o[0]] + Set(o[1..], k, v)
  {
    TailDistinct(o);
  }

  /** Deleting a property the object does not have changes nothing. */
  lemma {:induction false} DeleteAbsent(o: Object, k: string)
    requires k !in KeySet(o)
    ensures Delete(o, k) == o
  {
    if |o| > 0 {
      TailDistinct(o);
      var tail: Object := o[1..];
      assert k in KeySet(o) <== k in KeySet(tail);
      DeleteAbsent(tail, k);
      assert o == [o[0]] + tail;
    }
  }

  /** Deleting twice is deleting once. */
  lemma DeleteIdempotent(o: Object, k: string)
    ensures Delete(Delete(o, k), k) == Delete(o, k)
  {
    DeleteAbsent(Delete(o, k), k);
  }

  /** `Object.entries(o).reduce((acc, [k, v]) => { acc[k] = String(v); ... }, {})` */
  function Stringify(o: Object): (r: Object)
    ensures KeysOf(r) == KeysOf(o)
    ensures forall i :: 0 <= i < |r| ==> r[i].1 == JStr(ToStr(o[i].1))
  {
    if |o| == 0 then []
    else
      TailDistinct(o);
      var rest := Stringify(o[1..]);
      KeySetMember(rest, o[0].0);
      KeySetMember(o[1..], o[0].0);
      ConsDistinct((o[0].0, JStr(ToStr(o[0].1))), rest);
      [(o[0].0, JStr(ToStr(o[0].1)))] + rest
  }
}
