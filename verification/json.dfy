/**
 * JSON values as Python's `json.loads` returns them. Objects are association
 * lists in insertion order, which is how Python dictionaries iterate.
 */
module Json {
  import opened Wrappers

  datatype Json =
    | JNull
    | JBool(b: bool)
    | JNum(n: real)
    | JStr(s: string)
    | JArr(items: seq<Json>)
    | JObj(members: seq<Member>)

  datatype Member = Member(key: string, value: Json)

  /** Python truthiness of a decoded value (`if value:`). */
  predicate Truthy(j: Json) {
    match j
    case JNull => false
    case JBool(b) => b
    case JNum(n) => n != 0.0
    case JStr(s) => |s| > 0
    case JArr(items) => |items| > 0
    case JObj(members) => |members| > 0
  }

  /** Python values that can be dictionary keys (lists and dicts cannot). */
  predicate Hashable(j: Json) {
    !j.JArr? && !j.JObj?
  }

  function Keys(ms: seq<Member>): (ks: seq<string>)
    ensures |ks| == |ms|
    ensures forall i :: 0 <= i < |ms| ==> ks[i] == ms[i].key
  {
    seq(|ms|, i requires 0 <= i < |ms| => ms[i].key)
  }

  /** No key occurs twice, as in every Python dictionary. */
  predicate UniqueKeys(ms: seq<Member>) {
    forall i, j :: 0 <= i < j < |ms| ==> ms[i].key != ms[j].key
  }

  /** `d.get(k)`: the value stored under `k`, if any. */
  function Lookup(ms: seq<Member>, k: string): (r: Option<Json>)
    ensures r.None? <==> k !in Keys(ms)
    ensures r.Some? ==> exists i :: 0 <= i < |ms| && ms[i] == Member(k, r.value)
  {
    if |ms| == 0 then None
    else if ms[0].key == k then Some(ms[0].value)
    else
      var r := Lookup(ms[1..], k);
      assert Keys(ms) == [ms[0].key] + Keys(ms[1..]);
      r
  }

  /** `d.get(k, default)`. */
  function GetOr(ms: seq<Member>, k: string, default: Json): Json {
    Lookup(ms, k).GetOr(default)
  }

  /** `d[k] = v`: an existing key keeps its position, a new key goes last. */
  function Put(ms: seq<Member>, k: string, v: Json): (r: seq<Member>)
    ensures Keys(r) == if k in Keys(ms) then Keys(ms) else Keys(ms) + [k]
  {
    if |ms| == 0 then [Member(k, v)]
    else if ms[0].key == k then
      KeysCons(Member(k, v), ms[1..]);
      KeysCons(ms[0], ms[1..]);
      [Member(k, v)] + ms[1..]
    else
      var rest := Put(ms[1..], k, v);
      PutKeysStep(ms, k, rest);
      [ms[0]] + rest
  }

  lemma KeysCons(m: Member, ms: seq<Member>)
    ensures Keys([m] + ms) == [m.key] + Keys(ms)
  {
  }

  /** Keeping the first entry in front of the updated rest keeps the key order. */
  lemma PutKeysStep(ms: seq<Member>, k: string, rest: seq<Member>)
    requires |ms| > 0 && ms[0].key != k
    requires Keys(rest) == if k in Keys(ms[1..]) then Keys(ms[1..]) else Keys(ms[1..]) + [k]
    ensures Keys([ms[0]] + rest) == if k in Keys(ms) then Keys(ms) else Keys(ms) + [k]
  {
    KeysCons(ms[0], rest);
    KeysCons(ms[0], ms[1..]);
    assert [ms[0]] + ms[1..] == ms;
    assert (k in Keys(ms)) == (k in Keys(ms[1..]));
    if k !in Keys(ms) {
      assert [ms[0].key] + (Keys(ms[1..]) + [k]) == ([ms[0].key] + Keys(ms[1..])) + [k];
    }
  }

  /** After `d[k] = v`, `d.get(k)` is `v` and every other key reads as before. */
  lemma {:induction false} PutLookup(ms: seq<Member>, k: string, v: Json, k': string)
    ensures Lookup(Put(ms, k, v), k') == if k' == k then Some(v) else Lookup(ms, k')
  {
    if |ms| > 0 && ms[0].key != k {
      PutLookup(ms[1..], k, v, k');
    }
  }

  /** Every key other than `k` reads the same in `a` as in `b`. */
  ghost predicate AgreeExcept(a: seq<Member>, b: seq<Member>, k: string) {
    forall k' :: k' != k ==> Lookup(a, k') == Lookup(b, k')
  }

  /** Assignment to `k` leaves what every other key reads unchanged. */
  lemma PutKeepsOthers(ms: seq<Member>, k: string, v: Json)
    ensures AgreeExcept(Put(ms, k, v), ms, k)
  {
    forall k' | k' != k ensures Lookup(Put(ms, k, v), k') == Lookup(ms, k') {
      PutLookup(ms, k, v, k');
    }
  }

  /** Assignment never creates a duplicate key. */
  lemma PutKeepsKeysUnique(ms: seq<Member>, k: string, v: Json)
    requires UniqueKeys(ms)
    ensures UniqueKeys(Put(ms, k, v))
  {
    var r := Put(ms, k, v);
    forall i, j | 0 <= i < j < |r| ensures r[i].key != r[j].key {
      assert Keys(r)[i] == r[i].key && Keys(r)[j] == r[j].key;
      if k in Keys(ms) {
        assert Keys(ms)[i] == ms[i].key && Keys(ms)[j] == ms[j].key;
      } else if j < |ms| {
        assert Keys(ms)[i] == ms[i].key && Keys(ms)[j] == ms[j].key;
      } else {
        assert Keys(ms)[i] == ms[i].key;
      }
    }
  }
}
