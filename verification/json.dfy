/** A JSON value as a tree, the shape jakarta.json's JsonObject and
    JsonArray give a document. Object members keep their insertion order. */
module JsonTree {
  import opened Wrappers

  datatype Json =
    | JNull
    | JBool(b: bool)
    | JNumber(n: int)
    | JString(s: string)
    | JArray(items: seq<Json>)
    | JObject(members: seq<(string, Json)>)

  /** The value stored under key. A parsed JsonObject holds each key once;
      the first member with the key is taken. */
  function Lookup(ms: seq<(string, Json)>, key: string): Option<Json> {
    if |ms| == 0 then None
    else if ms[0].0 == key then Some(ms[0].1)
    else Lookup(ms[1..], key)
  }

  /** A lookup succeeds exactly when some member carries the key, and what it
      finds is the value of such a member. */
  lemma {:induction false} LookupSpec(ms: seq<(string, Json)>, key: string)
    ensures Lookup(ms, key).Some? <==> exists i :: 0 <= i < |ms| && ms[i].0 == key
    ensures Lookup(ms, key).Some? ==> exists i :: 0 <= i < |ms| && ms[i] == (key, Lookup(ms, key).value)
    decreases |ms|
  {
    if |ms| > 0 && ms[0].0 != key {
      LookupSpec(ms[1..], key);
      assert forall i :: 0 < i < |ms| ==> ms[i] == ms[1..][i - 1];
      if exists i :: 0 <= i < |ms| && ms[i].0 == key {
        var i :| 0 <= i < |ms| && ms[i].0 == key;
        assert ms[1..][i - 1].0 == key;
      }
    }
  }

  lemma {:induction false} LookupAppend(a: seq<(string, Json)>, b: seq<(string, Json)>, key: string)
    ensures Lookup(a + b, key) == if Lookup(a, key).Some? then Lookup(a, key) else Lookup(b, key)
    decreases |a|
  {
    if |a| == 0 {
      assert a + b == b;
    } else {
      assert (a + b)[1..] == a[1..] + b;
      LookupAppend(a[1..], b, key);
    }
  }

  /** The first member with the key decides the lookup. */
  lemma {:induction false} LookupFirst(ms: seq<(string, Json)>, i: nat, key: string)
    requires i < |ms| && ms[i].0 == key
    requires forall j :: 0 <= j < i ==> ms[j].0 != key
    ensures Lookup(ms, key) == Some(ms[i].1)
    decreases i
  {
    if i > 0 {
      LookupFirst(ms[1..], i - 1, key);
    }
  }

  function Keys(ms: seq<(string, Json)>): (ks: seq<string>)
    ensures |ks| == |ms| && forall i :: 0 <= i < |ms| ==> ks[i] == ms[i].0
  {
    seq(|ms|, i requires 0 <= i < |ms| => ms[i].0)
  }

  /** Lookup by position: the key at i does not occur before i. */
  lemma KeyAt(ms: seq<(string, Json)>, i: nat)
    requires i < |ms| && Keys(ms)[i] !in Keys(ms)[..i]
    ensures Lookup(ms, ms[i].0) == Some(ms[i].1)
  {
    var ks := Keys(ms);
    forall j | 0 <= j < i
      ensures ms[j].0 != ms[i].0
    {
      assert ks[..i][j] == ks[j];
    }
    LookupFirst(ms, i, ms[i].0);
  }

  lemma KeyAbsent(ms: seq<(string, Json)>, key: string)
    requires key !in Keys(ms)
    ensures Lookup(ms, key).None?
  {
    LookupSpec(ms, key);
  }

  /** No JSON null anywhere in the tree. */
  predicate NullFree(j: Json)
    decreases j
  {
    match j
    case JNull => false
    case JArray(items) => forall i :: 0 <= i < |items| ==> NullFree(items[i])
    case JObject(ms) => forall i :: 0 <= i < |ms| ==> NullFree(ms[i].1)
    case _ => true
  }
}
