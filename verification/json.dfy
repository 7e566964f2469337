/** A parsed JSON document. The text grammar is not modelled: both ends of
    the relay exchange values of this type, and what `JSON.parse`,
    `JSON.stringify`, `serde_json::from_str` and `to_string` do to the text
    is left to those libraries. */
module Json {
  import opened Wrappers

  datatype Json =
    | JNull
    | JBool(b: bool)
      /** A number written without fraction or exponent. */
    | JInt(i: int)
      /** Any other number. */
    | JFloat(r: real)
    | JStr(s: string)
    | JArr(items: seq<Json>)
      /** Members in document order; a repeated name is kept. */
    | JObj(members: seq<(string, Json)>)

  /** The values of every member named `key`, in document order. */
  function ValuesOf(members: seq<(string, Json)>, key: string): (r: seq<Json>)
    ensures |r| <= |members|
    ensures forall i :: 0 <= i < |members| && members[i].0 == key ==> members[i].1 in r
    ensures forall v :: v in r ==> exists i :: 0 <= i < |members| && members[i] == (key, v)
  {
    if members == [] then []
    else
      var rest := ValuesOf(members[1..], key);
      if members[0].0 == key then [members[0].1] + rest else rest
  }

  /** The members of `ms` have pairwise different names. */
  predicate DistinctNames(ms: seq<(string, Json)>)
  {
    forall i, j :: 0 <= i < j < |ms| ==> ms[i].0 != ms[j].0
  }

  /** In an object without repeated names each name has its one value. */
  lemma {:induction false} DistinctValues(ms: seq<(string, Json)>)
    requires DistinctNames(ms)
    ensures forall i :: 0 <= i < |ms| ==> ValuesOf(ms, ms[i].0) == [ms[i].1]
  {
    if ms != [] {
      DistinctValues(ms[1..]);
      forall i | 0 <= i < |ms|
        ensures ValuesOf(ms, ms[i].0) == [ms[i].1]
      {
        if i == 0 {
          ValuesOfAbsent(ms[1..], ms[0].0);
        } else {
          assert ms[1..][i - 1] == ms[i];
        }
      }
    }
  }

  /** Appending members of other names leaves the values of `key` alone. */
  lemma {:induction false} ValuesOfAppendAbsent(a: seq<(string, Json)>, b: seq<(string, Json)>, key: string)
    requires forall i :: 0 <= i < |b| ==> b[i].0 != key
    ensures ValuesOf(a + b, key) == ValuesOf(a, key)
  {
    if a == [] {
      assert a + b == b;
      ValuesOfAbsent(b, key);
    } else {
      assert (a + b)[1..] == a[1..] + b;
      ValuesOfAppendAbsent(a[1..], b, key);
    }
  }

  /** A name no member carries has no values. */
  lemma {:induction false} ValuesOfAbsent(b: seq<(string, Json)>, key: string)
    requires forall i :: 0 <= i < |b| ==> b[i].0 != key
    ensures ValuesOf(b, key) == []
  {
    if b != [] {
      ValuesOfAbsent(b[1..], key);
    }
  }

  /** Some member of `ms` is named `key`. */
  predicate HasName(ms: seq<(string, Json)>, key: string)
  {
    exists i :: 0 <= i < |ms| && ms[i].0 == key
  }

  /** Member `i` of `ms` is the last one named `key`. */
  predicate IsLastOf(ms: seq<(string, Json)>, key: string, i: int)
  {
    0 <= i < |ms| && ms[i].0 == key && forall j :: i < j < |ms| ==> ms[j].0 != key
  }

  /** JavaScript's `obj[key]` on an object from `JSON.parse`: the last
      member of that name wins; `None` stands for `undefined`. */
  function LastValue(members: seq<(string, Json)>, key: string): (r: Option<Json>)
    ensures r.Some? <==> HasName(members, key)
    ensures r.Some? ==> exists i :: IsLastOf(members, key, i) && members[i].1 == r.value
    decreases |members|
  {
    if members == [] then None
    else
      var n := |members| - 1;
      if members[n].0 == key then
        assert IsLastOf(members, key, n);
        Some(members[n].1)
      else
        var r := LastValue(members[..n], key);
        LastOfPrefix(members, key);
        r
  }

  /** Below a last member of another name, names and last members are
      those of the rest. */
  lemma LastOfPrefix(ms: seq<(string, Json)>, key: string)
    requires ms != [] && ms[|ms| - 1].0 != key
    ensures HasName(ms, key) <==> HasName(ms[..|ms| - 1], key)
    ensures forall i :: IsLastOf(ms[..|ms| - 1], key, i) ==> IsLastOf(ms, key, i)
  {
    var p := ms[..|ms| - 1];
    if HasName(ms, key) {
      var i :| 0 <= i < |ms| && ms[i].0 == key;
      assert p[i] == ms[i];
    }
    if HasName(p, key) {
      var i :| 0 <= i < |p| && p[i].0 == key;
      assert ms[i] == p[i];
    }
  }

  /** A name written once reads back as its one value. */
  lemma LastOfOne(members: seq<(string, Json)>, key: string, v: Json)
    requires ValuesOf(members, key) == [v]
    ensures LastValue(members, key) == Some(v)
  {
    var i :| 0 <= i < |members| && members[i] == (key, v);
    assert HasName(members, key);
    var w := LastValue(members, key).value;
    var k :| IsLastOf(members, key, k) && members[k].1 == w;
    assert 0 <= k < |members| && members[k].0 == key;
    assert w in ValuesOf(members, key);
  }

  /** How `JSON.stringify` writes a JavaScript number: an integral value
      below 1e21 in magnitude prints as an integer, anything else with a
      fraction or an exponent. */
  function JsNumber(x: real): (r: Json)
    ensures r.JInt? || r.JFloat?
    ensures r.JInt? <==> x == x.Floor as real && -1e21 < x < 1e21
    ensures r.JInt? ==> r.i as real == x
  {
    if x == x.Floor as real && -1e21 < x < 1e21 then JInt(x.Floor) else JFloat(x)
  }
}
