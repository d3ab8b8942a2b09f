/** The values that the YAML and JSON parsers hand to the program, and the
    JavaScript objects built from them. An object is an ordered dictionary:
    its keys are enumerated (and serialised) in the order they were first
    assigned, assigning an existing key keeps its place, and `delete` drops
    it. */
module Values {
  import opened Text

  type Dict<V> = seq<(string, V)>

  function Keys<V>(d: Dict<V>): (ks: seq<string>)
    ensures |ks| == |d|
    ensures forall i :: 0 <= i < |d| ==> ks[i] == d[i].0
  {
    if d == [] then [] else [d[0].0] + Keys(d[1..])
  }

  /** Property read `d[k]`: the value under the first occurrence of `k`, or
      `undefined` (None). */
  function Get<V>(d: Dict<V>, k: string): (r: Option<V>)
    ensures r.Some? <==> k in Keys(d)
    ensures r.Some? ==> (k, r.value) in d
  {
    if d == [] then None
    else if d[0].0 == k then Some(d[0].1)
    else Get(d[1..], k)
  }

  /** Property assignment `d[k] = v`: an existing key keeps its position,
      a new key goes last. */
  function Set<V>(d: Dict<V>, k: string, v: V): (r: Dict<V>)
    ensures Get(r, k) == Some(v)
    ensures forall j :: j != k ==> Get(r, j) == Get(d, j)
  {
    if d == [] then [(k, v)]
    else if d[0].0 == k then
      var r := [(k, v)] + d[1..];
      assert r[1..] == d[1..];
      r
    else
      var rest := Set(d[1..], k, v);
      var r := [d[0]] + rest;
      assert r[1..] == rest;
      r
  }

  /** An existing key keeps its place; a new key goes last. */
  lemma {:induction false} SetKeys<V>(d: Dict<V>, k: string, v: V)
    ensures k in Keys(d) ==> Keys(Set(d, k, v)) == Keys(d)
    ensures k !in Keys(d) ==> Keys(Set(d, k, v)) == Keys(d) + [k]
  {
    if d != [] && d[0].0 != k {
      SetKeys(d[1..], k, v);
      assert Keys(d) == [d[0].0] + Keys(d[1..]);
      assert Keys(Set(d, k, v)) == [d[0].0] + Keys(Set(d[1..], k, v));
    }
  }

  /** Reading the two properties of a two-property object. */
  lemma GetPair<V>(k1: string, v1: V, k2: string, v2: V)
    requires k1 != k2
    ensures Get([(k1, v1), (k2, v2)], k1) == Some(v1)
    ensures Get([(k1, v1), (k2, v2)], k2) == Some(v2)
  {
    assert [(k1, v1), (k2, v2)][1..] == [(k2, v2)];
  }

  /** `delete d[k]`: the key is gone and every other key keeps its value and
      its relative order. */
  function Remove<V>(d: Dict<V>, k: string): (r: Dict<V>)
    ensures Get(r, k) == None
    ensures forall j :: j != k ==> Get(r, j) == Get(d, j)
    ensures k !in Keys(d) ==> r == d
  {
    if d == [] then []
    else if d[0].0 == k then Remove(d[1..], k)
    else [d[0]] + Remove(d[1..], k)
  }

  /** A second assignment to a key overrides the first, in place. */
  lemma {:induction false} SetTwice<V>(d: Dict<V>, k: string, v1: V, v2: V)
    ensures Set(Set(d, k, v1), k, v2) == Set(d, k, v2)
  {
    if d != [] && d[0].0 != k {
      SetTwice(d[1..], k, v1, v2);
    }
  }

  /** Deleting a key just assigned leaves what deleting it before would. */
  lemma {:induction false} RemoveSet<V>(d: Dict<V>, k: string, v: V)
    ensures Remove(Set(d, k, v), k) == Remove(d, k)
  {
    if d != [] && d[0].0 != k {
      RemoveSet(d[1..], k, v);
    }
  }

  /** Deleting from a concatenation deletes from each part. */
  lemma {:induction false} RemoveConcat<V>(a: Dict<V>, b: Dict<V>, k: string)
    ensures Remove(a + b, k) == Remove(a, k) + Remove(b, k)
  {
    if a == [] {
      assert a + b == b;
    } else {
      ConcatHead(a, b);
      RemoveConcat(a[1..], b, k);
      if a[0].0 != k {
        ConcatHead([a[0]] + Remove(a[1..], k), Remove(b, k));
      }
    }
  }

  /** Reading a key of a concatenation finds it in the first part when it is
      there, and in the second otherwise. */
  lemma {:induction false} GetConcat<V>(a: Dict<V>, b: Dict<V>, k: string)
    ensures Get(a + b, k) == if Get(a, k).Some? then Get(a, k) else Get(b, k)
  {
    if a == [] {
      assert a + b == b;
    } else {
      ConcatHead(a, b);
      GetConcat(a[1..], b, k);
    }
  }

  /** A JavaScript object never holds the same key twice. */
  predicate UniqueKeys<V>(d: Dict<V>) {
    Distinct(Keys(d))
  }

  lemma {:induction false} SetKeepsUniqueKeys<V>(d: Dict<V>, k: string, v: V)
    requires UniqueKeys(d)
    ensures UniqueKeys(Set(d, k, v))
  {
    var r := Set(d, k, v);
    SetKeys(d, k, v);
    if k !in Keys(d) {
      assert Keys(r) == Keys(d) + [k];
    }
  }

  /** Assigning a key the value it already holds changes nothing. */
  lemma {:induction false} SetSame<V>(d: Dict<V>, k: string, v: V)
    requires Get(d, k) == Some(v)
    ensures Set(d, k, v) == d
  {
    if d != [] && d[0].0 != k {
      SetSame(d[1..], k, v);
    }
  }

  datatype Value =
    | Null
    | Bool(b: bool)
    | Num(n: real)
    | Str(s: string)
    | Arr(items: seq<Value>)
    | Obj(fields: Dict<Value>)

  /** JavaScript truthiness: `null`, `false`, `0` and `""` are falsy, every
      array and object is truthy. */
  predicate Truthy(v: Value) {
    match v
    case Null => false
    case Bool(b) => b
    case Num(n) => n != 0.0
    case Str(s) => s != ""
    case Arr(_) => true
    case Obj(_) => true
  }

  /** `v.k` for a property the program reads: only objects have own
      properties of the names this program uses; on anything else the read
      gives `undefined` (None). */
  function Prop(v: Value, k: string): (r: Option<Value>)
    ensures r.Some? ==> v.Obj? && k in Keys(v.fields)
  {
    if v.Obj? then Get(v.fields, k) else None
  }

  /** `x || fallback` for a property that may be missing. */
  function OrElse(x: Option<Value>, fallback: Value): (r: Value)
    ensures x.Some? && Truthy(x.value) ==> r == x.value
    ensures !(x.Some? && Truthy(x.value)) ==> r == fallback
  {
    if x.Some? && Truthy(x.value) then x.value else fallback
  }

  /** The string members of an array, in order: `filter(item => typeof item
      === "string")`. */
  function Strings(items: seq<Value>): (r: seq<string>)
    ensures |r| <= |items|
    ensures forall s :: s in r <==> Str(s) in items
  {
    if items == [] then []
    else
      var rest := Strings(items[..|items| - 1]);
      assert items == items[..|items| - 1] + [items[|items| - 1]];
      match items[|items| - 1]
      case Str(s) => rest + [s]
      case _ => rest
  }

  /** Filtering keeps the order: the strings of one run of items followed by
      another are the first run's strings, then the second's. */
  lemma {:induction false} StringsConcat(a: seq<Value>, b: seq<Value>)
    ensures Strings(a + b) == Strings(a) + Strings(b)
    decreases |b|
  {
    if b == [] {
      assert a + b == a;
    } else {
      var front := b[..|b| - 1];
      assert (a + b)[..|a + b| - 1] == a + front && (a + b)[|a + b| - 1] == b[|b| - 1];
      StringsConcat(a, front);
    }
  }

  /** One item is kept exactly when it is a string. */
  lemma StringsOne(v: Value)
    ensures Strings([v]) == if v.Str? then [v.s] else []
  {
    assert [v][..0] == [];
  }

  /** Filtering keeps the strings in the order the array holds them: an array
      of strings only comes back whole. */
  lemma {:induction false} StringsOfStrings(ss: seq<string>)
    ensures Strings(seq(|ss|, i requires 0 <= i < |ss| => Str(ss[i]))) == ss
  {
    if ss != [] {
      var items := seq(|ss|, i requires 0 <= i < |ss| => Str(ss[i]));
      var front := ss[..|ss| - 1];
      StringsOfStrings(front);
      assert items[..|items| - 1] == seq(|front|, i requires 0 <= i < |front| => Str(front[i]));
      assert ss == front + [ss[|ss| - 1]];
    }
  }
}
