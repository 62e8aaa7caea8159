/**
  The query-string serialiser of the menu client (`paramsSerializer`): it
  walks the keys of a parameter object in order and appends `(key, value)`
  pairs to a `URLSearchParams` buffer — one pair per element for an array,
  one pair for any other value except `undefined` and the empty string.
  Values are turned into text the way JavaScript's `String(...)` does.
*/
module Params {

  /** The JavaScript values a parameter or an array element can hold here; numbers are integers. */
  datatype Scalar = Undefined | Null | Bool(b: bool) | Num(n: int) | Str(s: string)

  /** A parameter's value: an array of scalars, or a single scalar. */
  datatype Value = Many(elements: seq<Scalar>) | Single(scalar: Scalar)

  /** A parameter object, its keys in iteration order. */
  type ParamList = seq<(string, Value)>

  /** The `(name, value)` pairs of a `URLSearchParams`, in order. */
  type Pairs = seq<(string, string)>

  /** The text of a decimal digit. */
  function DigitChar(d: int): char
    requires 0 <= d < 10
  {
    "0123456789"[d]
  }

  /** A natural number in decimal, without leading zeros. */
  function NatText(n: nat): (r: string)
    ensures r != []
    ensures forall i :: 0 <= i < |r| ==> '0' <= r[i] <= '9'
    ensures |r| > 1 ==> r[0] != '0'
  {
    if n < 10 then [DigitChar(n)] else NatText(n / 10) + [DigitChar(n % 10)]
  }

  /** The number a string of decimal digits denotes. */
  function DigitsValue(s: string): nat
    requires forall i :: 0 <= i < |s| ==> '0' <= s[i] <= '9'
  {
    if s == [] then 0 else 10 * DigitsValue(s[..|s| - 1]) + (s[|s| - 1] as int - '0' as int)
  }

  /** Reading the decimal text of `n` back gives `n`. */
  lemma {:induction false} NatTextValue(n: nat)
    ensures DigitsValue(NatText(n)) == n
  {
    if n >= 10 {
      NatTextValue(n / 10);
      var r := NatText(n);
      assert r[..|r| - 1] == NatText(n / 10);
    }
  }

  /** `String(...)` of a scalar. */
  function ToText(v: Scalar): string {
    match v
    case Undefined => "undefined"
    case Null => "null"
    case Bool(b) => if b then "true" else "false"
    case Num(n) => if n < 0 then "-" + NatText(-n) else NatText(n)
    case Str(s) => s
  }

  /** A scalar that the serialiser drops: `undefined` or `""` (compared with `!==`, so `0`, `null` and `false` stay). */
  predicate Omitted(v: Scalar) {
    v == Undefined || v == Str("")
  }

  /** The pairs one key contributes. */
  function Contribution(key: string, value: Value): Pairs {
    match value
    case Many(vs) => seq(|vs|, i requires 0 <= i < |vs| => (key, ToText(vs[i])))
    case Single(v) => if Omitted(v) then [] else [(key, ToText(v))]
  }

  /** A key of a parameter object with its value. */
  type Entry = (string, Value)

  /** The pairs one entry contributes. */
  function Contribute(entry: Entry): Pairs {
    Contribution(entry.0, entry.1)
  }

  /** `f` applied to every entry, the results concatenated in order. */
  function Join<T>(entries: seq<Entry>, f: Entry -> seq<T>): seq<T> {
    if entries == [] then [] else Join(entries[..|entries| - 1], f) + f(entries[|entries| - 1])
  }

  /** The pairs of a parameter object: the contributions of its keys, one after the other. */
  function Serialized(params: ParamList): Pairs {
    Join(params, Contribute)
  }

  /**
    `paramsSerializer`, up to the final `toString()`: the pairs the loop
    appends to the buffer, in order.
  */
  method ParamsSerializer(params: ParamList) returns (searchParams: Pairs)
    ensures searchParams == Serialized(params)
  {
    searchParams := [];
    var k := 0;
    while k < |params|
      invariant 0 <= k <= |params|
      invariant searchParams == Join(params[..k], Contribute)
    {
      var (key, value) := params[k];
      JoinNext(params, k, Contribute);
      ghost var before := searchParams;
      if value.Many? {
        searchParams := AppendEach(searchParams, key, value.elements);
      } else if value.scalar != Undefined && value.scalar != Str("") {
        searchParams := searchParams + [(key, ToText(value.scalar))];
      }
      assert searchParams == before + Contribute(params[k]);
      k := k + 1;
    }
    assert params[..|params|] == params;
  }

  /** `value.forEach((val) => searchParams.append(key, val))`. */
  method AppendEach(searchParams: Pairs, key: string, vs: seq<Scalar>) returns (out: Pairs)
    ensures out == searchParams + Contribution(key, Many(vs))
  {
    out := searchParams;
    var j := 0;
    while j < |vs|
      invariant 0 <= j <= |vs|
      invariant out == searchParams + Contribution(key, Many(vs[..j]))
    {
      ManyNext(key, vs, j);
      out := out + [(key, ToText(vs[j]))];
      j := j + 1;
    }
    assert vs[..|vs|] == vs;
  }

  lemma JoinNext<T>(entries: seq<Entry>, k: nat, f: Entry -> seq<T>)
    requires k < |entries|
    ensures Join(entries[..k + 1], f) == Join(entries[..k], f) + f(entries[k])
  {
    assert entries[..k + 1][..k] == entries[..k];
  }

  lemma ManyNext(key: string, vs: seq<Scalar>, j: nat)
    requires j < |vs|
    ensures Contribution(key, Many(vs[..j + 1])) == Contribution(key, Many(vs[..j])) + [(key, ToText(vs[j]))]
  {
  }

  /** An array contributes one pair per element, under its key and in its order; an empty array contributes nothing. */
  lemma ArrayContribution(key: string, vs: seq<Scalar>)
    ensures |Contribution(key, Many(vs))| == |vs|
    ensures forall i :: 0 <= i < |vs| ==> Contribution(key, Many(vs))[i] == (key, ToText(vs[i]))
  {
  }

  /** A scalar is dropped exactly when it is `undefined` or `""`; `0` is sent as "0". */
  lemma ScalarContribution(key: string, v: Scalar)
    ensures Contribution(key, Single(v)) == [] <==> v == Undefined || v == Str("")
    ensures !Omitted(v) ==> Contribution(key, Single(v)) == [(key, ToText(v))]
    ensures Contribution(key, Single(Num(0))) == [(key, "0")]
  {
  }

  lemma {:induction false} JoinAppend<T>(a: seq<Entry>, b: seq<Entry>, f: Entry -> seq<T>)
    ensures Join(a + b, f) == Join(a, f) + Join(b, f)
    decreases |b|
  {
    if b == [] {
      assert a + b == a;
    } else {
      var b', last := b[..|b| - 1], b[|b| - 1];
      calc {
        Join(a + b, f);
        { assert (a + b)[..|a + b| - 1] == a + b'; }
        Join(a + b', f) + f(last);
        { JoinAppend(a, b', f); }
        Join(a, f) + Join(b', f) + f(last);
        Join(a, f) + Join(b, f);
      }
    }
  }

  /**
    The pairs follow the keys' order, and the pairs of each key are
    contiguous: those of key `i` come after those of every earlier key and
    before those of every later one.
  */
  lemma SerializedSplit(params: ParamList, i: nat)
    requires i < |params|
    ensures Serialized(params) ==
      Serialized(params[..i]) + Contribution(params[i].0, params[i].1) + Serialized(params[i + 1..])
  {
    assert params == params[..i + 1] + params[i + 1..];
    JoinAppend(params[..i + 1], params[i + 1..], Contribute);
    JoinNext(params, i, Contribute);
  }

  /** The texts a value sends. */
  function Texts(value: Value): seq<string> {
    match value
    case Many(vs) => seq(|vs|, i requires 0 <= i < |vs| => ToText(vs[i]))
    case Single(v) => if Omitted(v) then [] else [ToText(v)]
  }

  /** The values sent under `name`, in order. */
  function ValuesOf(pairs: Pairs, name: string): seq<string> {
    if pairs == [] then []
    else
      var (key, value) := pairs[|pairs| - 1];
      ValuesOf(pairs[..|pairs| - 1], name) + if key == name then [value] else []
  }

  lemma {:induction false} ValuesOfAppend(a: Pairs, b: Pairs, name: string)
    ensures ValuesOf(a + b, name) == ValuesOf(a, name) + ValuesOf(b, name)
    decreases |b|
  {
    if b == [] {
      assert a + b == a;
    } else {
      var b' := b[..|b| - 1];
      ValuesOfAppend(a, b', name);
      assert (a + b)[..|a + b| - 1] == a + b';
    }
  }

  lemma ValuesOfContribution(key: string, value: Value, name: string)
    ensures ValuesOf(Contribution(key, value), name) == if key == name then Texts(value) else []
  {
    if value.Many? {
      ValuesOfMany(key, value.elements, name);
    }
  }

  lemma {:induction false} ValuesOfMany(key: string, vs: seq<Scalar>, name: string)
    ensures ValuesOf(Contribution(key, Many(vs)), name) == if key == name then Texts(Many(vs)) else []
    decreases |vs|
  {
    if vs != [] {
      var front := vs[..|vs| - 1];
      ValuesOfMany(key, front, name);
      var c := Contribution(key, Many(vs));
      assert c[..|c| - 1] == Contribution(key, Many(front));
      if key == name {
        assert Texts(Many(vs)) == Texts(Many(front)) + [ToText(vs[|vs| - 1])];
      }
    }
  }

  predicate DistinctKeys(params: ParamList) {
    forall i, j :: 0 <= i < j < |params| ==> params[i].0 != params[j].0
  }

  /** `name` is a key of the object. */
  predicate IsKey(params: ParamList, name: string) {
    exists i :: 0 <= i < |params| && params[i].0 == name
  }

  /** Under a key of the object, the query carries exactly the texts of its value, in order; under any other name, nothing. */
  lemma {:induction false} ValuesOfSerialized(params: ParamList, name: string)
    requires DistinctKeys(params)
    ensures ValuesOf(Serialized(params), name) == if IsKey(params, name) then Texts(KeyValue(params, name)) else []
  {
    if params != [] {
      var front := params[..|params| - 1];
      var last := params[|params| - 1];
      assert DistinctKeys(front);
      ValuesOfSerialized(front, name);
      calc {
        ValuesOf(Serialized(params), name);
        { JoinNext(params, |params| - 1, Contribute); assert params[..|params| - 1 + 1] == params; }
        ValuesOf(Serialized(front) + Contribution(last.0, last.1), name);
        { ValuesOfAppend(Serialized(front), Contribution(last.0, last.1), name); }
        ValuesOf(Serialized(front), name) + ValuesOf(Contribution(last.0, last.1), name);
        { ValuesOfContribution(last.0, last.1, name); }
        ValuesOf(Serialized(front), name) + if last.0 == name then Texts(last.1) else [];
      }
      if last.0 == name {
        assert !IsKey(front, name);
      } else if IsKey(params, name) {
        var i :| 0 <= i < |params| && params[i].0 == name;
        assert front[i].0 == name;
      } else {
        assert !IsKey(front, name);
      }
    }
  }

  /** The value of the last entry with key `name`. */
  function KeyValue(params: ParamList, name: string): Value
    requires IsKey(params, name)
  {
    var last := params[|params| - 1];
    if last.0 == name then last.1
    else
      var front := params[..|params| - 1];
      var i :| 0 <= i < |params| && params[i].0 == name;
      assert front[i].0 == name;
      KeyValue(front, name)
  }

  lemma {:induction false} KeyValueAt(params: ParamList, i: nat)
    requires DistinctKeys(params) && i < |params|
    ensures IsKey(params, params[i].0) && KeyValue(params, params[i].0) == params[i].1
  {
    var name := params[i].0;
    if i < |params| - 1 {
      var front := params[..|params| - 1];
      assert front[i] == params[i];
      assert DistinctKeys(front);
      KeyValueAt(front, i);
    }
  }

  /** The values sent under the key of entry `i` are the texts of that entry's value. */
  lemma ValuesOfKey(params: ParamList, i: nat)
    requires DistinctKeys(params) && i < |params|
    ensures ValuesOf(Serialized(params), params[i].0) == Texts(params[i].1)
  {
    KeyValueAt(params, i);
    ValuesOfSerialized(params, params[i].0);
  }
}
