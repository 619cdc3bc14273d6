/**
  * The loosely typed values that reach the blog's code: fields of a JSON request
  * body and values of a parsed front-matter block. Arrays are modelled as arrays of
  * strings; objects such as a YAML date are opaque values that carry only the text
  * `String(v)` would give.
  */
module JsValues {
  import opened Text
  import opened Sequences

  datatype Value =
    | Undefined
    | Null
    | Bool(b: bool)
    | Num(n: int)
    | Str(s: string)
    | List(items: seq<string>)
    | Other(display: string)

  /** JavaScript truthiness: `false`, `0`, `""`, `null` and `undefined` are falsy. */
  predicate Truthy(v: Value) {
    match v
    case Undefined => false
    case Null => false
    case Bool(b) => b
    case Num(n) => n != 0
    case Str(s) => s != ""
    case List(_) => true
    case Other(_) => true
  }

  /** `a || b`. */
  function Or(a: Value, b: Value): Value {
    if Truthy(a) then a else b
  }

  /** `a || b` is truthy exactly when one of the two is, and it is one of the two. */
  lemma OrTruthy(a: Value, b: Value)
    ensures Truthy(Or(a, b)) <==> Truthy(a) || Truthy(b)
    ensures Or(a, b) == a || Or(a, b) == b
  {
  }

  /** A chain `a || b || c` means the same however it is grouped. */
  lemma OrAssociative(a: Value, b: Value, c: Value)
    ensures Or(Or(a, b), c) == Or(a, Or(b, c))
  {
  }

  /** A chain ending in a truthy default is always truthy, and it is the first truthy
      value of the chain. */
  lemma OrDefault(a: Value, b: Value, d: Value)
    requires Truthy(d)
    ensures Truthy(Or(Or(a, b), d))
    ensures Or(Or(a, b), d) == (if Truthy(a) then a else if Truthy(b) then b else d)
  {
  }

  /** `String(v)`, also what a template literal `${v}` inserts. */
  function JsString(v: Value): string {
    match v
    case Undefined => "undefined"
    case Null => "null"
    case Bool(b) => if b then "true" else "false"
    case Num(n) => IntToString(n)
    case Str(s) => s
    case List(items) => Join(items, ",")
    case Other(d) => d
  }

  /** A method called on a value that does not have it: `(5).split(',')`,
      `"a".forEach(f)`. */
  datatype TypeError = TypeError

  /** A parsed front-matter block, or a request body: keys to values. */
  type Data = map<string, Value>

  /** `data[key]`, which is `undefined` for a missing key. */
  function Get(data: Data, key: string): Value {
    if key in data then data[key] else Undefined
  }

  // ---------------------------------------------------------------------------
  // Property order of an ordinary object

  function DigitValue(c: char): nat {
    if IsAsciiDigit(c) then c as int - '0' as int else 0
  }

  /** The number a string of decimal digits denotes. */
  function DecimalValue(s: string): nat
    decreases |s|
  {
    if s == [] then 0 else DecimalValue(s[..|s| - 1]) * 10 + DigitValue(s[|s| - 1])
  }

  /** A key that is an array index: the canonical decimal form of a whole number below
      2^32 - 1, so digits only and no leading zero. */
  predicate IsArrayIndex(k: string) {
    && |k| > 0
    && (forall i :: 0 <= i < |k| ==> IsAsciiDigit(k[i]))
    && (k[0] == '0' ==> |k| == 1)
    && DecimalValue(k) < 0xFFFF_FFFF
  }

  predicate IsStringKey(k: string) {
    !IsArrayIndex(k)
  }

  predicate IndexLe(a: string, b: string) {
    DecimalValue(a) <= DecimalValue(b)
  }

  /** The order in which `Object.entries` lists the keys of an ordinary object that
      received them in the order `keys` (OrdinaryOwnPropertyKeys of ECMA-262): the array
      indices by ascending numeric value, then the other strings in insertion order. */
  function OwnKeyOrder(keys: seq<string>): seq<string> {
    InsertionSort(Filter(keys, IsArrayIndex), IndexLe) + Filter(keys, IsStringKey)
  }

  /** The keys are listed as often as they were added; an array index never follows a
      string key; distinct array indices appear by ascending value; and the string keys
      keep their insertion order. */
  lemma OwnKeyOrderProperties(keys: seq<string>)
    ensures var r := OwnKeyOrder(keys);
      && multiset(r) == multiset(keys)
      && (forall i, j :: 0 <= i < j < |r| && IsArrayIndex(r[j]) ==>
            IsArrayIndex(r[i]) && DecimalValue(r[i]) <= DecimalValue(r[j]))
      && (NoDuplicates(keys) ==> forall i, j :: 0 <= i < j < |r| && IsArrayIndex(r[j]) ==>
            DecimalValue(r[i]) < DecimalValue(r[j]))
      && Filter(r, IsStringKey) == Filter(keys, IsStringKey)
  {
    OwnKeyOrderPermutation(keys);
    IndicesFirst(keys);
    if NoDuplicates(keys) {
      IndicesStrictlyAscending(keys);
    }
    StringKeysInOrder(keys);
  }

  lemma OwnKeyOrderPermutation(keys: seq<string>)
    ensures multiset(OwnKeyOrder(keys)) == multiset(keys)
  {
    FilterPartition(keys, IsArrayIndex, IsStringKey);
  }

  lemma SortedIndicesAreIndices(keys: seq<string>)
    ensures forall x :: x in InsertionSort(Filter(keys, IsArrayIndex), IndexLe) ==> IsArrayIndex(x)
  {
    var indices := Filter(keys, IsArrayIndex);
    forall x | x in InsertionSort(indices, IndexLe)
      ensures IsArrayIndex(x)
    {
      assert x in multiset(indices);
    }
  }

  lemma IndicesFirst(keys: seq<string>)
    ensures var r := OwnKeyOrder(keys);
      forall i, j :: 0 <= i < j < |r| && IsArrayIndex(r[j]) ==>
        IsArrayIndex(r[i]) && DecimalValue(r[i]) <= DecimalValue(r[j])
  {
    var sorted := InsertionSort(Filter(keys, IsArrayIndex), IndexLe);
    var strings := Filter(keys, IsStringKey);
    var r := sorted + strings;
    SortedIndicesAreIndices(keys);
    assert TotalPreorder(IndexLe);
    InsertionSortSorted(Filter(keys, IsArrayIndex), IndexLe);
    forall k | |sorted| <= k < |r|
      ensures IsStringKey(r[k])
    {
      assert r[k] == strings[k - |sorted|] && r[k] in strings;
    }
    forall i, j | 0 <= i < j < |r| && IsArrayIndex(r[j])
      ensures IsArrayIndex(r[i]) && DecimalValue(r[i]) <= DecimalValue(r[j])
    {
      assert j < |sorted|;
      assert r[i] == sorted[i] && r[j] == sorted[j];
    }
  }

  lemma IndicesStrictlyAscending(keys: seq<string>)
    requires NoDuplicates(keys)
    ensures var r := OwnKeyOrder(keys);
      forall i, j :: 0 <= i < j < |r| && IsArrayIndex(r[j]) ==> DecimalValue(r[i]) < DecimalValue(r[j])
  {
    var r := OwnKeyOrder(keys);
    OwnKeyOrderPermutation(keys);
    NoDuplicatesPermutation(keys, r);
    IndicesFirst(keys);
    forall i, j | 0 <= i < j < |r| && IsArrayIndex(r[j])
      ensures DecimalValue(r[i]) < DecimalValue(r[j])
    {
      if DecimalValue(r[i]) == DecimalValue(r[j]) {
        ArrayIndexInjective(r[i], r[j]);
      }
    }
  }

  lemma StringKeysInOrder(keys: seq<string>)
    ensures Filter(OwnKeyOrder(keys), IsStringKey) == Filter(keys, IsStringKey)
  {
    var sorted := InsertionSort(Filter(keys, IsArrayIndex), IndexLe);
    var strings := Filter(keys, IsStringKey);
    SortedIndicesAreIndices(keys);
    FilterConcat(sorted, strings, IsStringKey);
    FilterKeepsNone(sorted, IsStringKey);
    FilterKeepsAll(strings, IsStringKey);
  }

  function Pow10(n: nat): nat {
    if n == 0 then 1 else 10 * Pow10(n - 1)
  }

  lemma {:induction false} Pow10Monotonic(m: nat, n: nat)
    requires m <= n
    ensures Pow10(m) <= Pow10(n)
    decreases n
  {
    if m < n {
      Pow10Monotonic(m, n - 1);
    }
  }

  /** `s` digits denote less than `10^|s|`. */
  lemma {:induction false} DecimalBelow(s: string)
    ensures DecimalValue(s) < Pow10(|s|)
    decreases |s|
  {
    if s != [] {
      DecimalBelow(s[..|s| - 1]);
    }
  }

  /** Digits that do not start with `0` denote at least `10^(|s|-1)`. */
  lemma {:induction false} DecimalAtLeast(s: string)
    requires |s| > 0 && IsAsciiDigit(s[0]) && s[0] != '0'
    ensures Pow10(|s| - 1) <= DecimalValue(s)
    decreases |s|
  {
    var init := s[..|s| - 1];
    if init == [] {
      assert s == [s[0]];
    } else {
      assert init[0] == s[0];
      DecimalAtLeast(init);
    }
  }

  /** Two digit strings of one length that denote the same number are equal. */
  lemma {:induction false} DecimalSameLength(a: string, b: string)
    requires |a| == |b|
    requires forall i :: 0 <= i < |a| ==> IsAsciiDigit(a[i])
    requires forall i :: 0 <= i < |b| ==> IsAsciiDigit(b[i])
    requires DecimalValue(a) == DecimalValue(b)
    ensures a == b
    decreases |a|
  {
    if a != [] {
      var n := |a| - 1;
      assert DigitValue(a[n]) == DigitValue(b[n]);
      DecimalSameLength(a[..n], b[..n]);
      assert a == a[..n] + [a[n]];
      assert b == b[..n] + [b[n]];
    }
  }

  /** Distinct array indices denote distinct numbers. */
  lemma ArrayIndexInjective(a: string, b: string)
    requires IsArrayIndex(a) && IsArrayIndex(b)
    requires DecimalValue(a) == DecimalValue(b)
    ensures a == b
  {
    if |a| < |b| {
      DecimalBelow(a);
      DecimalAtLeast(b);
      Pow10Monotonic(|a|, |b| - 1);
    } else if |b| < |a| {
      DecimalBelow(b);
      DecimalAtLeast(a);
      Pow10Monotonic(|b|, |a| - 1);
    } else {
      DecimalSameLength(a, b);
    }
  }

  /** A `pinned` value counts as pinned when it is strictly equal to `true` or `"true"`. */
  predicate IsPinnedValue(v: Value) {
    v == Bool(true) || v == Str("true")
  }

  lemma PinnedValuesAreTruthy(v: Value)
    ensures IsPinnedValue(v) ==> Truthy(v)
  {
  }

  /** Defaulting a `pinned` value to `false` does not change whether it counts as pinned. */
  lemma PinnedDefault(v: Value)
    ensures IsPinnedValue(Or(v, Bool(false))) == IsPinnedValue(v)
  {
  }
}
