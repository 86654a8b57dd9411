// Plain JavaScript objects used as string-keyed dictionaries: own enumerable
// properties in the order Object.keys reports them. Object.keys lists the
// canonical array-index keys first, in ascending numeric order, then every
// other key in insertion order; `keys` below is kept in that order.

module JsObjects {
  import opened JsValues

  /** 2^32 - 2, the largest array index. */
  const MaxArrayIndex: nat := 4294967294

  /** A canonical array index: the shortest decimal form of an integer in
      [0, 2^32 - 2]. Such keys are enumerated before all others. */
  predicate IsArrayIndex(k: string) {
    |k| >= 1 && AllDigits(k) && (k[0] == '0' ==> |k| == 1) && DecimalValue(k) <= MaxArrayIndex
  }

  predicate Distinct<T(==)>(s: seq<T>) {
    forall i, j :: 0 <= i < j < |s| ==> s[i] != s[j]
  }

  /** The enumeration order of Object.keys: an array-index key is preceded only
      by array-index keys of no greater value. */
  predicate InKeyOrder(keys: seq<string>) {
    forall i, j :: 0 <= i < j < |keys| && IsArrayIndex(keys[j]) ==>
      IsArrayIndex(keys[i]) && DecimalValue(keys[i]) <= DecimalValue(keys[j])
  }

  /** An object's own enumerable string-keyed properties. */
  datatype Object<V> = Object(keys: seq<string>, props: map<string, V>) {
    ghost predicate Valid() {
      Distinct(keys) && InKeyOrder(keys) && forall k :: k in props <==> k in keys
    }
  }

  function Empty<V>(): (o: Object<V>)
    ensures o.Valid() && o.keys == [] && o.props == map[]
  {
    Object([], map[])
  }

  /** `s` with every occurrence of `x` left out. */
  function Remove(s: seq<string>, x: string): (r: seq<string>)
    ensures forall y :: y in r <==> y in s && y != x
  {
    if s == [] then [] else (if s[0] == x then [] else [s[0]]) + Remove(s[1..], x)
  }

  lemma {:induction false} RemoveAbsent(s: seq<string>, x: string)
    requires x !in s
    ensures Remove(s, x) == s
  {
    if s != [] {
      RemoveAbsent(s[1..], x);
    }
  }

  // ---------------------------------------------------------------------------
  // Where a new key goes

  /** The place a new array-index key takes: after every array-index key of no
      greater value. */
  function InsertIndex(keys: seq<string>, k: string): (r: seq<string>)
    requires IsArrayIndex(k)
    ensures |r| == |keys| + 1
    ensures forall x :: x in r <==> x in keys || x == k
  {
    if keys == [] || !IsArrayIndex(keys[0]) || DecimalValue(k) < DecimalValue(keys[0]) then [k] + keys
    else [keys[0]] + InsertIndex(keys[1..], k)
  }

  /** The key order after a property named `k` is created. */
  function InsertKey(keys: seq<string>, k: string): (r: seq<string>)
    ensures |r| == |keys| + 1
    ensures forall x :: x in r <==> x in keys || x == k
  {
    if IsArrayIndex(k) then InsertIndex(keys, k) else keys + [k]
  }

  lemma {:induction false} InsertIndexKeepsOrder(keys: seq<string>, k: string)
    requires IsArrayIndex(k) && InKeyOrder(keys)
    ensures InKeyOrder(InsertIndex(keys, k))
  {
    var r := InsertIndex(keys, k);
    if keys == [] || !IsArrayIndex(keys[0]) || DecimalValue(k) < DecimalValue(keys[0]) {
      forall i, j | 0 <= i < j < |r| && IsArrayIndex(r[j])
        ensures IsArrayIndex(r[i]) && DecimalValue(r[i]) <= DecimalValue(r[j])
      {
        if i == 0 {
          assert r[j] == keys[j - 1];
          if j - 1 > 0 {
            assert IsArrayIndex(keys[0]) && DecimalValue(keys[0]) <= DecimalValue(keys[j - 1]);
          }
        } else {
          assert r[i] == keys[i - 1] && r[j] == keys[j - 1];
        }
      }
    } else {
      var rest := InsertIndex(keys[1..], k);
      InsertIndexKeepsOrder(keys[1..], k);
      assert r == [keys[0]] + rest;
      forall i, j | 0 <= i < j < |r| && IsArrayIndex(r[j])
        ensures IsArrayIndex(r[i]) && DecimalValue(r[i]) <= DecimalValue(r[j])
      {
        if i == 0 {
          var x := rest[j - 1];
          assert x in rest;
          if x != k {
            assert x in keys[1..];
            var m :| 0 <= m < |keys[1..]| && keys[1..][m] == x;
            assert keys[m + 1] == x;
          }
        } else {
          assert r[i] == rest[i - 1] && r[j] == rest[j - 1];
        }
      }
    }
  }

  lemma {:induction false} InsertIndexKeepsDistinct(keys: seq<string>, k: string)
    requires IsArrayIndex(k) && Distinct(keys) && k !in keys
    ensures Distinct(InsertIndex(keys, k))
  {
    var r := InsertIndex(keys, k);
    if keys == [] || !IsArrayIndex(keys[0]) || DecimalValue(k) < DecimalValue(keys[0]) {
      forall i, j | 0 <= i < j < |r| ensures r[i] != r[j] {
        if i == 0 {
          assert r[j] == keys[j - 1];
        } else {
          assert r[i] == keys[i - 1] && r[j] == keys[j - 1];
        }
      }
    } else {
      var rest := InsertIndex(keys[1..], k);
      InsertIndexKeepsDistinct(keys[1..], k);
      assert r == [keys[0]] + rest;
      forall i, j | 0 <= i < j < |r| ensures r[i] != r[j] {
        if i == 0 {
          assert rest[j - 1] in rest;
          assert keys[0] !in keys[1..];
        } else {
          assert r[i] == rest[i - 1] && r[j] == rest[j - 1];
        }
      }
    }
  }

  lemma {:induction false} InsertIndexKeepsOthersInOrder(keys: seq<string>, k: string)
    requires IsArrayIndex(k) && k !in keys
    ensures Remove(InsertIndex(keys, k), k) == keys
  {
    if keys == [] || !IsArrayIndex(keys[0]) || DecimalValue(k) < DecimalValue(keys[0]) {
      assert ([k] + keys)[1..] == keys;
      RemoveAbsent(keys, k);
    } else {
      InsertIndexKeepsOthersInOrder(keys[1..], k);
      assert ([keys[0]] + InsertIndex(keys[1..], k))[1..] == InsertIndex(keys[1..], k);
      assert [keys[0]] + keys[1..] == keys;
    }
  }

  lemma {:induction false} RemoveAppend(s: seq<string>, x: string)
    requires x !in s
    ensures Remove(s + [x], x) == s
  {
    if s == [] {
    } else {
      RemoveAppend(s[1..], x);
      assert (s + [x])[1..] == s[1..] + [x];
      assert [s[0]] + s[1..] == s;
    }
  }

  /** Creating a key keeps the object's invariant, and the keys that were
      there keep their relative order. A key that is not an array index goes
      last. */
  lemma InsertKeyProperties(keys: seq<string>, k: string)
    requires Distinct(keys) && InKeyOrder(keys) && k !in keys
    ensures Distinct(InsertKey(keys, k)) && InKeyOrder(InsertKey(keys, k))
    ensures Remove(InsertKey(keys, k), k) == keys
    ensures !IsArrayIndex(k) ==> InsertKey(keys, k) == keys + [k]
  {
    if IsArrayIndex(k) {
      InsertIndexKeepsOrder(keys, k);
      InsertIndexKeepsDistinct(keys, k);
      InsertIndexKeepsOthersInOrder(keys, k);
    } else {
      RemoveAppend(keys, k);
      var r := keys + [k];
      forall i, j | 0 <= i < j < |r| && IsArrayIndex(r[j])
        ensures IsArrayIndex(r[i]) && DecimalValue(r[i]) <= DecimalValue(r[j])
      {
        assert j < |keys|;
        assert r[i] == keys[i] && r[j] == keys[j];
      }
    }
  }

  // ---------------------------------------------------------------------------
  // Property assignment and Object.assign

  /** `o[k] = v`: an existing key keeps its place, a new key is created. */
  function Put<V>(o: Object<V>, k: string, v: V): (r: Object<V>)
    ensures r.props == o.props[k := v]
  {
    if k in o.props then
      Object(o.keys, o.props[k := v])
    else
      Object(InsertKey(o.keys, k), o.props[k := v])
  }

  /** Assignment keeps the object's invariant; the keys already there keep
      their relative order, and a new key that is not an array index goes
      last. */
  lemma PutProperties<V>(o: Object<V>, k: string, v: V)
    requires o.Valid()
    ensures Put(o, k, v).Valid()
    ensures k in o.props ==> Put(o, k, v).keys == o.keys
    ensures k !in o.props ==> Remove(Put(o, k, v).keys, k) == o.keys
    ensures k !in o.props && !IsArrayIndex(k) ==> Put(o, k, v).keys == o.keys + [k]
  {
    if k !in o.props {
      InsertKeyProperties(o.keys, k);
    }
  }

  /** The first `n` keys of `src`, copied one after another. */
  function AssignPrefix<V>(target: Object<V>, src: Object<V>, n: nat): (r: Object<V>)
    requires src.Valid() && n <= |src.keys|
  {
    if n == 0 then target
    else Put(AssignPrefix(target, src, n - 1), src.keys[n - 1], src.props[src.keys[n - 1]])
  }

  /** Object.assign(target, src): every own enumerable property of `src`, in
      Object.keys order, is assigned onto `target`. */
  function Assign<V>(target: Object<V>, src: Object<V>): (r: Object<V>)
    requires src.Valid()
    ensures forall k :: k in r.props <==> k in target.props || k in src.props
  {
    AssignPrefixContents(target, src, |src.keys|);
    assert src.keys[..|src.keys|] == src.keys;
    AssignPrefix(target, src, |src.keys|)
  }

  /** The keys of `s` that `o` does not have yet, in order. */
  function NewKeys<V>(s: seq<string>, o: Object<V>): seq<string> {
    if s == [] then [] else NewKeys(s[..|s| - 1], o) + (if s[|s| - 1] in o.props then [] else [s[|s| - 1]])
  }

  lemma {:induction false} AssignPrefixValid<V>(target: Object<V>, src: Object<V>, n: nat)
    requires target.Valid() && src.Valid() && n <= |src.keys|
    ensures AssignPrefix(target, src, n).Valid()
  {
    if n > 0 {
      AssignPrefixValid(target, src, n - 1);
      PutProperties(AssignPrefix(target, src, n - 1), src.keys[n - 1], src.props[src.keys[n - 1]]);
    }
  }

  lemma {:induction false} AssignPrefixContents<V>(target: Object<V>, src: Object<V>, n: nat)
    requires src.Valid() && n <= |src.keys|
    ensures forall k :: k in AssignPrefix(target, src, n).props <==> k in target.props || k in src.keys[..n]
    ensures forall k :: k in src.keys[..n] ==> AssignPrefix(target, src, n).props[k] == src.props[k]
    ensures forall k :: k in target.props && k !in src.keys[..n] ==>
      AssignPrefix(target, src, n).props[k] == target.props[k]
  {
    if n > 0 {
      AssignPrefixContents(target, src, n - 1);
      assert src.keys[..n] == src.keys[..n - 1] + [src.keys[n - 1]];
    }
  }

  /** One step of Object.assign appends the copied key exactly when the
      target did not have it. */
  lemma AssignStepOrder<V>(target: Object<V>, src: Object<V>, n: nat)
    requires src.Valid() && 0 < n <= |src.keys|
    requires !IsArrayIndex(src.keys[n - 1])
    ensures AssignPrefix(target, src, n).keys ==
      AssignPrefix(target, src, n - 1).keys + (if src.keys[n - 1] in target.props then [] else [src.keys[n - 1]])
  {
    var k := src.keys[n - 1];
    var a := AssignPrefix(target, src, n - 1);
    AssignPrefixContents(target, src, n - 1);
    LastNotInPrefix(src.keys, n);
    assert k in a.props <==> k in target.props;
  }

  lemma LastNotInPrefix(s: seq<string>, n: nat)
    requires Distinct(s) && 0 < n <= |s|
    ensures s[n - 1] !in s[..n - 1]
  {
  }

  lemma {:induction false} AssignPrefixOrder<V>(target: Object<V>, src: Object<V>, n: nat)
    requires src.Valid() && n <= |src.keys|
    requires forall i :: 0 <= i < |src.keys| ==> !IsArrayIndex(src.keys[i])
    ensures AssignPrefix(target, src, n).keys == target.keys + NewKeys(src.keys[..n], target)
  {
    if n > 0 {
      var k := src.keys[n - 1];
      assert !IsArrayIndex(k);
      var tail := if k in target.props then [] else [k];
      calc {
        AssignPrefix(target, src, n).keys;
      == { AssignStepOrder(target, src, n); }
        AssignPrefix(target, src, n - 1).keys + tail;
      == { AssignPrefixOrder(target, src, n - 1); }
        (target.keys + NewKeys(src.keys[..n - 1], target)) + tail;
        target.keys + (NewKeys(src.keys[..n - 1], target) + tail);
      == { NewKeysPrefix(src.keys, n, target); }
        target.keys + NewKeys(src.keys[..n], target);
      }
    }
  }

  lemma NewKeysPrefix<V>(s: seq<string>, n: nat, o: Object<V>)
    requires 0 < n <= |s|
    ensures NewKeys(s[..n], o) == NewKeys(s[..n - 1], o) + (if s[n - 1] in o.props then [] else [s[n - 1]])
  {
    assert s[..n][..n - 1] == s[..n - 1];
  }

  /** Object.assign: the result has the union of the keys; the source's values
      win; the target's keys keep their places and, when no source key is an
      array index, the source's new keys follow in the source's order. */
  lemma AssignProperties<V>(target: Object<V>, src: Object<V>)
    requires target.Valid() && src.Valid()
    ensures Assign(target, src).Valid()
    ensures forall k :: k in src.props ==> Assign(target, src).props[k] == src.props[k]
    ensures forall k :: k in target.props && k !in src.props ==> Assign(target, src).props[k] == target.props[k]
    ensures (forall i :: 0 <= i < |src.keys| ==> !IsArrayIndex(src.keys[i])) ==>
      Assign(target, src).keys == target.keys + NewKeys(src.keys, target)
  {
    AssignPrefixValid(target, src, |src.keys|);
    AssignPrefixContents(target, src, |src.keys|);
    assert src.keys[..|src.keys|] == src.keys;
    if forall i :: 0 <= i < |src.keys| ==> !IsArrayIndex(src.keys[i]) {
      AssignPrefixOrder(target, src, |src.keys|);
    }
  }
}
