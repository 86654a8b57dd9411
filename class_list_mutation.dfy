// utilsPrivate/classListMutation.js: applying a class -> flag map onto an
// element's live class list. The list is a DOMTokenList, whose add and remove
// reject the empty token and tokens containing ASCII white space. The loop in
// the source is bounded by the length of the FIRST KEY's string rather than
// by the number of keys; ClassListMutation models that loop as written and
// IntendedMutation the loop over every key.

module ClassLists {
  import opened JsValues
  import opened JsObjects

  /** The exceptions the mutation can raise. */
  datatype Failure =
    | TypeError              // reading `length` of undefined
    | SyntaxError            // DOMTokenList given the empty token
    | InvalidCharacterError  // DOMTokenList given a token with ASCII white space

  /** ASCII white space in the sense of the DOM standard: tab, line feed,
      form feed, carriage return and space. */
  predicate IsAsciiWhitespace(c: char) {
    c == '\t' || c == '\n' || c == '\U{000C}' || c == '\r' || c == ' '
  }

  predicate HasAsciiWhitespace(t: string) {
    exists i :: 0 <= i < |t| && IsAsciiWhitespace(t[i])
  }

  /** The check DOMTokenList.add and remove run on a token before changing
      anything. */
  function Validate(t: string): (e: Option<Failure>)
    ensures e == None <==> t != "" && !HasAsciiWhitespace(t)
  {
    if t == "" then Some(SyntaxError)
    else if HasAsciiWhitespace(t) then Some(InvalidCharacterError)
    else None
  }

  /** The class list after a loop that may have stopped on an exception. */
  datatype Applied = Applied(tokens: seq<string>, thrown: Option<Failure>)

  /** classList.add(t) on the token list `ts`. */
  function TokenAdd(ts: seq<string>, t: string): (a: Applied)
    ensures a.thrown == Validate(t)
    ensures a.thrown == None ==> forall x :: x in a.tokens <==> x in ts || x == t
    ensures a.thrown != None ==> a.tokens == ts
  {
    if Validate(t).Some? then Applied(ts, Validate(t))
    else if t in ts then Applied(ts, None)
    else Applied(ts + [t], None)
  }

  /** classList.remove(t) on the token list `ts`. */
  function TokenRemove(ts: seq<string>, t: string): (a: Applied)
    ensures a.thrown == Validate(t)
    ensures a.thrown == None ==> forall x :: x in a.tokens <==> x in ts && x != t
    ensures a.thrown != None ==> a.tokens == ts
  {
    if Validate(t).Some? then Applied(ts, Validate(t)) else Applied(Remove(ts, t), None)
  }

  /** One pass of the loop body for the key `k`: an empty key is skipped, a
      truthy flag adds the token and a falsy one removes it. */
  function ApplyKey(ts: seq<string>, k: string, props: map<string, JsValue>): Applied {
    if Utf16Length(k) == 0 then Applied(ts, None)
    else if k in props && Truthy(props[k]) then TokenAdd(ts, k)
    else TokenRemove(ts, k)
  }

  /** The keys `ks` applied in order; the first exception stops the loop. */
  function ApplyKeys(ts: seq<string>, ks: seq<string>, props: map<string, JsValue>): Applied {
    if ks == [] then Applied(ts, None)
    else
      var a := ApplyKeys(ts, ks[..|ks| - 1], props);
      if a.thrown.Some? then a else ApplyKey(a.tokens, ks[|ks| - 1], props)
  }

  function Min(a: nat, b: nat): nat {
    if a < b then a else b
  }

  /** How many keys the loop as written visits: it counts up to the length
      of the first key, and indices past the last key read undefined, which
      the typeof test skips. */
  function VisitedCount(keys: seq<string>): (n: nat)
    requires keys != []
    ensures n <= |keys| && n <= Utf16Length(keys[0])
    ensures n == |keys| || n == Utf16Length(keys[0])
  {
    Min(Utf16Length(keys[0]), |keys|)
  }

  /** classListMutation(classList, config) as written. */
  function Mutation(ts: seq<string>, config: Object<JsValue>): Applied {
    if config.keys == [] then Applied(ts, Some(TypeError))
    else ApplyKeys(ts, config.keys[..VisitedCount(config.keys)], config.props)
  }

  /** The loop with the bound the code evidently intends, `keys.length`. */
  function IntendedMutation(ts: seq<string>, config: Object<JsValue>): Applied {
    ApplyKeys(ts, config.keys, config.props)
  }

  // ---------------------------------------------------------------------------
  // The live class list

  class DomTokenList {
    var tokens: seq<string>

    ghost predicate Valid()
      reads this
    {
      Distinct(tokens)
    }

    constructor (initial: seq<string>)
      requires Distinct(initial)
      ensures Valid() && tokens == initial
    {
      tokens := initial;
    }

    /** add(t): validates, then appends the token unless present. */
    method Add(t: string) returns (thrown: Option<Failure>)
      requires Valid()
      modifies this
      ensures Valid()
      ensures Applied(tokens, thrown) == TokenAdd(old(tokens), t)
    {
      thrown := Validate(t);
      if thrown == None && t !in tokens {
        tokens := tokens + [t];
      }
    }

    /** remove(t): validates, then removes the token if present. */
    method Remove(t: string) returns (thrown: Option<Failure>)
      requires Valid()
      modifies this
      ensures Valid()
      ensures Applied(tokens, thrown) == TokenRemove(old(tokens), t)
    {
      thrown := Validate(t);
      if thrown == None {
        RemoveDistinct(tokens, t);
        tokens := JsObjects.Remove(tokens, t);
      }
    }
  }

  lemma {:induction false} RemoveDistinct(s: seq<string>, x: string)
    requires Distinct(s)
    ensures Distinct(Remove(s, x))
  {
    if s != [] {
      var tail := s[1..];
      assert Distinct(tail) by {
        forall i, j | 0 <= i < j < |tail| ensures tail[i] != tail[j] {
          assert tail[i] == s[i + 1] && tail[j] == s[j + 1];
        }
      }
      RemoveDistinct(tail, x);
      assert s[0] !in tail by {
        forall m | 0 <= m < |tail| ensures tail[m] != s[0] {
          assert tail[m] == s[m + 1];
        }
      }
    }
  }

  /** The loop body for one key: skip an empty key, otherwise add or remove
      it according to its flag. */
  method ApplyOne(classList: DomTokenList, key: string, props: map<string, JsValue>) returns (thrown: Option<Failure>)
    requires classList.Valid()
    modifies classList
    ensures classList.Valid()
    ensures Applied(classList.tokens, thrown) == ApplyKey(old(classList.tokens), key, props)
  {
    thrown := None;
    if Utf16Length(key) > 0 {
      if key in props && Truthy(props[key]) {
        thrown := classList.Add(key);
      } else {
        thrown := classList.Remove(key);
      }
    }
  }

  /** classListMutation(classList, config): an empty config throws on
      `keys[0].length`; otherwise the loop runs `keys[0].length` times,
      applying each existing non-empty key, and stops at the first exception. */
  method ClassListMutation(classList: DomTokenList, config: Object<JsValue>) returns (thrown: Option<Failure>)
    requires classList.Valid()
    modifies classList
    ensures classList.Valid()
    ensures Applied(classList.tokens, thrown) == Mutation(old(classList.tokens), config)
  {
    var keys := config.keys;
    if keys == [] {
      return Some(TypeError);
    }
    var length := Utf16Length(keys[0]);
    ghost var t0 := classList.tokens;
    thrown := None;
    var i := 0;
    while i < length
      invariant 0 <= i <= length
      invariant classList.Valid()
      invariant thrown == None
      invariant Applied(classList.tokens, None) == ApplyKeys(t0, keys[..Min(i, |keys|)], config.props)
    {
      if i < |keys| {
        assert keys[..i + 1][..i] == keys[..i];
        thrown := ApplyOne(classList, keys[i], config.props);
        if thrown.Some? {
          StopsOnThrow(t0, keys, config.props, i + 1, VisitedCount(keys));
          return;
        }
      }
      i := i + 1;
    }
  }

  /** Once the loop has thrown, later keys change nothing. */
  lemma {:induction false} StopsOnThrow(ts: seq<string>, keys: seq<string>, props: map<string, JsValue>, i: nat, n: nat)
    requires i <= n <= |keys|
    requires ApplyKeys(ts, keys[..i], props).thrown.Some?
    ensures ApplyKeys(ts, keys[..n], props) == ApplyKeys(ts, keys[..i], props)
    decreases n - i
  {
    if i < n {
      StopsOnThrow(ts, keys, props, i, n - 1);
      assert keys[..n][..n - 1] == keys[..n - 1];
    }
  }

  // ---------------------------------------------------------------------------
  // Properties

  /** An empty config throws a TypeError and leaves the list alone. */
  lemma EmptyConfigThrows(ts: seq<string>, config: Object<JsValue>)
    requires config.keys == []
    ensures Mutation(ts, config) == Applied(ts, Some(TypeError))
  {
  }

  /** An empty first key makes the loop run zero times. */
  lemma EmptyFirstKeyAppliesNothing(ts: seq<string>, config: Object<JsValue>)
    requires config.keys != [] && config.keys[0] == ""
    ensures Mutation(ts, config) == Applied(ts, None)
  {
    assert config.keys[..0] == [];
  }

  /** Applying keys that are valid tokens never throws; afterwards every
      applied non-empty key is present exactly when its flag is truthy, and
      every other token is present exactly when it was before. */
  lemma {:induction false} ApplyKeysEffect(ts: seq<string>, ks: seq<string>, props: map<string, JsValue>)
    requires forall j :: 0 <= j < |ks| ==> !HasAsciiWhitespace(ks[j])
    ensures ApplyKeys(ts, ks, props).thrown == None
    ensures forall x :: x in ApplyKeys(ts, ks, props).tokens <==>
      if x in ks && x != "" then LastFlag(ks, x, props) else x in ts
  {
    if ks != [] {
      var front := ks[..|ks| - 1];
      var k := ks[|ks| - 1];
      ApplyKeysEffect(ts, front, props);
      Utf16LengthBounds(k);
      assert ks == front + [k];
    }
  }

  /** Whether the last visit of `x` among the keys adds it. Keys from
      Object.keys are distinct, so this is the flag of `x`. */
  predicate LastFlag(ks: seq<string>, x: string, props: map<string, JsValue>)
    requires x in ks
  {
    if ks[|ks| - 1] == x then x in props && Truthy(props[x])
    else assert ks == ks[..|ks| - 1] + [ks[|ks| - 1]]; LastFlag(ks[..|ks| - 1], x, props)
  }

  lemma {:induction false} LastFlagOfDistinct(ks: seq<string>, x: string, props: map<string, JsValue>)
    requires Distinct(ks) && x in ks
    ensures LastFlag(ks, x, props) == (x in props && Truthy(props[x]))
  {
    if ks[|ks| - 1] != x {
      var front := ks[..|ks| - 1];
      assert ks == front + [ks[|ks| - 1]];
      assert Distinct(front) by {
        forall i, j | 0 <= i < j < |front| ensures front[i] == ks[i] && front[j] == ks[j] { }
      }
      LastFlagOfDistinct(front, x, props);
    }
  }

  /** The loop throws exactly when a visited non-empty key contains ASCII
      white space, and then the exception is InvalidCharacterError. */
  lemma {:induction false} ApplyKeysThrows(ts: seq<string>, ks: seq<string>, props: map<string, JsValue>)
    ensures ApplyKeys(ts, ks, props).thrown != None <==>
      exists j :: 0 <= j < |ks| && ks[j] != "" && HasAsciiWhitespace(ks[j])
    ensures ApplyKeys(ts, ks, props).thrown != None ==>
      ApplyKeys(ts, ks, props).thrown == Some(InvalidCharacterError)
  {
    if ks != [] {
      var front := ks[..|ks| - 1];
      var k := ks[|ks| - 1];
      ApplyKeysThrows(ts, front, props);
      Utf16LengthBounds(k);
      assert ks == front + [k];
      if exists j :: 0 <= j < |front| && front[j] != "" && HasAsciiWhitespace(front[j]) {
        var j :| 0 <= j < |front| && front[j] != "" && HasAsciiWhitespace(front[j]);
        assert ks[j] == front[j];
      }
      if exists j :: 0 <= j < |ks| && ks[j] != "" && HasAsciiWhitespace(ks[j]) {
        var j :| 0 <= j < |ks| && ks[j] != "" && HasAsciiWhitespace(ks[j]);
        if j < |front| {
          assert front[j] == ks[j];
        }
      }
    }
  }

  /** The effect of classListMutation as written on a config whose keys are
      valid tokens: exactly the first min(keys[0].length, keys.length) keys are
      applied; a later key leaves its token as it was. */
  lemma MutationEffect(ts: seq<string>, config: Object<JsValue>)
    requires config.Valid() && config.keys != []
    requires forall j :: 0 <= j < |config.keys| ==> !HasAsciiWhitespace(config.keys[j])
    ensures Mutation(ts, config).thrown == None
    ensures forall x :: x in Mutation(ts, config).tokens <==>
      if x in config.keys[..VisitedCount(config.keys)] && x != "" then Truthy(config.props[x]) else x in ts
  {
    var visited := config.keys[..VisitedCount(config.keys)];
    ApplyKeysEffect(ts, visited, config.props);
    assert Distinct(visited) by {
      forall i, j | 0 <= i < j < |visited| ensures visited[i] == config.keys[i] && visited[j] == config.keys[j] { }
    }
    forall x | x in visited ensures LastFlag(visited, x, config.props) == Truthy(config.props[x]) {
      LastFlagOfDistinct(visited, x, config.props);
    }
  }

  /** The intended loop applies every key: afterwards every non-empty key is
      present exactly when its flag is truthy, and every other token is
      unchanged. */
  lemma IntendedMutationEffect(ts: seq<string>, config: Object<JsValue>)
    requires config.Valid()
    requires forall j :: 0 <= j < |config.keys| ==> !HasAsciiWhitespace(config.keys[j])
    ensures IntendedMutation(ts, config).thrown == None
    ensures forall x :: x in IntendedMutation(ts, config).tokens <==>
      if x in config.props && x != "" then Truthy(config.props[x]) else x in ts
  {
    ApplyKeysEffect(ts, config.keys, config.props);
    forall x | x in config.keys ensures LastFlag(config.keys, x, config.props) == Truthy(config.props[x]) {
      LastFlagOfDistinct(config.keys, x, config.props);
    }
  }

  /** The loop bound in the source: with config {a: true, b: true} only the
      key 'a' is applied, because 'a'.length is 1, while the intended loop
      adds both classes. */
  lemma FirstKeyLengthBound()
    ensures var config := Object(["a", "b"], map["a" := Bool(true), "b" := Bool(true)]);
      Mutation([], config) == Applied(["a"], None)
      && IntendedMutation([], config) == Applied(["a", "b"], None)
  {
    var config := Object(["a", "b"], map["a" := Bool(true), "b" := Bool(true)]);
    assert Utf16Length("a") == 1;
    assert !HasAsciiWhitespace("a") && !HasAsciiWhitespace("b");
    assert config.keys[..1] == ["a"];
    assert ["a"][..0] == [];
    assert ["a", "b"][..1] == ["a"];
    assert ApplyKeys([], ["a"], config.props) == Applied(["a"], None);
  }
}
