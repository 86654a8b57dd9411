// The class-token set of utils/classSet.js: an object that maps CSS class
// names to flags, filled from whitespace-separated strings or merged from
// other objects, and serialised to a class attribute value.

module ClassSet {
  import opened JsValues
  import opened JsObjects

  // ---------------------------------------------------------------------------
  // Splitting a class string: trim() and then split(/\s+/)

  /** The leading run of non-space characters. */
  function TakeWord(s: string): (w: string)
    ensures |w| <= |s| && w == s[..|w|] && NoSpace(w)
    ensures |w| < |s| ==> IsSpace(s[|w|])
  {
    if s == [] || IsSpace(s[0]) then [] else [s[0]] + TakeWord(s[1..])
  }

  /** split(/\s+/): the pieces between maximal runs of white space. A leading
      run yields an empty first piece, a trailing run an empty last piece, and
      the empty string yields one empty piece. */
  function SplitWords(s: string): (r: seq<string>)
    ensures |r| >= 1
    ensures forall j :: 0 <= j < |r| ==> NoSpace(r[j])
    decreases |s|
  {
    var w := TakeWord(s);
    if |w| == |s| then [s]
    else
      var rest := TrimStart(s[|w|..]);
      assert |rest| < |s| - |w|;
      [w] + SplitWords(rest)
  }

  /** The tokens classNamesHash records for a string argument. */
  function ClassTokens(s: string): seq<string> {
    SplitWords(Trim(s))
  }

  /** Tokens separated by single spaces. */
  function Join(ts: seq<string>): string {
    if ts == [] then "" else if |ts| == 1 then ts[0] else ts[0] + " " + Join(ts[1..])
  }

  /** A word and a space-led remainder: TakeWord stops at the space. */
  lemma {:induction false} TakeWordBeforeSpace(w: string, t: string)
    requires NoSpace(w) && (t == [] || IsSpace(t[0]))
    ensures TakeWord(w + t) == w
  {
    if w != [] {
      assert (w + t)[1..] == w[1..] + t;
      TakeWordBeforeSpace(w[1..], t);
    }
  }

  predicate IsWord(t: string) {
    t != [] && NoSpace(t)
  }

  /** Splitting undoes joining: non-empty words without white space, joined
      with single spaces, split back into the same words. */
  lemma {:induction false} SplitJoin(ts: seq<string>)
    requires |ts| >= 1 && forall j :: 0 <= j < |ts| ==> IsWord(ts[j])
    ensures SplitWords(Join(ts)) == ts
  {
    if |ts| == 1 {
      TakeWordBeforeSpace(ts[0], []);
      assert ts[0] + [] == ts[0];
    } else {
      var tail := Join(ts[1..]);
      assert forall j :: 0 <= j < |ts[1..]| ==> IsWord(ts[1..][j]) by {
        forall j | 0 <= j < |ts[1..]| ensures IsWord(ts[1..][j]) {
          assert ts[1..][j] == ts[j + 1];
        }
      }
      JoinStartsWithWord(ts[1..]);
      SplitJoin(ts[1..]);
      assert SplitWords(Join(ts)) == [ts[0]] + SplitWords(tail) by {
        assert IsWord(ts[0]);
        assert Join(ts) == ts[0] + " " + tail;
        SplitWordsStep(ts[0], tail);
      }
      assert ts == [ts[0]] + ts[1..];
    }
  }

  /** A word, one space and a string starting with a non-space character
      split into the word and the pieces of the rest. */
  lemma SplitWordsStep(w: string, tail: string)
    requires IsWord(w) && tail != [] && !IsSpace(tail[0])
    ensures SplitWords(w + " " + tail) == [w] + SplitWords(tail)
  {
    var s := w + (" " + tail);
    assert w + " " + tail == s;
    TakeWordBeforeSpace(w, " " + tail);
    assert s[|w|..] == " " + tail;
    TrimStartOfSpace(tail);
  }

  lemma TrimStartOfSpace(t: string)
    requires t != [] && !IsSpace(t[0])
    ensures TrimStart(" " + t) == t
  {
    assert (" " + t)[1..] == t;
  }

  /** A join of words starts and ends with a word character. */
  lemma {:induction false} JoinStartsWithWord(ts: seq<string>)
    requires |ts| >= 1 && forall j :: 0 <= j < |ts| ==> IsWord(ts[j])
    ensures |Join(ts)| >= 1 && !IsSpace(Join(ts)[0]) && !IsSpace(Join(ts)[|Join(ts)| - 1])
  {
    if |ts| > 1 {
      JoinStartsWithWord(ts[1..]);
      var tail := Join(ts[1..]);
      assert Join(ts) == ts[0] + " " + tail;
      assert Join(ts)[0] == ts[0][0];
    }
  }

  /** The tokens of a string that has a non-space character are non-empty
      words; a blank string gives the single empty token. */
  lemma {:induction false} SplitTrimmedWords(s: string)
    requires s == [] || (!IsSpace(s[0]) && !IsSpace(s[|s| - 1]))
    ensures s != [] ==> forall j :: 0 <= j < |SplitWords(s)| ==> SplitWords(s)[j] != []
    ensures s == [] ==> SplitWords(s) == [""]
    decreases |s|
  {
    var w := TakeWord(s);
    if s != [] && |w| < |s| {
      var rest := TrimStart(s[|w|..]);
      assert rest != [] && !IsSpace(rest[0]) && !IsSpace(rest[|rest| - 1]) by {
        assert s[|s| - 1] == s[|w|..][|s| - |w| - 1];
        assert rest[|rest| - 1] == s[|s| - 1];
      }
      SplitTrimmedWords(rest);
      assert w != [];
      assert SplitWords(s) == [w] + SplitWords(rest);
    }
  }

  /** What a string argument records: the single empty token when the string
      is blank, otherwise its white-space separated words in order. */
  lemma ClassTokensMeaning(s: string)
    ensures (forall i :: 0 <= i < |s| ==> IsSpace(s[i])) ==> ClassTokens(s) == [""]
    ensures (exists i :: 0 <= i < |s| && !IsSpace(s[i])) ==>
      forall j :: 0 <= j < |ClassTokens(s)| ==> IsWord(ClassTokens(s)[j])
  {
    SplitTrimmedWords(Trim(s));
  }

  /** The words of a string are recovered from the string the words make. */
  lemma ClassTokensOfJoin(ts: seq<string>)
    requires |ts| >= 1 && forall j :: 0 <= j < |ts| ==> IsWord(ts[j])
    ensures ClassTokens(Join(ts)) == ts
  {
    JoinStartsWithWord(ts);
    TrimTrimmed(Join(ts));
    SplitJoin(ts);
  }

  // ---------------------------------------------------------------------------
  // The hash

  /** The names of the set's own methods. They are non-writable properties of
      the prototype, so a class of that name cannot be recorded. */
  predicate Reserved(k: string) {
    k == "add" || k == "invert" || k == "toString"
  }

  /** The argument of classSet and add: a string, an object whose own
      enumerable properties are merged, or a value that contributes no
      property (undefined, null, a number, a boolean). */
  datatype ClassConfig = Text(s: string) | Dict(o: Object<JsValue>) | NoClasses

  /** An object argument is a well-formed object. */
  ghost predicate ValidConfig(c: ClassConfig) {
    c.Dict? ==> c.o.Valid()
  }

  /** No class the argument contributes names one of the set's methods. */
  ghost predicate Admissible(c: ClassConfig) {
    ValidConfig(c) &&
    match c
    case Text(s) => forall j :: 0 <= j < |ClassTokens(s)| ==> !Reserved(ClassTokens(s)[j])
    case Dict(o) => forall j :: 0 <= j < |o.keys| ==> !Reserved(o.keys[j])
    case NoClasses => true
  }

  /** `hash[t] = true` for each token in turn. */
  function AddTokens(o: Object<JsValue>, ts: seq<string>): Object<JsValue> {
    if ts == [] then o else Put(AddTokens(o, ts[..|ts| - 1]), ts[|ts| - 1], Bool(true))
  }

  /** classNamesHash(hash, classes), as a value. */
  function AddNames(o: Object<JsValue>, c: ClassConfig): Object<JsValue>
    requires ValidConfig(c)
  {
    match c
    case Text(s) => AddTokens(o, ClassTokens(s))
    case Dict(d) => Assign(o, d)
    case NoClasses => o
  }

  lemma {:induction false} AddTokensValid(o: Object<JsValue>, ts: seq<string>)
    requires o.Valid()
    ensures AddTokens(o, ts).Valid()
  {
    if ts != [] {
      AddTokensValid(o, ts[..|ts| - 1]);
      PutProperties(AddTokens(o, ts[..|ts| - 1]), ts[|ts| - 1], Bool(true));
    }
  }

  /** Recording tokens: every token is present with flag true, nothing is
      removed, and the other keys keep their values. */
  lemma {:induction false} AddTokensContents(o: Object<JsValue>, ts: seq<string>)
    ensures forall k :: k in AddTokens(o, ts).props <==> k in o.props || k in ts
    ensures forall k :: k in ts ==> AddTokens(o, ts).props[k] == Bool(true)
    ensures forall k :: k in o.props && k !in ts ==> AddTokens(o, ts).props[k] == o.props[k]
  {
    if ts != [] {
      AddTokensContents(o, ts[..|ts| - 1]);
      assert ts == ts[..|ts| - 1] + [ts[|ts| - 1]];
    }
  }

  /** Re-adding tokens that are already there moves no key. */
  lemma {:induction false} AddTokensExisting(o: Object<JsValue>, ts: seq<string>)
    requires o.Valid()
    requires forall j :: 0 <= j < |ts| ==> ts[j] in o.props
    ensures AddTokens(o, ts).keys == o.keys
  {
    if ts != [] {
      var front := ts[..|ts| - 1];
      AddTokensExisting(o, front);
      AddTokensValid(o, front);
      AddTokensContents(o, front);
      PutProperties(AddTokens(o, front), ts[|ts| - 1], Bool(true));
    }
  }

  /** Every key flagged true. */
  function AllTrue(ks: seq<string>): (m: map<string, JsValue>)
    ensures forall k :: k in m <==> k in ks
    ensures forall k :: k in m ==> m[k] == Bool(true)
  {
    map k | k in ks :: Bool(true)
  }

  lemma {:induction false} InsertIndexAtEnd(keys: seq<string>, k: string)
    requires IsArrayIndex(k) && InKeyOrder(keys + [k])
    ensures InsertIndex(keys, k) == keys + [k]
  {
    if keys != [] {
      var s := keys + [k];
      assert s[0] == keys[0] && s[|keys|] == k;
      assert keys[1..] + [k] == s[1..];
      forall i, j | 0 <= i < j < |s[1..]| && IsArrayIndex(s[1..][j])
        ensures IsArrayIndex(s[1..][i]) && DecimalValue(s[1..][i]) <= DecimalValue(s[1..][j])
      {
        assert s[1..][i] == s[i + 1] && s[1..][j] == s[j + 1];
      }
      InsertIndexAtEnd(keys[1..], k);
      assert keys == [keys[0]] + keys[1..];
    }
  }

  /** Keys that are already in Object.keys order are recorded in that order. */
  lemma {:induction false} AddTokensInOrder(ks: seq<string>)
    requires Distinct(ks) && InKeyOrder(ks)
    ensures AddTokens(Empty(), ks) == Object(ks, AllTrue(ks))
  {
    if ks != [] {
      var front := ks[..|ks| - 1];
      var k := ks[|ks| - 1];
      assert ks == front + [k];
      PrefixInOrder(ks, |ks| - 1);
      AddTokensInOrder(front);
      var o := Object(front, AllTrue(front));
      assert AddTokens(Empty(), ks) == Put(o, k, Bool(true));
      assert k !in o.props;
      assert InsertKey(front, k) == ks by {
        if IsArrayIndex(k) {
          InsertIndexAtEnd(front, k);
        }
      }
      assert AllTrue(front)[k := Bool(true)] == AllTrue(ks);
    }
  }

  lemma PrefixInOrder(ks: seq<string>, n: nat)
    requires Distinct(ks) && InKeyOrder(ks) && n <= |ks|
    ensures Distinct(ks[..n]) && InKeyOrder(ks[..n])
  {
    var p := ks[..n];
    forall i, j | 0 <= i < j < |p| ensures p[i] == ks[i] && p[j] == ks[j] { }
  }

  // ---------------------------------------------------------------------------
  // toString

  /** One step of the toString loop: a space goes before the key unless the
      string is still empty (`string.length` is zero only for ''). */
  function Emit(acc: string, key: string): string {
    if |acc| > 0 then acc + " " + key else acc + key
  }

  /** The string the toString loop has built after the keys `ks`. */
  function SerializeKeys(ks: seq<string>, props: map<string, JsValue>): string {
    if ks == [] then ""
    else
      var acc := SerializeKeys(ks[..|ks| - 1], props);
      var k := ks[|ks| - 1];
      if k in props && Truthy(props[k]) then Emit(acc, k) else acc
  }

  /** The keys whose flags are truthy, in key order. */
  function TruthyKeys(ks: seq<string>, props: map<string, JsValue>): seq<string> {
    if ks == [] then []
    else
      var k := ks[|ks| - 1];
      TruthyKeys(ks[..|ks| - 1], props) + (if k in props && Truthy(props[k]) then [k] else [])
  }

  /** What toString returns for a hash. */
  function Serialize(o: Object<JsValue>): string {
    SerializeKeys(o.keys, o.props)
  }

  lemma {:induction false} JoinSnoc(ts: seq<string>, k: string)
    requires |ts| >= 1
    ensures Join(ts + [k]) == Join(ts) + " " + k
  {
    if |ts| > 1 {
      assert (ts + [k])[1..] == ts[1..] + [k];
      JoinSnoc(ts[1..], k);
    }
  }

  /** toString is the truthy keys joined by single spaces, provided no truthy
      key is the empty string. */
  lemma {:induction false} SerializeIsJoin(ks: seq<string>, props: map<string, JsValue>)
    requires forall j :: 0 <= j < |TruthyKeys(ks, props)| ==> TruthyKeys(ks, props)[j] != ""
    ensures SerializeKeys(ks, props) == Join(TruthyKeys(ks, props))
  {
    if ks != [] {
      var front := ks[..|ks| - 1];
      var k := ks[|ks| - 1];
      var t := TruthyKeys(front, props);
      var flag := k in props && Truthy(props[k]);
      assert TruthyKeys(ks, props) == t + (if flag then [k] else []);
      assert forall j :: 0 <= j < |t| ==> t[j] != "" by {
        forall j | 0 <= j < |t| ensures t[j] != "" {
          assert t[j] == TruthyKeys(ks, props)[j];
        }
      }
      SerializeIsJoin(front, props);
      if flag {
        if t == [] {
          assert t + [k] == [k];
        } else {
          assert Join(t + [k]) == Join(t) + " " + k by {
            JoinSnoc(t, k);
          }
          JoinStartsWithWordLength(t);
        }
      } else {
        assert t + [] == t;
      }
    }
  }

  /** A join of non-empty strings is non-empty. */
  lemma {:induction false} JoinStartsWithWordLength(ts: seq<string>)
    requires |ts| >= 1 && forall j :: 0 <= j < |ts| ==> ts[j] != ""
    ensures |Join(ts)| > 0
  {
    if |ts| > 1 {
      assert |Join(ts)| >= |ts[0]|;
    }
  }

  /** toString gives '' exactly when every truthy key is the empty string. */
  lemma {:induction false} SerializeEmptyIff(ks: seq<string>, props: map<string, JsValue>)
    ensures SerializeKeys(ks, props) == "" <==>
      forall j :: 0 <= j < |TruthyKeys(ks, props)| ==> TruthyKeys(ks, props)[j] == ""
  {
    if ks != [] {
      var front := ks[..|ks| - 1];
      var k := ks[|ks| - 1];
      var t := TruthyKeys(front, props);
      assert forall j :: 0 <= j < |t| ==> t[j] == TruthyKeys(ks, props)[j];
      SerializeEmptyIff(front, props);
      if k in props && Truthy(props[k]) {
        assert k == TruthyKeys(ks, props)[|t|];
      }
    }
  }

  /** The output holds exactly the truthy keys, in key order. */
  lemma {:induction false} TruthyKeysMeaning(ks: seq<string>, props: map<string, JsValue>)
    ensures forall k :: k in TruthyKeys(ks, props) <==> k in ks && k in props && Truthy(props[k])
  {
    if ks != [] {
      TruthyKeysMeaning(ks[..|ks| - 1], props);
      assert ks == ks[..|ks| - 1] + [ks[|ks| - 1]];
    }
  }

  lemma ClassTokensExamples()
    ensures ClassTokens("a") == ["a"]
    ensures ClassTokens("") == [""]
  {
    assert TakeWord("a") == "a";
  }

  /** The hash after recording "a" and then "". */
  lemma AddBlankAfterA()
    ensures Admissible(Text("a")) && Admissible(Text(""))
    ensures AddNames(AddNames(Empty(), Text("a")), Text("")).keys == ["a", ""]
    ensures AddNames(AddNames(Empty(), Text("a")), Text("")).props == map["a" := Bool(true), "" := Bool(true)]
  {
    ClassTokensExamples();
    var o1 := AddTokens(Empty(), ["a"]);
    assert o1 == Object(["a"], map["a" := Bool(true)]) by {
      assert !IsArrayIndex("a");
      assert o1 == Put(AddTokens(Empty(), []), "a", Bool(true));
    }
    var o2 := AddTokens(o1, [""]);
    assert o2.keys == ["a", ""] && o2.props == map["a" := Bool(true), "" := Bool(true)] by {
      assert !IsArrayIndex("");
      assert o2 == Put(AddTokens(o1, []), "", Bool(true));
    }
  }

  lemma SerializeAThenBlank(props: map<string, JsValue>)
    requires props == map["a" := Bool(true), "" := Bool(true)]
    ensures SerializeKeys(["a", ""], props) == "a "
  {
    assert ["a", ""][..1] == ["a"];
    assert ["a"][..0] == [];
    assert SerializeKeys(["a"], props) == "a";
  }

  /** A blank argument records the empty token, which toString then writes
      as a trailing space after earlier classes: classSet('a').add('') is 'a '. */
  lemma TrailingSpace()
    ensures Admissible(Text("a")) && Admissible(Text(""))
    ensures Serialize(AddNames(AddNames(Empty(), Text("a")), Text(""))) == "a "
  {
    AddBlankAfterA();
    SerializeAThenBlank(AddNames(AddNames(Empty(), Text("a")), Text("")).props);
  }

  // ---------------------------------------------------------------------------
  // invert

  /** Every flag replaced by the negation of its truthiness. */
  function Inverted(o: Object<JsValue>): (r: Object<JsValue>)
    ensures r.keys == o.keys
    ensures forall k :: k in r.props <==> k in o.props
    ensures forall k :: k in o.props ==> Truthy(r.props[k]) == !Truthy(o.props[k])
  {
    Object(o.keys, map k | k in o.props :: Bool(!Truthy(o.props[k])))
  }

  /** The hash after the invert loop has visited the keys `ks`. */
  function InvertKeys(o: Object<JsValue>, ks: seq<string>): Object<JsValue> {
    if ks == [] then o
    else
      var a := InvertKeys(o, ks[..|ks| - 1]);
      var k := ks[|ks| - 1];
      if k in a.props then Put(a, k, Bool(!Truthy(a.props[k]))) else a
  }

  lemma {:induction false} InvertKeysContents(o: Object<JsValue>, ks: seq<string>)
    requires Distinct(ks)
    ensures InvertKeys(o, ks).keys == o.keys
    ensures forall k :: k in InvertKeys(o, ks).props <==> k in o.props
    ensures forall k :: k in o.props && k in ks ==> InvertKeys(o, ks).props[k] == Bool(!Truthy(o.props[k]))
    ensures forall k :: k in o.props && k !in ks ==> InvertKeys(o, ks).props[k] == o.props[k]
  {
    if ks != [] {
      var front := ks[..|ks| - 1];
      PrefixDistinct(ks);
      InvertKeysContents(o, front);
      assert ks == front + [ks[|ks| - 1]];
    }
  }

  lemma {:induction false} InvertKeysHas(o: Object<JsValue>, ks: seq<string>, k: string)
    ensures k in InvertKeys(o, ks).props <==> k in o.props
  {
    if ks != [] {
      InvertKeysHas(o, ks[..|ks| - 1], k);
    }
  }

  lemma InvertedWellformed(o: Object<JsValue>)
    requires Wellformed(o)
    ensures Wellformed(Inverted(o))
  {
  }

  lemma PrefixDistinct(ks: seq<string>)
    requires Distinct(ks) && ks != []
    ensures Distinct(ks[..|ks| - 1]) && ks[|ks| - 1] !in ks[..|ks| - 1]
  {
    var front := ks[..|ks| - 1];
    forall i, j | 0 <= i < j < |front| ensures front[i] == ks[i] && front[j] == ks[j] { }
  }

  /** The invert loop, run over all the keys, inverts the hash. */
  lemma InvertKeysAll(o: Object<JsValue>)
    requires o.Valid()
    ensures InvertKeys(o, o.keys) == Inverted(o)
  {
    var r := InvertKeys(o, o.keys);
    InvertKeysContents(o, o.keys);
    SameAsInverted(o, r);
  }

  /** A hash with the same keys whose every flag is the negation of the
      original's is the inverted hash. */
  lemma SameAsInverted(o: Object<JsValue>, r: Object<JsValue>)
    requires o.Valid() && r.keys == o.keys
    requires forall k :: k in r.props <==> k in o.props
    requires forall k :: k in o.props && k in o.keys ==> r.props[k] == Bool(!Truthy(o.props[k]))
    ensures r == Inverted(o)
  {
    var inv := Inverted(o);
    assert r.props == inv.props by {
      forall k | k in r.props ensures r.props[k] == inv.props[k] {
        assert k in o.keys;
      }
    }
  }

  /** Inverting twice restores every key's truthiness, and after one
      inversion a third gives back the first. */
  lemma InvertTwice(o: Object<JsValue>)
    ensures Inverted(Inverted(o)).keys == o.keys
    ensures forall k :: k in o.props ==> Truthy(Inverted(Inverted(o)).props[k]) == Truthy(o.props[k])
    ensures Inverted(Inverted(Inverted(o))) == Inverted(o)
  {
    var a := Inverted(o);
    var c := Inverted(Inverted(a));
    assert c.props == a.props by {
      forall k | k in a.props ensures c.props[k] == a.props[k] {
        assert a.props[k] == Bool(!Truthy(o.props[k]));
      }
    }
  }

  /** After inverting, toString writes exactly the keys that were falsy. */
  lemma {:induction false} InvertedTruthyKeys(ks: seq<string>, o: Object<JsValue>)
    requires forall j :: 0 <= j < |ks| ==> ks[j] in o.props
    ensures forall k :: k in TruthyKeys(ks, Inverted(o).props) <==> k in ks && !Truthy(o.props[k])
  {
    TruthyKeysMeaning(ks, Inverted(o).props);
  }

  // ---------------------------------------------------------------------------
  // Round trip

  /** A hash built from a string: valid, every flag true, every key a token. */
  lemma BuiltFromText(s: string)
    ensures AddTokens(Empty(), ClassTokens(s)).Valid()
    ensures AddTokens(Empty(), ClassTokens(s)).props == AllTrue(AddTokens(Empty(), ClassTokens(s)).keys)
    ensures forall k :: k in AddTokens(Empty(), ClassTokens(s)).keys <==> k in ClassTokens(s)
  {
    var ts := ClassTokens(s);
    AddTokensValid(Empty(), ts);
    AddTokensContents(Empty(), ts);
  }

  /** The hash holding only the empty token serialises as the empty string. */
  lemma BlankHash()
    ensures Serialize(AddTokens(Empty(), [""])) == ""
  {
    var o := AddTokens(Empty(), [""]);
    assert o == Put(AddTokens(Empty(), []), "", Bool(true));
    assert !IsArrayIndex("");
    assert o == Object([""], map["" := Bool(true)]);
    assert [""][..0] == [];
    assert SerializeKeys([""], o.props) == Emit("", "");
  }

  lemma RoundTripBlank(s: string)
    requires forall i :: 0 <= i < |s| ==> IsSpace(s[i])
    ensures Serialize(AddTokens(Empty(), ClassTokens(s))) == ""
    ensures AddTokens(Empty(), ClassTokens(s)) == AddTokens(Empty(), ClassTokens(""))
  {
    assert ClassTokens(s) == [""] by {
      ClassTokensMeaning(s);
    }
    assert ClassTokens("") == [""] by {
      ClassTokensExamples();
    }
    BlankHash();
  }

  lemma RoundTripWords(s: string)
    requires exists i :: 0 <= i < |s| && !IsSpace(s[i])
    ensures AddTokens(Empty(), ClassTokens(Serialize(AddTokens(Empty(), ClassTokens(s)))))
      == AddTokens(Empty(), ClassTokens(s))
    ensures forall k :: k in ClassTokens(Serialize(AddTokens(Empty(), ClassTokens(s)))) ==> k in ClassTokens(s)
  {
    ClassTokensMeaning(s);
    RoundTripTokens(ClassTokens(s));
  }

  lemma BuiltFromWords(ts: seq<string>)
    requires |ts| >= 1 && forall j :: 0 <= j < |ts| ==> IsWord(ts[j])
    ensures var o := AddTokens(Empty(), ts);
      o.props == AllTrue(o.keys) && |o.keys| >= 1
      && (forall j :: 0 <= j < |o.keys| ==> IsWord(o.keys[j]) && o.keys[j] in ts)
  {
    var o := AddTokens(Empty(), ts);
    AddTokensValid(Empty(), ts);
    AddTokensContents(Empty(), ts);
    assert ts[0] in ts;
    forall j | 0 <= j < |o.keys| ensures IsWord(o.keys[j]) && o.keys[j] in ts {
      assert o.keys[j] in ts;
    }
  }

  lemma SerializeBuilt(ts: seq<string>)
    requires |ts| >= 1 && forall j :: 0 <= j < |ts| ==> IsWord(ts[j])
    ensures Serialize(AddTokens(Empty(), ts)) == Join(AddTokens(Empty(), ts).keys)
  {
    var o := AddTokens(Empty(), ts);
    BuiltFromWords(ts);
    assert TruthyKeys(o.keys, o.props) == o.keys by {
      AllTruthyKeys(o.keys, o.props);
    }
    assert forall j :: 0 <= j < |o.keys| ==> o.keys[j] != "" by {
      forall j | 0 <= j < |o.keys| ensures o.keys[j] != "" {
        assert IsWord(o.keys[j]);
      }
    }
    SerializeIsJoin(o.keys, o.props);
  }

  lemma RebuildBuilt(ts: seq<string>)
    requires |ts| >= 1 && forall j :: 0 <= j < |ts| ==> IsWord(ts[j])
    ensures AddTokens(Empty(), AddTokens(Empty(), ts).keys) == AddTokens(Empty(), ts)
  {
    var o := AddTokens(Empty(), ts);
    BuiltFromWords(ts);
    AddTokensValid(Empty(), ts);
    AddTokensInOrder(o.keys);
  }

  /** Words recorded, written out and read back are recorded the same way. */
  lemma RoundTripTokens(ts: seq<string>)
    requires |ts| >= 1 && forall j :: 0 <= j < |ts| ==> IsWord(ts[j])
    ensures AddTokens(Empty(), ClassTokens(Serialize(AddTokens(Empty(), ts)))) == AddTokens(Empty(), ts)
    ensures forall k :: k in ClassTokens(Serialize(AddTokens(Empty(), ts))) ==> k in ts
  {
    var ks := AddTokens(Empty(), ts).keys;
    BuiltFromWords(ts);
    SerializeBuilt(ts);
    ClassTokensOfJoin(ks);
    RebuildBuilt(ts);
    forall k | k in ks ensures k in ts {
      var j :| 0 <= j < |ks| && ks[j] == k;
    }
  }

  /** classSet(classSet(s).toString()) records the same classes, in the same
      order, as classSet(s). */
  lemma ToStringRoundTrip(s: string)
    requires Admissible(Text(s))
    ensures Admissible(Text(Serialize(AddNames(Empty(), Text(s)))))
    ensures AddNames(Empty(), Text(Serialize(AddNames(Empty(), Text(s))))) == AddNames(Empty(), Text(s))
  {
    if forall i :: 0 <= i < |s| ==> IsSpace(s[i]) {
      RoundTripBlank(s);
      ClassTokensExamples();
    } else {
      RoundTripWords(s);
      var u := ClassTokens(Serialize(AddNames(Empty(), Text(s))));
      forall j | 0 <= j < |u| ensures !Reserved(u[j]) {
        assert u[j] in u;
      }
    }
  }

  /** When every key is truthy, TruthyKeys keeps them all. */
  lemma {:induction false} AllTruthyKeys(ks: seq<string>, props: map<string, JsValue>)
    requires forall j :: 0 <= j < |ks| ==> ks[j] in props && Truthy(props[ks[j]])
    ensures TruthyKeys(ks, props) == ks
  {
    if ks != [] {
      AllTruthyKeys(ks[..|ks| - 1], props);
      assert ks == ks[..|ks| - 1] + [ks[|ks| - 1]];
    }
  }

  // ---------------------------------------------------------------------------
  // The set object

  /** The hash of a class set: a well-formed object none of whose keys names
      one of the set's methods. */
  ghost predicate Wellformed(o: Object<JsValue>) {
    o.Valid() && forall j :: 0 <= j < |o.keys| ==> !Reserved(o.keys[j])
  }

  /** Recording string tokens keeps the hash well formed and removes
      nothing. */
  lemma AddTokensWellformed(o: Object<JsValue>, ts: seq<string>)
    requires Wellformed(o) && forall j :: 0 <= j < |ts| ==> !Reserved(ts[j])
    ensures Wellformed(AddTokens(o, ts))
  {
    var r := AddTokens(o, ts);
    AddTokensValid(o, ts);
    AddTokensContents(o, ts);
    forall j | 0 <= j < |r.keys| ensures !Reserved(r.keys[j]) {
      var k := r.keys[j];
      assert k in r.props;
      if k in ts {
        var m :| 0 <= m < |ts| && ts[m] == k;
      } else {
        var m :| 0 <= m < |o.keys| && o.keys[m] == k;
      }
    }
  }

  /** Merging an admissible object keeps the hash well formed. */
  lemma AssignWellformed(o: Object<JsValue>, d: Object<JsValue>)
    requires Wellformed(o) && d.Valid() && forall j :: 0 <= j < |d.keys| ==> !Reserved(d.keys[j])
    ensures Wellformed(Assign(o, d))
  {
    var r := Assign(o, d);
    AssignProperties(o, d);
    forall j | 0 <= j < |r.keys| ensures !Reserved(r.keys[j]) {
      var k := r.keys[j];
      assert k in r.props;
      if k in d.props {
        var m :| 0 <= m < |d.keys| && d.keys[m] == k;
      } else {
        var m :| 0 <= m < |o.keys| && o.keys[m] == k;
      }
    }
  }

  /** classNamesHash keeps the hash well formed. */
  lemma AddNamesWellformed(o: Object<JsValue>, c: ClassConfig)
    requires Wellformed(o) && Admissible(c)
    ensures Wellformed(AddNames(o, c))
  {
    match c {
      case Text(s) => AddTokensWellformed(o, ClassTokens(s));
      case Dict(d) => AssignWellformed(o, d);
      case NoClasses =>
    }
  }

  class ClassSet {
    var hash: Object<JsValue>

    ghost predicate Valid()
      reads this
    {
      Wellformed(hash)
    }

    /** Object.create(proto): a set with no classes. */
    constructor ()
      ensures Valid() && hash == Empty()
    {
      hash := Empty();
    }

    /** add(className): records the classes and returns the same set. */
    method Add(className: ClassConfig) returns (r: ClassSet)
      requires Valid() && Admissible(className)
      modifies this
      ensures r == this && Valid()
      ensures hash == AddNames(old(hash), className)
    {
      AddNamesWellformed(hash, className);
      ClassNamesHash(this, className);
      r := this;
    }

    /** invert(): every flag becomes the negation of its truthiness, in place;
        returns the same set. */
    method Invert() returns (r: ClassSet)
      requires Valid()
      modifies this
      ensures r == this && Valid()
      ensures hash == Inverted(old(hash))
    {
      ghost var h0 := hash;
      var keys := hash.keys;
      var i := 0;
      while i < |keys|
        invariant 0 <= i <= |keys|
        invariant hash == InvertKeys(h0, keys[..i])
      {
        assert keys[..i + 1][..i] == keys[..i];
        var key := keys[i];
        InvertKeysHas(h0, keys[..i], key);
        hash := Put(hash, key, Bool(!Truthy(hash.props[key])));
        i := i + 1;
      }
      assert keys[..i] == keys;
      InvertKeysAll(h0);
      InvertedWellformed(h0);
      r := this;
    }

    /** toString(): the truthy keys in key order, a space before each one
        except when the string is still empty. */
    method ToString() returns (s: string)
      requires Valid()
      ensures s == Serialize(hash)
    {
      s := "";
      var keys := hash.keys;
      var i := 0;
      while i < |keys|
        invariant 0 <= i <= |keys|
        invariant s == SerializeKeys(keys[..i], hash.props)
      {
        var key := keys[i];
        assert keys[..i + 1][..i] == keys[..i];
        if Truthy(hash.props[key]) {
          Utf16LengthBounds(s);
          s := s + (if Utf16Length(s) != 0 then " " else "") + key;
        }
        i := i + 1;
      }
      assert keys[..i] == keys;
    }
  }

  /** classNamesHash(hash, classes): a string's tokens are written one by one
      with flag true; anything else is merged with Object.assign. */
  method ClassNamesHash(target: ClassSet, classes: ClassConfig)
    requires ValidConfig(classes)
    modifies target
    ensures target.hash == AddNames(old(target.hash), classes)
  {
    match classes {
      case Text(str) =>
        var tokens := SplitWords(Trim(str));
        RecordTokens(target, tokens);
      case Dict(d) =>
        target.hash := Assign(target.hash, d);
      case NoClasses =>
    }
  }

  /** The loop `hash[token] = true` over the split tokens, in order. */
  method RecordTokens(target: ClassSet, tokens: seq<string>)
    modifies target
    ensures target.hash == AddTokens(old(target.hash), tokens)
  {
    var i := 0;
    while i < |tokens|
      invariant 0 <= i <= |tokens|
      invariant target.hash == AddTokens(old(target.hash), tokens[..i])
    {
      assert tokens[..i + 1][..i] == tokens[..i];
      target.hash := Put(target.hash, tokens[i], Bool(true));
      i := i + 1;
    }
    assert tokens[..i] == tokens;
  }

  /** classSet(config): a fresh empty set to which `config` is added. */
  method NewClassSet(config: ClassConfig) returns (target: ClassSet)
    requires Admissible(config)
    ensures fresh(target) && target.Valid()
    ensures target.hash == AddNames(Empty(), config)
  {
    target := new ClassSet();
    AddNamesWellformed(target.hash, config);
    ClassNamesHash(target, config);
  }

  // ---------------------------------------------------------------------------
  // The classes a class attribute names

  /** The pieces that are not empty. */
  function NonEmpty(ts: seq<string>): (r: seq<string>)
    ensures forall t :: t in r <==> t in ts && t != ""
  {
    if ts == [] then [] else (if ts[0] == "" then [] else [ts[0]]) + NonEmpty(ts[1..])
  }

  /** The non-empty pieces between runs of JavaScript white space. For
      text whose only white space is ASCII these are the classes a class
      attribute value names; the DOM itself splits on ASCII white space
      alone. */
  function Classes(s: string): seq<string> {
    NonEmpty(SplitWords(s))
  }

  /** Leading white space names no class. */
  lemma ClassesTrimStart(s: string)
    ensures Classes(TrimStart(s)) == Classes(s)
  {
    if s != [] && IsSpace(s[0]) {
      assert TakeWord(s) == [];
      assert SplitWords(s) == [""] + SplitWords(TrimStart(s));
    }
  }

  /** A word followed by a space is the first class. */
  lemma ClassesAfterWord(w: string, t: string)
    requires IsWord(w)
    ensures Classes(w + " " + t) == [w] + Classes(t)
  {
    var s := w + (" " + t);
    assert w + " " + t == s;
    TakeWordBeforeSpace(w, " " + t);
    assert s[|w|..] == " " + t;
    assert TrimStart(" " + t) == TrimStart(t) by {
      assert (" " + t)[1..] == t;
    }
    ClassesTrimStart(t);
  }

  /** An empty piece followed by a space adds nothing. */
  lemma ClassesAfterSpace(t: string)
    ensures Classes(" " + t) == Classes(t)
  {
    ClassesTrimStart(" " + t);
    assert (" " + t)[1..] == t;
    ClassesTrimStart(t);
  }

  /** Pieces joined by single spaces name the non-empty pieces, in order,
      whether or not some pieces are empty. */
  lemma {:induction false} ClassesOfJoin(parts: seq<string>)
    requires |parts| >= 1 && forall j :: 0 <= j < |parts| ==> NoSpace(parts[j])
    ensures Classes(Join(parts)) == NonEmpty(parts)
  {
    if |parts| == 1 {
      TakeWordBeforeSpace(parts[0], []);
      assert parts[0] + [] == parts[0];
      assert NonEmpty(parts) == NonEmpty([parts[0]]);
    } else {
      var tail := Join(parts[1..]);
      assert forall j :: 0 <= j < |parts[1..]| ==> NoSpace(parts[1..][j]) by {
        forall j | 0 <= j < |parts[1..]| ensures NoSpace(parts[1..][j]) {
          assert parts[1..][j] == parts[j + 1];
        }
      }
      ClassesOfJoin(parts[1..]);
      assert NonEmpty(parts) == NonEmpty([parts[0]]) + NonEmpty(parts[1..]);
      assert Join(parts) == parts[0] + " " + tail;
      if parts[0] == "" {
        assert Join(parts) == " " + tail;
        ClassesAfterSpace(tail);
      } else {
        assert IsWord(parts[0]);
        ClassesAfterWord(parts[0], tail);
      }
    }
  }

  /** Five pieces joined by single spaces name the non-empty ones. */
  lemma ClassesOfFive(a: string, b: string, c: string, d: string, e: string)
    requires NoSpace(a) && NoSpace(b) && NoSpace(c) && NoSpace(d) && NoSpace(e)
    ensures Classes(a + " " + b + " " + c + " " + d + " " + e) == NonEmpty([a, b, c, d, e])
  {
    var parts := [a, b, c, d, e];
    assert forall j :: 0 <= j < |parts| ==> NoSpace(parts[j]) by {
      forall j | 0 <= j < |parts| ensures NoSpace(parts[j]) {
        assert parts[j] in {a, b, c, d, e};
      }
    }
    assert Join(parts[4..]) == e;
    assert Join(parts[3..]) == d + " " + e;
    assert Join(parts[2..]) == c + " " + (d + " " + e);
    assert Join(parts[1..]) == b + " " + (c + " " + (d + " " + e));
    assert Join(parts) == a + " " + (b + " " + (c + " " + (d + " " + e)));
    assert a + " " + (b + " " + (c + " " + (d + " " + e))) == a + " " + b + " " + c + " " + d + " " + e;
    ClassesOfJoin(parts);
  }

  /** Four pieces joined by single spaces name the non-empty ones. */
  lemma ClassesOfFour(a: string, b: string, c: string, d: string)
    requires NoSpace(a) && NoSpace(b) && NoSpace(c) && NoSpace(d)
    ensures Classes(a + " " + b + " " + c + " " + d) == NonEmpty([a, b, c, d])
  {
    var parts := [a, b, c, d];
    assert forall j :: 0 <= j < |parts| ==> NoSpace(parts[j]) by {
      forall j | 0 <= j < |parts| ensures NoSpace(parts[j]) {
        assert parts[j] in {a, b, c, d};
      }
    }
    assert Join(parts[3..]) == d;
    assert Join(parts[2..]) == c + " " + d;
    assert Join(parts[1..]) == b + " " + (c + " " + d);
    assert Join(parts) == a + " " + (b + " " + (c + " " + d));
    assert a + " " + (b + " " + (c + " " + d)) == a + " " + b + " " + c + " " + d;
    ClassesOfJoin(parts);
  }

  /** NonEmpty keeps a non-empty first piece and drops an empty one. */
  lemma NonEmptyCons(x: string, ts: seq<string>)
    ensures NonEmpty([x] + ts) == (if x == "" then [] else [x]) + NonEmpty(ts)
  {
    assert ([x] + ts)[1..] == ts;
  }

  /** Three pieces joined by single spaces name the non-empty ones. */
  lemma ClassesOfThree(a: string, b: string, c: string)
    requires NoSpace(a) && NoSpace(b) && NoSpace(c)
    ensures Classes(a + " " + b + " " + c) == NonEmpty([a, b, c])
  {
    var parts := [a, b, c];
    assert forall j :: 0 <= j < |parts| ==> NoSpace(parts[j]) by {
      forall j | 0 <= j < |parts| ensures NoSpace(parts[j]) {
        assert parts[j] in {a, b, c};
      }
    }
    assert Join(parts[2..]) == c;
    assert Join(parts[1..]) == b + " " + c;
    assert Join(parts) == a + " " + (b + " " + c);
    assert a + " " + (b + " " + c) == a + " " + b + " " + c;
    ClassesOfJoin(parts);
  }

  /** Two pieces joined by a space name both. */
  lemma ClassesOfTwo(a: string, b: string)
    requires NoSpace(a) && NoSpace(b) && a != "" && b != ""
    ensures Classes(a + " " + b) == [a, b]
  {
    var parts := [a, b];
    assert Join(parts[1..]) == b;
    ClassesOfJoin(parts);
    NonEmptyCons(a, [b]);
    NonEmptyCons(b, []);
  }

  /** A prefix followed by a word with no white space has none. */
  lemma PrefixedWord(p: string, w: string)
    requires NoSpace(p) && NoSpace(w)
    ensures NoSpace(p + w)
  {
    var v := p + w;
    forall i | 0 <= i < |v| ensures !IsSpace(v[i]) {
      if i >= |p| {
        assert v[i] == w[i - |p|];
      }
    }
  }

  /** The prefix can be cancelled. */
  lemma PrefixCancel(p: string, a: string, b: string)
    requires p + a == p + b
    ensures a == b
  {
    assert a == (p + a)[|p|..];
  }
}
