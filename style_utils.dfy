// layout/styleUtils.js: the alignment and boundary class tables, the
// argument preparation of normalizeParam and computeLayoutClass, which builds
// a grid's class set one `add` at a time.

module StyleUtils {
  import opened JsValues
  import opened JsObjects
  import opened ClassSet

  // ---------------------------------------------------------------------------
  // The tables

  /** The characters the layout classes are spelled with. */
  predicate ClassChars(c: string) {
    forall i :: 0 <= i < |c| ==> ('a' <= c[i] <= 'z') || c[i] == '-' || c[i] == '_'
  }

  /** A class of one table: it is spelled with class characters and its
      eleventh character, after "kdds-grid_", tells the tables apart. */
  predicate TableClass(c: string, tag: char) {
    |c| > 10 && c[10] == tag && ClassChars(c)
  }

  /** A name spelled with class characters is one word of a class string,
      not an array index, and, once longer than eight characters, none of
      the set's method names. */
  lemma ClassCharsWord(c: string)
    requires c != [] && ClassChars(c)
    ensures IsWord(c) && !IsArrayIndex(c)
    ensures |c| > 8 ==> !Reserved(c)
  {
    assert !IsDigit(c[0]);
  }

  /** HALIN_CLASS[hAlign], for an own property of the table. */
  function HalinClass(hAlign: string): (r: Option<string>)
    ensures r.Some? <==> hAlign in HorizontalAlign
    ensures r.Some? ==> TableClass(r.value, 'a')
  {
    match hAlign
    case "center" => Some("kdds-grid_align-center")
    case "space" => Some("kdds-grid_align-space")
    case "spread" => Some("kdds-grid_align-spread")
    case "end" => Some("kdds-grid_align-end")
    case _ => None
  }

  /** VALIN_CLASS[vAlign], for an own property of the table. */
  function ValinClass(vAlign: string): (r: Option<string>)
    ensures r.Some? <==> vAlign in VerticalAlign
    ensures r.Some? ==> TableClass(r.value, 'v')
  {
    match vAlign
    case "start" => Some("kdds-grid_vertical-align-start")
    case "center" => Some("kdds-grid_vertical-align-center")
    case "end" => Some("kdds-grid_vertical-align-end")
    case "stretch" => Some("kdds-grid_vertical-stretch")
    case _ => None
  }

  /** BOUNDARY_CLASS[boundary], for an own property of the table. */
  function BoundaryClass(boundary: string): (r: Option<string>)
    ensures r.Some? <==> boundary in Boundary
    ensures r.Some? ==> TableClass(r.value, 'p')
  {
    match boundary
    case "small" => Some("kdds-grid_pull-padded")
    case "medium" => Some("kdds-grid_pull-padded-medium")
    case "large" => Some("kdds-grid_pull-padded-large")
    case _ => None
  }

  /** HORIZONTAL_ALIGN, VERTICAL_ALIGN and BOUNDARY: the tables' keys in the
      order the literals define them. */
  const HorizontalAlign: seq<string> := ["center", "space", "spread", "end"]
  const VerticalAlign: seq<string> := ["start", "center", "end", "stretch"]
  const Boundary: seq<string> := ["small", "medium", "large"]

  const RowsClass: string := "kdds-wrap"
  const GridClass: string := "kdds-grid"

  /** Names that start with a lower-case letter are not array indices, so
      any order of them is Object.keys order. */
  lemma LetterNames(l: seq<string>)
    requires forall j :: 0 <= j < |l| ==> l[j] != [] && 'a' <= l[j][0] <= 'z'
    ensures InKeyOrder(l) && forall j :: 0 <= j < |l| ==> !IsArrayIndex(l[j])
  {
    forall j | 0 <= j < |l| ensures !IsArrayIndex(l[j]) {
      assert !IsDigit(l[j][0]);
    }
  }

  /** No key is an array index and none repeats, so Object.keys lists each
      table's keys in the order the literal defines them. */
  lemma KeyListsInDefinitionOrder()
    ensures Distinct(HorizontalAlign) && InKeyOrder(HorizontalAlign)
    ensures Distinct(VerticalAlign) && InKeyOrder(VerticalAlign)
    ensures Distinct(Boundary) && InKeyOrder(Boundary)
  {
    LetterNames(HorizontalAlign);
    LetterNames(VerticalAlign);
    LetterNames(Boundary);
  }

  // ---------------------------------------------------------------------------
  // normalizeParam

  /** The arguments normalizeParam hands on to normalizeString. */
  datatype NormalizeRequest = NormalizeRequest(value: string, fallbackValue: JsValue, validValues: seq<string>)

  /** normalizeParam(value, valid, fallback), up to the call of
      normalizeString: a truthy value is lower-cased (only a string has
      toLowerCase; any other truthy value throws a TypeError, None here), a
      falsy one becomes ' '; the fallback defaults to ' ' and the list of
      valid values (None: a falsy argument) to the empty list. */
  function NormalizeParam(value: JsValue, valid: Option<seq<string>>, fallback: JsValue): (r: Option<NormalizeRequest>)
    ensures r.None? <==> Truthy(value) && !value.Str?
    ensures r.Some? && value.Str? && value.s != "" ==> r.value.value == LowerAsciiString(value.s)
    ensures r.Some? && !Truthy(value) ==> r.value.value == " "
    ensures r.Some? ==> Truthy(r.value.fallbackValue) && (Truthy(fallback) ==> r.value.fallbackValue == fallback)
    ensures r.Some? ==> r.value.validValues == if valid.Some? then valid.value else []
  {
    if Truthy(value) && !value.Str? then None
    else
      var v := if Truthy(value) then LowerAsciiString(value.s) else " ";
      Some(NormalizeRequest(v, if Truthy(fallback) then fallback else Str(" "), if valid.Some? then valid.value else []))
  }

  /** The prepared value is never empty and holds no upper-case letter, so
      preparing it again changes nothing. */
  lemma NormalizeParamIdempotent(value: JsValue, valid: Option<seq<string>>, fallback: JsValue)
    requires NormalizeParam(value, valid, fallback).Some?
    ensures var v := NormalizeParam(value, valid, fallback).value.value;
      v != "" && NormalizeParam(Str(v), valid, fallback) == NormalizeParam(value, valid, fallback)
  {
    var v := NormalizeParam(value, valid, fallback).value.value;
    assert LowerAsciiString(v) == v;
  }

  // ---------------------------------------------------------------------------
  // computeLayoutClass

  /** The class a table contributes for `key`: none for ' ', none for a key
      the table lacks, otherwise the table's class when it is truthy. */
  function Pick(cls: Option<string>, key: string): seq<string> {
    if key != " " && cls.Some? && Truthy(Str(cls.value)) then [cls.value] else []
  }

  /** The tokens of a layout, given the class each table holds for its
      argument (None: not a key of the table), in the order they are added. */
  function Layout(hAlign: string, h: Option<string>, vAlign: string, v: Option<string>,
                  boundary: string, b: Option<string>, multiRows: JsValue): seq<string> {
    [GridClass] + Pick(h, hAlign) + Pick(v, vAlign) + Pick(b, boundary) + (if Truthy(multiRows) then [RowsClass] else [])
  }

  /** The tokens of the class set computeLayoutClass returns. */
  function LayoutTokens(hAlign: string, vAlign: string, boundary: string, multiRows: JsValue): seq<string> {
    Layout(hAlign, HalinClass(hAlign), vAlign, ValinClass(vAlign), boundary, BoundaryClass(boundary), multiRows)
  }

  /** Classes as the three tables hold them. */
  predicate FromTables(h: Option<string>, v: Option<string>, b: Option<string>) {
    (h.Some? ==> TableClass(h.value, 'a')) && (v.Some? ==> TableClass(v.value, 'v')) && (b.Some? ==> TableClass(b.value, 'p'))
  }

  /** Each table contributes its class exactly for its own keys; ' ' is none
      of them. */
  lemma PickMeaning(hAlign: string, vAlign: string, boundary: string)
    ensures " " !in HorizontalAlign && " " !in VerticalAlign && " " !in Boundary
    ensures Pick(HalinClass(hAlign), hAlign) == if hAlign in HorizontalAlign then [HalinClass(hAlign).value] else []
    ensures Pick(ValinClass(vAlign), vAlign) == if vAlign in VerticalAlign then [ValinClass(vAlign).value] else []
    ensures Pick(BoundaryClass(boundary), boundary) == if boundary in Boundary then [BoundaryClass(boundary).value] else []
  {
  }

  lemma LayoutShape(hAlign: string, h: Option<string>, vAlign: string, v: Option<string>,
                    boundary: string, b: Option<string>, multiRows: JsValue)
    requires FromTables(h, v, b)
    ensures var ts := Layout(hAlign, h, vAlign, v, boundary, b, multiRows);
      ts[0] == GridClass &&
      (RowsClass in ts <==> Truthy(multiRows)) &&
      (Truthy(multiRows) ==> ts[|ts| - 1] == RowsClass) &&
      (forall c :: c in ts && TableClass(c, 'a') <==> c in Pick(h, hAlign)) &&
      (forall c :: c in ts && TableClass(c, 'v') <==> c in Pick(v, vAlign)) &&
      (forall c :: c in ts && TableClass(c, 'p') <==> c in Pick(b, boundary))
  {
  }

  /** What the result holds: the grid class first; a horizontal, vertical or
      boundary class exactly when the argument is a key of its table, and
      then the table's class for it; the wrap class exactly when multiRows
      is truthy, and then last. */
  lemma LayoutTokensShape(hAlign: string, vAlign: string, boundary: string, multiRows: JsValue)
    ensures var ts := LayoutTokens(hAlign, vAlign, boundary, multiRows);
      ts[0] == GridClass &&
      (RowsClass in ts <==> Truthy(multiRows)) &&
      (Truthy(multiRows) ==> ts[|ts| - 1] == RowsClass) &&
      (forall c :: c in ts && TableClass(c, 'a') <==> hAlign in HorizontalAlign && c == HalinClass(hAlign).value) &&
      (forall c :: c in ts && TableClass(c, 'v') <==> vAlign in VerticalAlign && c == ValinClass(vAlign).value) &&
      (forall c :: c in ts && TableClass(c, 'p') <==> boundary in Boundary && c == BoundaryClass(boundary).value)
  {
    LayoutShape(hAlign, HalinClass(hAlign), vAlign, ValinClass(vAlign), boundary, BoundaryClass(boundary), multiRows);
    PickMeaning(hAlign, vAlign, boundary);
  }

  /** Classes of different tables, and the two nine-character classes, are
      told apart by their length and their eleventh character. */
  lemma PartsDistinct(g: string, a: seq<string>, v: seq<string>, b: seq<string>, w: seq<string>)
    requires |g| == 9 && |a| <= 1 && |v| <= 1 && |b| <= 1 && |w| <= 1
    requires forall j :: 0 <= j < |a| ==> TableClass(a[j], 'a')
    requires forall j :: 0 <= j < |v| ==> TableClass(v[j], 'v')
    requires forall j :: 0 <= j < |b| ==> TableClass(b[j], 'p')
    requires forall j :: 0 <= j < |w| ==> |w[j]| == 9 && w[j] != g
    ensures Distinct([g] + a + v + b + w)
  {
    var ts := [g] + a + v + b + w;
    forall i, j | 0 <= i < j < |ts| ensures ts[i] != ts[j] {
      if j == |ts| - 1 && w != [] {
        assert ts[j] == w[0];
      }
    }
  }

  /** A layout class: spelled with class characters and longer than any of
      the set's method names. */
  predicate LongClass(c: string) {
    |c| > 8 && ClassChars(c)
  }

  /** Names that are all layout classes are words, none reserved and none an
      array index, so they are in Object.keys order. */
  lemma LongClassWords(ts: seq<string>)
    requires forall j :: 0 <= j < |ts| ==> LongClass(ts[j])
    ensures InKeyOrder(ts)
    ensures forall j :: 0 <= j < |ts| ==> IsWord(ts[j]) && !Reserved(ts[j]) && !IsArrayIndex(ts[j])
  {
    forall j | 0 <= j < |ts| ensures IsWord(ts[j]) && !Reserved(ts[j]) && !IsArrayIndex(ts[j]) {
      ClassCharsWord(ts[j]);
    }
  }

  /** Each part of a layout consists of layout classes, so the layout does. */
  lemma LongClassParts(g: seq<string>, a: seq<string>, v: seq<string>, b: seq<string>, w: seq<string>)
    requires forall j :: 0 <= j < |g| ==> LongClass(g[j])
    requires forall j :: 0 <= j < |a| ==> LongClass(a[j])
    requires forall j :: 0 <= j < |v| ==> LongClass(v[j])
    requires forall j :: 0 <= j < |b| ==> LongClass(b[j])
    requires forall j :: 0 <= j < |w| ==> LongClass(w[j])
    ensures forall j :: 0 <= j < |g + a + v + b + w| ==> LongClass((g + a + v + b + w)[j])
  {
    var ts := g + a + v + b + w;
    forall j | 0 <= j < |ts| ensures LongClass(ts[j]) {
      if j < |g| {
        assert ts[j] == g[j];
      } else if j < |g| + |a| {
        assert ts[j] == a[j - |g|];
      } else if j < |g| + |a| + |v| {
        assert ts[j] == v[j - |g| - |a|];
      } else if j < |g| + |a| + |v| + |b| {
        assert ts[j] == b[j - |g| - |a| - |v|];
      } else {
        assert ts[j] == w[j - |g| - |a| - |v| - |b|];
      }
    }
  }

  /** The grid and wrap classes are layout classes of nine characters that
      differ. */
  lemma FixedClasses()
    ensures LongClass(GridClass) && LongClass(RowsClass) && |GridClass| == 9 && |RowsClass| == 9
    ensures GridClass != RowsClass
  {
    assert GridClass[5] != RowsClass[5];
  }

  lemma LayoutWords(hAlign: string, h: Option<string>, vAlign: string, v: Option<string>,
                    boundary: string, b: Option<string>, multiRows: JsValue)
    requires FromTables(h, v, b)
    ensures var ts := Layout(hAlign, h, vAlign, v, boundary, b, multiRows);
      Distinct(ts) && InKeyOrder(ts) &&
      forall j :: 0 <= j < |ts| ==> IsWord(ts[j]) && !Reserved(ts[j]) && !IsArrayIndex(ts[j])
  {
    var w := if Truthy(multiRows) then [RowsClass] else [];
    var ph, pv, pb := Pick(h, hAlign), Pick(v, vAlign), Pick(b, boundary);
    var ts := [GridClass] + ph + pv + pb + w;
    assert ts == Layout(hAlign, h, vAlign, v, boundary, b, multiRows);
    FixedClasses();
    PartsDistinct(GridClass, ph, pv, pb, w);
    LongClassParts([GridClass], ph, pv, pb, w);
    LongClassWords(ts);
  }

  /** The tokens are distinct single words, none an array index and none a
      method name of the set. */
  lemma LayoutTokensWords(hAlign: string, vAlign: string, boundary: string, multiRows: JsValue)
    ensures var ts := LayoutTokens(hAlign, vAlign, boundary, multiRows);
      Distinct(ts) && InKeyOrder(ts) &&
      forall j :: 0 <= j < |ts| ==> IsWord(ts[j]) && !Reserved(ts[j]) && !IsArrayIndex(ts[j])
  {
    LayoutWords(hAlign, HalinClass(hAlign), vAlign, ValinClass(vAlign), boundary, BoundaryClass(boundary), multiRows);
  }

  /** The class string of the result: its tokens joined by single spaces,
      which split back into the same tokens. */
  lemma LayoutClassString(hAlign: string, vAlign: string, boundary: string, multiRows: JsValue)
    ensures var ts := LayoutTokens(hAlign, vAlign, boundary, multiRows);
      Serialize(Object(ts, AllTrue(ts))) == Join(ts) && ClassTokens(Join(ts)) == ts
  {
    var ts := LayoutTokens(hAlign, vAlign, boundary, multiRows);
    LayoutTokensWords(hAlign, vAlign, boundary, multiRows);
    WordsString(ts);
  }

  /** The set of a list of words, written out, is the words joined by single
      spaces, which split back into the same words. */
  lemma WordsString(ts: seq<string>)
    requires |ts| >= 1 && forall j :: 0 <= j < |ts| ==> IsWord(ts[j])
    ensures Serialize(Object(ts, AllTrue(ts))) == Join(ts) && ClassTokens(Join(ts)) == ts
  {
    WordsSerialize(ts, AllTrue(ts));
    ClassTokensOfJoin(ts);
  }

  lemma WordsSerialize(ts: seq<string>, props: map<string, JsValue>)
    requires props == AllTrue(ts) && forall j :: 0 <= j < |ts| ==> IsWord(ts[j])
    ensures SerializeKeys(ts, props) == Join(ts)
  {
    assert TruthyKeys(ts, props) == ts by {
      AllTruthyKeys(ts, props);
    }
    assert forall j :: 0 <= j < |ts| ==> ts[j] != "" by {
      forall j | 0 <= j < |ts| ensures ts[j] != "" {
        assert IsWord(ts[j]);
      }
    }
    SerializeIsJoin(ts, props);
  }

  /** A single word is read as a single class. */
  lemma SingleWord(w: string)
    requires IsWord(w)
    ensures ClassTokens(w) == [w]
  {
    ClassTokensOfJoin([w]);
    assert Join([w]) == w;
  }

  /** classSet(w) for a single word w: a set holding w alone. */
  method NewWordSet(w: string) returns (computedClass: ClassSet)
    requires IsWord(w) && !Reserved(w) && !IsArrayIndex(w)
    ensures fresh(computedClass) && computedClass.Valid()
    ensures computedClass.hash == Object([w], AllTrue([w]))
  {
    SingleWordAdded(Empty(), w);
    computedClass := NewClassSet(Text(w));
    assert Put(Empty(), w, Bool(true)) == Object([w], AllTrue([w])) by {
      assert Empty<JsValue>() == Object([w][..0], AllTrue([w][..0]));
      PutNext([w], 0);
      assert [w][..1] == [w];
    }
  }

  /** Adding a single word that is no method name sets its flag. */
  lemma SingleWordAdded(o: Object<JsValue>, w: string)
    requires IsWord(w) && !Reserved(w)
    ensures Admissible(Text(w)) && AddNames(o, Text(w)) == Put(o, w, Bool(true))
  {
    SingleWord(w);
    assert [w][..0] == [];
    assert AddTokens(o, [w]) == Put(AddTokens(o, []), w, Bool(true));
    assert AddTokens(o, []) == o;
  }

  /** Distinct words, none a method name of the set and none an array
      index: what the layout adds one by one. */
  predicate AddableWords(all: seq<string>) {
    Distinct(all) && forall j :: 0 <= j < |all| ==> IsWord(all[j]) && !Reserved(all[j]) && !IsArrayIndex(all[j])
  }

  /** computedClass.add(w) where w is the next of a list of distinct words
      and the set holds the words before it: it becomes the last key. */
  method AddNext(computedClass: ClassSet, w: string, ghost all: seq<string>, ghost k: nat)
    requires k < |all| && all[k] == w && AddableWords(all)
    requires computedClass.Valid() && computedClass.hash == Object(all[..k], AllTrue(all[..k]))
    modifies computedClass
    ensures computedClass.Valid() && computedClass.hash == Object(all[..k + 1], AllTrue(all[..k + 1]))
  {
    SingleWordAdded(computedClass.hash, w);
    var _ := computedClass.Add(Text(w));
    PutNext(all, k);
  }

  /** Setting the next word of a list of distinct non-index words on the
      set of the words before it appends it. */
  lemma PutNext(all: seq<string>, k: nat)
    requires k < |all| && Distinct(all) && !IsArrayIndex(all[k])
    ensures Put(Object(all[..k], AllTrue(all[..k])), all[k], Bool(true)) == Object(all[..k + 1], AllTrue(all[..k + 1]))
  {
    var w := all[k];
    assert w !in all[..k];
    assert all[..k + 1] == all[..k] + [w];
    assert AllTrue(all[..k + 1]) == AllTrue(all[..k])[w := Bool(true)];
  }

  /** `if (key !== ' ' && table[key]) computedClass.add(table[key])`, with
      `cls` the table's class for `key`; `k` counts the words added so far. */
  method AddPicked(computedClass: ClassSet, key: string, cls: Option<string>, ghost all: seq<string>, ghost k: nat)
    returns (ghost k': nat)
    requires Pick(cls, key) != [] ==> k < |all| && all[k] == cls.value
    requires AddableWords(all)
    requires k <= |all| && computedClass.Valid() && computedClass.hash == Object(all[..k], AllTrue(all[..k]))
    modifies computedClass
    ensures k' == k + |Pick(cls, key)| <= |all|
    ensures computedClass.Valid() && computedClass.hash == Object(all[..k'], AllTrue(all[..k']))
  {
    k' := k;
    if key != " " && cls.Some? && Truthy(Str(cls.value)) {
      AddNext(computedClass, cls.value, all, k);
      k' := k + 1;
    }
  }

  /** Where each part of a layout sits in it. */
  lemma Positions(g: seq<string>, a: seq<string>, v: seq<string>, b: seq<string>, w: seq<string>)
    ensures var all := g + a + v + b + w;
      |all| == |g| + |a| + |v| + |b| + |w| && all[..|g|] == g &&
      (a != [] ==> all[|g|] == a[0]) &&
      (v != [] ==> all[|g| + |a|] == v[0]) &&
      (b != [] ==> all[|g| + |a| + |v|] == b[0]) &&
      (w != [] ==> all[|g| + |a| + |v| + |b|] == w[0])
  {
  }

  /** The body of computeLayoutClass once each table has been read: the
      grid class, then each table's class when the argument is not ' ' and
      the table holds a truthy class for it, then the wrap class when
      multiRows is truthy. */
  method BuildLayout(hAlign: string, h: Option<string>, vAlign: string, v: Option<string>,
                     boundary: string, b: Option<string>, multiRows: JsValue)
    returns (computedClass: ClassSet)
    requires FromTables(h, v, b)
    ensures fresh(computedClass) && computedClass.Valid()
    ensures computedClass.hash.keys == Layout(hAlign, h, vAlign, v, boundary, b, multiRows)
    ensures computedClass.hash.props == AllTrue(Layout(hAlign, h, vAlign, v, boundary, b, multiRows))
  {
    ghost var all := Layout(hAlign, h, vAlign, v, boundary, b, multiRows);
    ghost var pw := if Truthy(multiRows) then [RowsClass] else [];
    LayoutWords(hAlign, h, vAlign, v, boundary, b, multiRows);
    ClassCharsWord(GridClass);
    computedClass := NewWordSet(GridClass);
    assert [GridClass] == all[..1];
    ghost var k := AddTableClasses(computedClass, hAlign, h, vAlign, v, boundary, b, pw);
    if Truthy(multiRows) {
      assert all[k] == RowsClass;
      AddNext(computedClass, RowsClass, all, k);
      k := k + 1;
    }
    assert all[..k] == all;
  }

  /** The three table lookups of computeLayoutClass, on a set holding the
      grid class: each adds its table's class when there is one. */
  method AddTableClasses(computedClass: ClassSet, hAlign: string, h: Option<string>, vAlign: string, v: Option<string>,
                         boundary: string, b: Option<string>, ghost pw: seq<string>)
    returns (ghost k: nat)
    requires AddableWords([GridClass] + Pick(h, hAlign) + Pick(v, vAlign) + Pick(b, boundary) + pw)
    requires computedClass.Valid() && computedClass.hash == Object([GridClass], AllTrue([GridClass]))
    modifies computedClass
    ensures k == 1 + |Pick(h, hAlign)| + |Pick(v, vAlign)| + |Pick(b, boundary)|
    ensures var all := [GridClass] + Pick(h, hAlign) + Pick(v, vAlign) + Pick(b, boundary) + pw;
      computedClass.Valid() && computedClass.hash == Object(all[..k], AllTrue(all[..k]))
  {
    ghost var ph, pv, pb := Pick(h, hAlign), Pick(v, vAlign), Pick(b, boundary);
    ghost var all := [GridClass] + ph + pv + pb + pw;
    Positions([GridClass], ph, pv, pb, pw);
    assert all[..1] == [GridClass];
    k := AddPicked(computedClass, hAlign, h, all, 1);
    k := AddPicked(computedClass, vAlign, v, all, k);
    k := AddPicked(computedClass, boundary, b, all, k);
  }

  /** computeLayoutClass(hAlign, vAlign, boundary, multiRows): a class set
      holding exactly the layout tokens, each flagged true, in order. */
  method ComputeLayoutClass(hAlign: string, vAlign: string, boundary: string, multiRows: JsValue)
    returns (computedClass: ClassSet)
    ensures fresh(computedClass) && computedClass.Valid()
    ensures computedClass.hash.keys == LayoutTokens(hAlign, vAlign, boundary, multiRows)
    ensures computedClass.hash.props == AllTrue(LayoutTokens(hAlign, vAlign, boundary, multiRows))
  {
    computedClass := BuildLayout(hAlign, HalinClass(hAlign), vAlign, ValinClass(vAlign),
                                 boundary, BoundaryClass(boundary), multiRows);
  }
}
