// icon/icon.js: the kd-icon component's getters. Each is a template string
// over the component's public properties.

module Icons {
  import opened JsValues
  import opened ClassSet

  /** The public properties of an icon. */
  datatype IconProps = IconProps(iconName: JsValue, size: JsValue, fillColor: JsValue, title: JsValue, svgClass: JsValue)

  /** A new icon: size 'medium', nothing else set. */
  const Defaults := IconProps(Undef, Str("medium"), Undef, Undef, Undef)

  // ---------------------------------------------------------------------------
  // iconPath

  const SpritePrefix := "./assets/icons.svg#icon-"

  /** iconPath: the icon's symbol in the SVG sprite. */
  function IconPath(iconName: JsValue): string {
    SpritePrefix + ToStr(iconName)
  }

  /** The icon name a sprite path refers to, if it is one. */
  function SpriteIconName(path: string): (r: Option<string>)
    ensures r.Some? ==> |r.value| == |path| - |SpritePrefix|
  {
    if |SpritePrefix| <= |path| && path[..|SpritePrefix|] == SpritePrefix then Some(path[|SpritePrefix|..]) else None
  }

  /** Every icon path names the icon's text, and a sprite path is the icon
      path of the name it refers to. */
  lemma IconPathRoundTrip(iconName: JsValue, path: string)
    ensures SpriteIconName(IconPath(iconName)) == Some(ToStr(iconName))
    ensures SpriteIconName(path).Some? ==> IconPath(Str(SpriteIconName(path).value)) == path
  {
    var p := IconPath(iconName);
    assert p[..|SpritePrefix|] == SpritePrefix;
    assert p[|SpritePrefix|..] == ToStr(iconName);
    if SpriteIconName(path).Some? {
      assert path == path[..|SpritePrefix|] + path[|SpritePrefix|..];
    }
  }

  /** Distinct icon names give distinct paths. */
  lemma IconPathInjective(a: JsValue, b: JsValue)
    requires IconPath(a) == IconPath(b)
    ensures ToStr(a) == ToStr(b)
  {
    IconPathRoundTrip(a, IconPath(a));
    IconPathRoundTrip(b, IconPath(b));
  }

  // ---------------------------------------------------------------------------
  // computedContainerStyle

  const ColorPrefix := "color: "

  /** computedContainerStyle: no style (undefined) for a falsy fill colour,
      otherwise a colour declaration. */
  function ComputedContainerStyle(fillColor: JsValue): Option<string> {
    if !Truthy(fillColor) then None else Some(ColorPrefix + ToStr(fillColor))
  }

  /** The colour a declaration of the form above sets, if it is one. */
  function DeclaredColor(style: string): (r: Option<string>)
    ensures r.Some? ==> |r.value| == |style| - |ColorPrefix|
  {
    if |ColorPrefix| <= |style| && style[..|ColorPrefix|] == ColorPrefix then Some(style[|ColorPrefix|..]) else None
  }

  /** There is a style exactly when the fill colour is truthy, and it sets
      the colour's text, whatever that text is. */
  lemma ContainerStyleColor(fillColor: JsValue)
    ensures ComputedContainerStyle(fillColor).None? <==> !Truthy(fillColor)
    ensures Truthy(fillColor) ==> DeclaredColor(ComputedContainerStyle(fillColor).value) == Some(ToStr(fillColor))
  {
    if Truthy(fillColor) {
      var style := ColorPrefix + ToStr(fillColor);
      assert style[..|ColorPrefix|] == ColorPrefix;
      assert style[|ColorPrefix|..] == ToStr(fillColor);
    }
  }

  // ---------------------------------------------------------------------------
  // computedIconClass

  const IconBase := "kdds-icon"
  const SizePrefix := "kdds-icon--"

  /** computedIconClass: the base class, the size class and the SVG class,
      separated by single spaces; an unset SVG class renders as its text. */
  function ComputedIconClass(size: JsValue, svgClass: JsValue): string {
    IconBase + " " + (SizePrefix + ToStr(size)) + " " + ToStr(svgClass)
  }

  /** The fixed class names hold no white space. */
  lemma IconNamesAreWords()
    ensures NoSpace(IconBase) && NoSpace(SizePrefix) && IconBase != "" && SizePrefix != ""
  {
  }

  /** The icon carries the base class, the class of its size, and the SVG
      class's text when that is not empty. */
  lemma IconClasses(size: JsValue, svgClass: JsValue)
    requires NoSpace(ToStr(size)) && NoSpace(ToStr(svgClass))
    ensures Classes(ComputedIconClass(size, svgClass)) ==
      [IconBase, SizePrefix + ToStr(size)] + (if ToStr(svgClass) == "" then [] else [ToStr(svgClass)])
  {
    var sz := SizePrefix + ToStr(size);
    var sv := ToStr(svgClass);
    IconNamesAreWords();
    PrefixedWord(SizePrefix, ToStr(size));
    ClassesOfThree(IconBase, sz, sv);
    NonEmptyCons(sv, []);
    NonEmptyCons(sz, [sv]);
    NonEmptyCons(IconBase, [sz, sv]);
  }

  /** A new icon with no SVG class carries the medium size class and a class
      named "undefined". */
  lemma DefaultIconClass()
    ensures Classes(ComputedIconClass(Defaults.size, Defaults.svgClass)) ==
      [IconBase, SizePrefix + "medium", "undefined"]
  {
    assert ToStr(Str("medium")) == "medium" && ToStr(Undef) == "undefined";
    assert NoSpace("medium") && NoSpace("undefined");
    IconClasses(Defaults.size, Defaults.svgClass);
  }
}
