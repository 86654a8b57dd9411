// button/button.js: the kd-button component's class and icon getters, and
// its focus, blur and click handlers. The handlers' effects (stopping the
// native event, dispatching a custom event) are recorded in a log.

module Buttons {
  import opened JsValues
  import opened ClassSet

  // ---------------------------------------------------------------------------
  // computedClass

  /** The class every button carries, and the prefix of its modifier
      classes. */
  const Base := "kdds-button"
  const Prefix := "kdds-button_"
  const DisabledName := Prefix + "disabled"
  const StretchName := Prefix + "stretch"

  /** The fixed class names hold no white space. */
  lemma NamesAreWords()
    ensures NoSpace(Base) && NoSpace(Prefix) && NoSpace(DisabledName) && NoSpace(StretchName)
    ensures Base != "" && Prefix != "" && DisabledName != "" && StretchName != ""
  {
    assert NoSpace("disabled") && NoSpace("stretch");
    PrefixedWord(Prefix, "disabled");
    PrefixedWord(Prefix, "stretch");
  }

  /** The variant's classes: none for 'base', otherwise the base class again
      and the variant's own class. */
  function VariantClass(variant: JsValue): string {
    if !StrictEquals(variant, Str("base")) then Base + " " + (Prefix + ToStr(variant)) else ""
  }

  /** The disabled and stretch pieces: the class when the flag is truthy,
      otherwise empty. */
  function DisabledPiece(disabled: JsValue): string {
    if Truthy(disabled) then DisabledName else ""
  }

  function StretchPiece(stretch: JsValue): string {
    if Truthy(stretch) then StretchName else ""
  }

  /** computedClass: four parts separated by single spaces, empty parts
      included. */
  function ComputedClass(variant: JsValue, disabled: JsValue, stretch: JsValue): string {
    Base + " " + VariantClass(variant) + " " + DisabledPiece(disabled) + " " + StretchPiece(stretch)
  }

  /** The classes a button carries. */
  function ButtonClasses(variant: JsValue, disabled: JsValue, stretch: JsValue): seq<string> {
    [Base] + VariantClasses(variant) + FlagClassList(disabled, stretch)
  }

  function VariantClasses(variant: JsValue): seq<string> {
    if variant != Str("base") then [Base, Prefix + ToStr(variant)] else []
  }

  function FlagClassList(disabled: JsValue, stretch: JsValue): seq<string> {
    (if Truthy(disabled) then [DisabledName] else []) + (if Truthy(stretch) then [StretchName] else [])
  }

  /** The classes of a computedClass-shaped value, with every piece a
      variable: the base, then the base again and the variant's class unless
      the variant is 'base', then the non-empty flag classes. */
  lemma ClassNamesOf(base: string, vc: string, v: string, d: string, st: string, isBase: bool)
    requires NoSpace(base) && NoSpace(v) && NoSpace(d) && NoSpace(st) && base != "" && v != ""
    requires vc == if isBase then "" else base + " " + v
    ensures Classes(base + " " + vc + " " + d + " " + st) ==
      [base] + (if isBase then [] else [base, v]) + NonEmpty([d, st])
  {
    if isBase {
      BaseVariantNames(base, d, st);
    } else {
      OtherVariantNames(base, v, d, st);
      assert base + " " + vc == base + " " + base + " " + v;
    }
  }

  lemma BaseVariantNames(base: string, d: string, st: string)
    requires NoSpace(base) && NoSpace(d) && NoSpace(st) && base != ""
    ensures Classes(base + " " + "" + " " + d + " " + st) == [base] + NonEmpty([d, st])
  {
    ClassesOfFour(base, "", d, st);
    NonEmptyCons("", [d, st]);
    NonEmptyCons(base, ["", d, st]);
  }

  lemma OtherVariantNames(base: string, v: string, d: string, st: string)
    requires NoSpace(base) && NoSpace(v) && NoSpace(d) && NoSpace(st) && base != "" && v != ""
    ensures Classes(base + " " + base + " " + v + " " + d + " " + st) == [base, base, v] + NonEmpty([d, st])
  {
    ClassesOfFive(base, base, v, d, st);
    NonEmptyCons(v, [d, st]);
    NonEmptyCons(base, [v, d, st]);
    NonEmptyCons(base, [base, v, d, st]);
  }

  /** The flag pieces hold no white space; the non-empty ones are the flag
      classes that are set. */
  lemma FlagClasses(disabled: JsValue, stretch: JsValue)
    ensures NonEmpty([DisabledPiece(disabled), StretchPiece(stretch)]) == FlagClassList(disabled, stretch)
    ensures NoSpace(DisabledPiece(disabled)) && NoSpace(StretchPiece(stretch))
  {
    NamesAreWords();
    FlagPieces(DisabledName, StretchName, Truthy(disabled), Truthy(stretch));
  }

  lemma FlagPieces(dn: string, sn: string, hasD: bool, hasSt: bool)
    requires dn != "" && sn != ""
    ensures NonEmpty([if hasD then dn else "", if hasSt then sn else ""]) ==
      (if hasD then [dn] else []) + (if hasSt then [sn] else [])
  {
    var d, st := if hasD then dn else "", if hasSt then sn else "";
    NonEmptyCons(d, [st]);
    NonEmptyCons(st, []);
  }

  /** The class attribute names the base class, then, for a variant other
      than 'base', the base class a second time and the variant's class,
      then the disabled and stretch classes when those flags are truthy. */
  lemma ComputedClassNames(variant: JsValue, disabled: JsValue, stretch: JsValue)
    requires NoSpace(ToStr(variant))
    ensures Classes(ComputedClass(variant, disabled, stretch)) == ButtonClasses(variant, disabled, stretch)
  {
    var v := Prefix + ToStr(variant);
    NamesAreWords();
    PrefixedWord(Prefix, ToStr(variant));
    FlagClasses(disabled, stretch);
    ClassNamesOf(Base, VariantClass(variant), v, DisabledPiece(disabled), StretchPiece(stretch), variant == Str("base"));
  }

  /** The fixed class names differ from one another. */
  lemma NamesDistinct()
    ensures Base != DisabledName && Base != StretchName && DisabledName != StretchName
  {
    assert |Base| == 11 && |DisabledName| == 20 && |StretchName| == 19;
  }

  /** The disabled class is there exactly when `disabled` is truthy, unless
      the variant itself is named "disabled"; likewise the stretch class. */
  lemma DisabledClass(variant: JsValue, disabled: JsValue, stretch: JsValue)
    ensures DisabledName in ButtonClasses(variant, disabled, stretch) <==>
      Truthy(disabled) || (variant != Str("base") && ToStr(variant) == "disabled")
    ensures StretchName in ButtonClasses(variant, disabled, stretch) <==>
      Truthy(stretch) || (variant != Str("base") && ToStr(variant) == "stretch")
  {
    var v := ToStr(variant);
    NamesDistinct();
    if Prefix + v == DisabledName {
      PrefixCancel(Prefix, v, "disabled");
    }
    if Prefix + v == StretchName {
      PrefixCancel(Prefix, v, "stretch");
    }
  }

  /** A variant named "disabled" makes an enabled button look disabled. */
  lemma VariantNamedDisabled()
    ensures DisabledName in Classes(ComputedClass(Str("disabled"), Bool(false), Bool(false)))
  {
    var variant := Str("disabled");
    assert ToStr(variant) == "disabled";
    assert NoSpace("disabled");
    DisabledClass(variant, Bool(false), Bool(false));
    ComputedClassNames(variant, Bool(false), Bool(false));
  }

  /** Without a stretch class the attribute ends in a space, and for 'base'
      with neither flag it is the base class followed by three spaces. */
  lemma TrailingSeparators(variant: JsValue, disabled: JsValue, stretch: JsValue)
    ensures !Truthy(stretch) ==> ComputedClass(variant, disabled, stretch)[|ComputedClass(variant, disabled, stretch)| - 1] == ' '
    ensures ComputedClass(Str("base"), Bool(false), Bool(false)) == Base + "   "
  {
  }

  // ---------------------------------------------------------------------------
  // The icon getters

  /** showLeftIcon. */
  predicate ShowLeftIcon(iconName: JsValue, iconPosition: JsValue) {
    Truthy(iconName) && StrictEquals(iconPosition, Str("left"))
  }

  /** showRightIcon. */
  predicate ShowRightIcon(iconName: JsValue, iconPosition: JsValue) {
    Truthy(iconName) && StrictEquals(iconPosition, Str("right"))
  }

  const IconBase := "kdds-button__icon"
  const IconLeft := IconBase + "_left"
  const IconRight := IconBase + "_right"

  /** The fixed icon class names hold no white space. */
  lemma IconNamesAreWords()
    ensures NoSpace(IconBase) && NoSpace(IconLeft) && NoSpace(IconRight)
    ensures IconBase != "" && IconLeft != "" && IconRight != ""
  {
    IconBaseWord();
    IconSideWords();
  }

  lemma IconBaseWord()
    ensures NoSpace(IconBase)
  {
  }

  lemma IconSideWords()
    ensures NoSpace(IconLeft) && NoSpace(IconRight)
  {
    assert NoSpace("_left") && NoSpace("_right");
    PrefixedWord(IconBase, "_left");
    PrefixedWord(IconBase, "_right");
  }

  /** computedIconClass. */
  function ComputedIconClass(iconPosition: JsValue): string {
    IconBase + " " + (if StrictEquals(iconPosition, Str("left")) then IconLeft else IconRight)
  }

  /** The two icons are never both shown, neither is without an icon name,
      and the icon classes place the icon on the side it is shown on; any
      position but 'left' gets the right-hand class. */
  lemma IconPlacement(iconName: JsValue, iconPosition: JsValue)
    ensures !(ShowLeftIcon(iconName, iconPosition) && ShowRightIcon(iconName, iconPosition))
    ensures !Truthy(iconName) ==> !ShowLeftIcon(iconName, iconPosition) && !ShowRightIcon(iconName, iconPosition)
    ensures Classes(ComputedIconClass(iconPosition)) ==
      [IconBase, if iconPosition == Str("left") then IconLeft else IconRight]
    ensures ShowLeftIcon(iconName, iconPosition) ==> ComputedIconClass(iconPosition) == IconBase + " " + IconLeft
    ensures ShowRightIcon(iconName, iconPosition) ==> ComputedIconClass(iconPosition) == IconBase + " " + IconRight
  {
    assert "left" != "right" by {
      assert "left"[0] != "right"[0];
    }
    var side := if iconPosition == Str("left") then IconLeft else IconRight;
    IconNamesAreWords();
    ClassesOfTwo(IconBase, side);
  }

  // ---------------------------------------------------------------------------
  // The event handlers

  /** What a handler does: stop the native event, or dispatch a custom event
      of the given name. */
  datatype Effect = StopPropagation(event: JsValue) | Dispatch(name: string)

  /** handleButtonFocus and handleButtonBlur: nothing while disabled,
      otherwise stop the native event and dispatch `name`. */
  function FocusEffects(disabled: JsValue, event: JsValue, name: string): (r: seq<Effect>)
  {
    if Truthy(disabled) then [] else [StopPropagation(event), Dispatch(name)]
  }

  /** handleButtonClick: always stop the native event, then dispatch 'click'
      unless disabled. */
  function ClickEffects(disabled: JsValue, event: JsValue): (r: seq<Effect>)
  {
    [StopPropagation(event)] + (if Truthy(disabled) then [] else [Dispatch("click")])
  }

  /** A disabled button dispatches nothing; a click is stopped either way,
      while focus and blur are stopped only when enabled. */
  lemma HandlerEffects(disabled: JsValue, event: JsValue, name: string)
    ensures Dispatch("click") in ClickEffects(disabled, event) <==> !Truthy(disabled)
    ensures StopPropagation(event) in ClickEffects(disabled, event)
    ensures Dispatch(name) in FocusEffects(disabled, event, name) <==> !Truthy(disabled)
    ensures StopPropagation(event) in FocusEffects(disabled, event, name) <==> !Truthy(disabled)
    ensures forall e :: e in ClickEffects(disabled, event) + FocusEffects(disabled, event, name) && e.Dispatch? ==>
      !Truthy(disabled)
  {
  }

  /** The public properties of a button, under the source's names except
      `labelText`, which holds `label` (a reserved word in Dafny). */
  datatype ButtonProps = ButtonProps(
    disabled: JsValue, labelText: JsValue, tabIndex: JsValue, title: JsValue, stretch: JsValue,
    variant: JsValue, iconName: JsValue, iconPosition: JsValue)

  class KdButton {
    var props: ButtonProps
    var effects: seq<Effect>

    /** A new button: variant 'neutral', icon on the left, nothing else set. */
    constructor ()
      ensures props == ButtonProps(Undef, Undef, Undef, Undef, Undef, Str("neutral"), Undef, Str("left"))
      ensures effects == []
    {
      props := ButtonProps(Undef, Undef, Undef, Undef, Undef, Str("neutral"), Undef, Str("left"));
      effects := [];
    }

    method HandleButtonFocus(event: JsValue)
      modifies this
      ensures props == old(props)
      ensures effects == old(effects) + FocusEffects(props.disabled, event, "focus")
    {
      if Truthy(props.disabled) {
        return;
      }
      effects := effects + [StopPropagation(event)];
      effects := effects + [Dispatch("focus")];
    }

    method HandleButtonBlur(event: JsValue)
      modifies this
      ensures props == old(props)
      ensures effects == old(effects) + FocusEffects(props.disabled, event, "blur")
    {
      if Truthy(props.disabled) {
        return;
      }
      effects := effects + [StopPropagation(event)];
      effects := effects + [Dispatch("blur")];
    }

    method HandleButtonClick(event: JsValue)
      modifies this
      ensures props == old(props)
      ensures effects == old(effects) + ClickEffects(props.disabled, event)
    {
      effects := effects + [StopPropagation(event)];
      if Truthy(props.disabled) {
        return;
      }
      effects := effects + [Dispatch("click")];
    }
  }
}
