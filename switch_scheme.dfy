/** `switchScheme`: for each entry of the `colorProperties` table, read the
    element's computed colour for that property and, when the entry's rule
    says the colour is wrong for a dark page, write its inversion into the
    element's inline style with priority `important`. */
module Scheme {
  import opened Wrappers
  import opened ColorCodec

  /** One entry of `colorProperties`: the CSS property (kebab case), whether
      the default colours matched by `rgbaRegexp` are rewritten too, and the
      goal sum of channels (765 for text, 0 for backgrounds). */
  datatype ColorProperty = ColorProperty(property: string, changeDefault: bool, colorGoal: int)

  const ColorProperties: seq<ColorProperty> := [
    ColorProperty("color", false, 765),
    ColorProperty("background-color", false, 0)
  ]

  /** One inline declaration as `elem.style.setProperty(property, value, priority)` stores it. */
  datatype Declaration = Declaration(value: string, important: bool)

  /** The condition of the `switch (colorGoal)` case for one entry; a goal other
      than 0 or 765 matches no case. A NaN sum fails both comparisons. */
  predicate Fires(entry: ColorProperty, rgbaValue: string) {
    var sum := ExtractRGB(rgbaValue);
    var isDefault := entry.changeDefault && IsDefaultColor(rgbaValue);
    if entry.colorGoal == 0 then (sum.Some? && sum.value > 300) || isDefault
    else if entry.colorGoal == 765 then (sum.Some? && sum.value < 400) || isDefault
    else false
  }

  /** The value `switchScheme` writes for one entry, `None` when it writes nothing. */
  function NewValue(entry: ColorProperty, rgbaValue: string): Option<string> {
    if Fires(entry, rgbaValue) then InvertColor(rgbaValue) else None
  }

  /** The inline style after the entries have been processed in order, given
      the element's computed colours. */
  function Restyled(style: map<string, Declaration>, entries: seq<ColorProperty>,
                    computed: string -> Color): map<string, Declaration>
  {
    if entries == [] then style
    else
      Restyle(Restyled(style, entries[..|entries| - 1], computed), entries[|entries| - 1], computed)
  }

  /** The inline style after one entry has been processed. */
  function Restyle(style: map<string, Declaration>, entry: ColorProperty,
                   computed: string -> Color): map<string, Declaration>
  {
    match NewValue(entry, Serialize(computed(entry.property)))
    case None => style
    case Some(v) => style[entry.property := Declaration(v, true)]
  }

  /** `m` and `n` agree on key `k`. */
  predicate SameAt(m: map<string, Declaration>, n: map<string, Declaration>, k: string) {
    (k in m <==> k in n) && (k in m ==> m[k] == n[k])
  }

  /** A DOM element; only its inline style is modelled. */
  class Element {
    var style: map<string, Declaration>

    constructor (style: map<string, Declaration>)
      ensures this.style == style
    {
      this.style := style;
    }
  }

  /** `switchScheme(elem)`; `computedStyle(p)` is what `getComputedStyle(elem)[p]`
      reports, as a colour. */
  method SwitchScheme(elem: Element, computedStyle: string -> Color)
    modifies elem`style
    ensures elem.style == Restyled(old(elem.style), ColorProperties, computedStyle)
  {
    for i := 0 to |ColorProperties|
      invariant elem.style == Restyled(old(elem.style), ColorProperties[..i], computedStyle)
    {
      var entry := ColorProperties[i];
      assert ColorProperties[..i + 1][..i] == ColorProperties[..i];
      var rgbaValue := Serialize(computedStyle(entry.property));
      var sum := ExtractRGB(rgbaValue);
      var write := false;
      if entry.colorGoal == 0 {
        write := (sum.Some? && sum.value > 300) || (entry.changeDefault && IsDefaultColor(rgbaValue));
      } else if entry.colorGoal == 765 {
        write := (sum.Some? && sum.value < 400) || (entry.changeDefault && IsDefaultColor(rgbaValue));
      }
      if write {
        var inverted := InvertColor(rgbaValue);
        if inverted.Some? {
          elem.style := elem.style[entry.property := Declaration(inverted.value, true)];
        }
      }
    }
  }

  // ---------------------------------------------------------------------
  // What the rule does to computed colours
  // ---------------------------------------------------------------------

  /** For both table entries the `rgbaRegexp` branch is switched off: the rule
      fires exactly on the sum test, and what it writes is the inverted colour. */
  lemma NewValueOfComputed(entry: ColorProperty, c: Color)
    requires entry in ColorProperties
    ensures NewValue(entry, Serialize(c)).Some? <==>
              (entry.colorGoal == 0 && c.r + c.g + c.b > 300) ||
              (entry.colorGoal == 765 && c.r + c.g + c.b < 400)
    ensures NewValue(entry, Serialize(c)).Some? ==> NewValue(entry, Serialize(c)) == Some(Serialize(Inverted(c)))
  {
    ExtractSerialized(c);
    InvertSerialized(c);
  }

  /** Processing one table entry writes the important inverted colour to its
      property when its sum test passes, and otherwise leaves the style as it
      was; other properties never change. */
  lemma RestyleEffect(style: map<string, Declaration>, entry: ColorProperty, computed: string -> Color)
    requires entry in ColorProperties
    ensures var s := Restyle(style, entry, computed);
            var c := computed(entry.property);
            var fires := (entry.colorGoal == 0 && c.r + c.g + c.b > 300) ||
                         (entry.colorGoal == 765 && c.r + c.g + c.b < 400);
            && (fires ==> entry.property in s && s[entry.property] == Declaration(Serialize(Inverted(c)), true))
            && (!fires ==> s == style)
            && (forall p :: p != entry.property ==> SameAt(s, style, p))
  {
    var c := computed(entry.property);
    var fires := (entry.colorGoal == 0 && c.r + c.g + c.b > 300) ||
                 (entry.colorGoal == 765 && c.r + c.g + c.b < 400);
    NewValueOfComputed(entry, c);
    RestyleWith(style, entry, computed, fires, Serialize(Inverted(c)));
  }

  /** One entry writes `w` when it fires and nothing otherwise. */
  lemma RestyleWith(style: map<string, Declaration>, entry: ColorProperty, computed: string -> Color,
                    fires: bool, w: string)
    requires NewValue(entry, Serialize(computed(entry.property))) == (if fires then Some(w) else None)
    ensures var s := Restyle(style, entry, computed);
            && (fires ==> entry.property in s && s[entry.property] == Declaration(w, true))
            && (!fires ==> s == style)
            && (forall p :: p != entry.property ==> SameAt(s, style, p))
  {
    RestyleBy(style, entry, computed);
  }

  lemma RestyleBy(style: map<string, Declaration>, entry: ColorProperty, computed: string -> Color)
    ensures var v := NewValue(entry, Serialize(computed(entry.property)));
            && (v.None? ==> Restyle(style, entry, computed) == style)
            && (v.Some? ==> Restyle(style, entry, computed) == style[entry.property := Declaration(v.value, true)])
  {
  }

  lemma RestyledOne(style: map<string, Declaration>, e0: ColorProperty, computed: string -> Color)
    ensures Restyled(style, [e0], computed) == Restyle(style, e0, computed)
  {
    assert [e0][..0] == [];
  }

  lemma RestyledTwo(style: map<string, Declaration>, e0: ColorProperty, e1: ColorProperty, computed: string -> Color)
    ensures Restyled(style, [e0, e1], computed) == Restyle(Restyled(style, [e0], computed), e1, computed)
  {
    assert [e0, e1][..1] == [e0];
  }

  /** One restyling pass over an element: `background-color` is rewritten
      exactly when its channel sum exceeds 300, `color` exactly when its sum is
      below 400, each time to the important inverted colour, and no other
      inline declaration changes. */
  lemma SwitchSchemeEffect(style: map<string, Declaration>, computed: string -> Color)
    ensures var s := Restyled(style, ColorProperties, computed);
            var fg := computed("color");
            var bg := computed("background-color");
            && (fg.r + fg.g + fg.b < 400 ==> "color" in s && s["color"] == Declaration(Serialize(Inverted(fg)), true))
            && (fg.r + fg.g + fg.b >= 400 ==> SameAt(s, style, "color"))
            && (bg.r + bg.g + bg.b > 300 ==> "background-color" in s && s["background-color"] == Declaration(Serialize(Inverted(bg)), true))
            && (bg.r + bg.g + bg.b <= 300 ==> SameAt(s, style, "background-color"))
            && (forall p :: p != "color" && p != "background-color" ==> SameAt(s, style, p))
  {
    var fgEntry, bgEntry := ColorProperties[0], ColorProperties[1];
    assert ColorProperties == [fgEntry, bgEntry];
    RestyledOne(style, fgEntry, computed);
    RestyledTwo(style, fgEntry, bgEntry, computed);
    var s1 := Restyle(style, fgEntry, computed);
    var s2 := Restyle(s1, bgEntry, computed);
    assert Restyled(style, ColorProperties, computed) == s2;
    RestyleEffect(style, fgEntry, computed);
    RestyleEffect(s1, bgEntry, computed);
    assert fgEntry.property == "color" && bgEntry.property == "background-color";
    assert "color" != "background-color";
    assert SameAt(s2, s1, "color");
    forall p | p != "color" && p != "background-color" ensures SameAt(s2, style, p) {
      assert SameAt(s2, s1, p) && SameAt(s1, style, p);
    }
  }

  /** The transparent default background `rgba(0, 0, 0, 0)` is left alone by
      the table entry, though an entry with `changeDefault` set would turn it
      into opaque white. */
  lemma TransparentBackgroundKept()
    ensures NewValue(ColorProperties[1], Serialize(TransparentBlack)) == None
    ensures NewValue(ColorProperty("background-color", true, 0), Serialize(TransparentBlack))
            == Some("rgb(255, 255, 255)")
  {
    NewValueOfComputed(ColorProperties[1], TransparentBlack);
    DefaultColorIff(TransparentBlack);
    InvertSerialized(TransparentBlack);
    WhiteText();
  }

  lemma WhiteText()
    ensures Serialize(Color(255, 255, 255, None)) == "rgb(255, 255, 255)"
  {
    Decimal.ExtremeTexts();
  }

  /** Black text becomes white text. */
  lemma BlackTextInverted()
    ensures NewValue(ColorProperties[0], Serialize(Black)) == Some("rgb(255, 255, 255)")
  {
    NewValueOfComputed(ColorProperties[0], Black);
    WhiteText();
  }

  /** A transparent white background (sum 765) passes the test and loses its
      transparency: its zero alpha is falsy, so it becomes opaque dark grey. */
  lemma TransparentWhiteBackground()
    ensures NewValue(ColorProperties[1], Serialize(Color(255, 255, 255, Some(JsNumber(0, [])))))
            == Some(Serialize(Color(20, 20, 20, None)))
  {
    NewValueOfComputed(ColorProperties[1], Color(255, 255, 255, Some(JsNumber(0, []))));
  }

  /** A background whose channels add up to exactly 300 is kept, one of 301 is
      inverted. */
  lemma BackgroundBoundary()
    ensures NewValue(ColorProperties[1], Serialize(Color(100, 100, 100, None))) == None
    ensures NewValue(ColorProperties[1], Serialize(Color(101, 100, 100, None)))
            == Some(Serialize(Color(174, 175, 175, None)))
  {
    NewValueOfComputed(ColorProperties[1], Color(100, 100, 100, None));
    NewValueOfComputed(ColorProperties[1], Color(101, 100, 100, None));
  }
}
