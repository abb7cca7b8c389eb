/** The colour text codec of the content script: how `extractRGB` and
    `invertColor` read a computed `rgb(r, g, b)` / `rgba(r, g, b, a)` value
    (`split(",")`, strip everything but digits and points, `Number(...)`),
    how `invertColor` writes its result, and the `rgbaRegexp` default test. */
module ColorCodec {
  import opened Wrappers
  import opened Decimal

  // ---------------------------------------------------------------------
  // Text primitives
  // ---------------------------------------------------------------------

  /** `s.split(sep)` for a one-character separator: the pieces between the
      separators, possibly empty, always at least one. */
  function Split(s: string, sep: char): (parts: seq<string>)
    ensures |parts| >= 1
  {
    if s == [] then [[]]
    else
      var rest := Split(s[1..], sep);
      if s[0] == sep then [[]] + rest else [[s[0]] + rest[0]] + rest[1..]
  }

  /** Every piece of `Split(s, sep)` is made of characters of `s` other than `sep`. */
  lemma {:induction false} SplitPieces(s: string, sep: char)
    ensures forall i :: 0 <= i < |Split(s, sep)| ==> forall ch :: ch in Split(s, sep)[i] ==> ch in s && ch != sep
    decreases |s|
  {
    if s != [] {
      SplitPieces(s[1..], sep);
      assert forall ch :: ch in s[1..] ==> ch in s;
    }
  }

  /** The characters the pattern `/[^0-9.]/g` does not remove. */
  predicate Kept(ch: char) {
    IsDigit(ch) || ch == '.'
  }

  /** `val.replace(/[^0-9.]/g, "")`: drop every character but digits and points. */
  function Strip(s: string): (t: string)
    ensures forall ch :: ch in t ==> Kept(ch)
  {
    if s == [] then [] else (if Kept(s[0]) then [s[0]] else []) + Strip(s[1..])
  }

  // ---------------------------------------------------------------------
  // JavaScript numbers read from digit-and-point text
  // ---------------------------------------------------------------------

  /** A number as `Number(...)` yields it from a text of digits with at most one
      point: the integer part and the digits after the point, without trailing
      zeros (so each value has exactly one representation). */
  datatype JsNumber = JsNumber(whole: nat, fraction: string)

  predicate Canonical(x: JsNumber) {
    AllDigits(x.fraction) && (x.fraction == [] || x.fraction[|x.fraction| - 1] != '0')
  }

  predicate IsInteger(x: JsNumber) {
    x.fraction == []
  }

  /** JavaScript truthiness of a number that is not NaN: anything but zero. */
  predicate Truthy(x: JsNumber) {
    x.whole != 0 || x.fraction != []
  }

  /** An alpha value as a computed style carries it. */
  type Alpha = x: JsNumber | Canonical(x) witness JsNumber(0, [])

  /** `${x}` of a number in plain decimal notation. */
  function NumberText(x: JsNumber): string {
    NatToString(x.whole) + (if x.fraction == [] then [] else ['.'] + x.fraction)
  }

  function DropTrailingZeros(s: string): (t: string)
    requires AllDigits(s)
    ensures AllDigits(t) && (t == [] || t[|t| - 1] != '0')
  {
    if s == [] || s[|s| - 1] != '0' then s else DropTrailingZeros(s[..|s| - 1])
  }

  lemma DigitsWithoutPoint(t: string)
    requires forall ch :: ch in t ==> Kept(ch)
    requires '.' !in t
    ensures AllDigits(t)
  {
    forall i | 0 <= i < |t| ensures IsDigit(t[i]) {
      assert t[i] in t;
    }
  }

  /** `Number(t)` for a text of digits and points; `None` is NaN (two points,
      or a point alone). The empty text is 0. */
  function ParseNumber(t: string): (r: Option<JsNumber>)
    requires forall ch :: ch in t ==> Kept(ch)
    ensures r.Some? ==> Canonical(r.value)
  {
    if '.' !in t then
      DigitsWithoutPoint(t);
      Some(JsNumber(DigitsToNat(t), []))
    else
      var pieces := Split(t, '.');
      if |pieces| == 2 && pieces[0] + pieces[1] != [] then
        SplitPieces(t, '.');
        assert pieces[0] in pieces && pieces[1] in pieces;
        DigitsWithoutPoint(pieces[0]);
        DigitsWithoutPoint(pieces[1]);
        Some(JsNumber(DigitsToNat(pieces[0]), DropTrailingZeros(pieces[1])))
      else
        None
  }

  /** `s.split(",").map(val => val.replace(/[^0-9.]/g, ""))`. */
  function Fields(s: string): (fs: seq<string>)
    ensures forall i :: 0 <= i < |fs| ==> forall ch :: ch in fs[i] ==> Kept(ch)
  {
    var parts := Split(s, ',');
    seq(|parts|, i requires 0 <= i < |parts| => Strip(parts[i]))
  }

  /** `s.split(",").map(val => Number(val.replace(/[^0-9.]/g, "")))`;
      `None` when some field is NaN. */
  function Values(s: string): Option<seq<JsNumber>> {
    var fs := Fields(s);
    if forall i :: 0 <= i < |fs| ==> ParseNumber(fs[i]).Some? then
      Some(seq(|fs|, i requires 0 <= i < |fs| => ParseNumber(fs[i]).value))
    else
      None
  }

  // ---------------------------------------------------------------------
  // extractRGB and invertColor
  // ---------------------------------------------------------------------

  /** `if (splitRGB[3]) splitRGB.pop()`: a truthy fourth value drops the last one. */
  function WithoutAlpha(vals: seq<JsNumber>): seq<JsNumber> {
    if |vals| > 3 && Truthy(vals[3]) then vals[..|vals| - 1] else vals
  }

  /** The sum of the integer parts, in array order. */
  function Sum(vals: seq<JsNumber>): nat {
    if vals == [] then 0 else Sum(vals[..|vals| - 1]) + vals[|vals| - 1].whole
  }

  /** The reduce step of `extractRGB` on the parsed values: the sum of what is
      left after the alpha pop; `None` when a summed value has a fraction,
      which this model does not add up. */
  function ReduceSum(vals: seq<JsNumber>): Option<int> {
    var kept := WithoutAlpha(vals);
    if forall i :: 0 <= i < |kept| ==> IsInteger(kept[i]) then Some(Sum(kept)) else None
  }

  /** `extractRGB`; `None` when a field is NaN (every comparison with the sum
      is then false) or the sum is outside the model. */
  function ExtractRGB(rgba: string): Option<int> {
    match Values(rgba)
    case None => None
    case Some(vals) => ReduceSum(vals)
  }

  /** `Math.min((255 - val) + 20, 255)`. */
  function InvertChannel(v: int): (w: int)
    ensures w <= 255
    ensures 0 <= v <= 255 ==> 20 <= w
    ensures v <= 20 ==> w == 255
    ensures 20 <= v ==> w + v == 275
  {
    if 255 - v + 20 < 255 then 255 - v + 20 else 255
  }

  /** Both output templates of `invertColor`; `alpha` present selects `rgba(...)`.
      A computed colour value is written in the same layout. */
  function RgbText(r: string, g: string, b: string, alpha: Option<string>): string {
    match alpha
    case None => "rgb(" + r + ", " + g + ", " + b + ")"
    case Some(a) => "rgba(" + r + ", " + g + ", " + b + ", " + a + ")"
  }

  /** The part of `invertColor` after parsing: each of the first three values
      inverted; a truthy fourth value is passed through as the alpha of an
      `rgba(...)` result, otherwise the result is `rgb(...)`. `None` for value
      lists outside the model: fewer than three or more than four values, or a
      fractional channel. */
  function InvertValues(vals: seq<JsNumber>): Option<string> {
    if |vals| < 3 || |vals| > 4 || !(IsInteger(vals[0]) && IsInteger(vals[1]) && IsInteger(vals[2])) then
      None
    else
      var alpha := if |vals| == 4 && Truthy(vals[3]) then Some(NumberText(vals[3])) else None;
      Some(RgbText(IntToString(InvertChannel(vals[0].whole)),
                   IntToString(InvertChannel(vals[1].whole)),
                   IntToString(InvertChannel(vals[2].whole)), alpha))
  }

  /** `invertColor`; `None` when a field is NaN or the input is outside the model. */
  function InvertColor(rgba: string): Option<string> {
    match Values(rgba)
    case None => None
    case Some(vals) => InvertValues(vals)
  }

  /** `rgbaRegexp.test(s)` for `/^(rgb\(0, 0, 0\)|rgba\(0, 0, 0, 0\))$/`: the
      anchored alternation of two literal texts. */
  predicate IsDefaultColor(s: string) {
    s == "rgb(0, 0, 0)" || s == "rgba(0, 0, 0, 0)"
  }

  // ---------------------------------------------------------------------
  // Computed colour values
  // ---------------------------------------------------------------------

  type Channel = v: int | 0 <= v <= 255

  /** A colour as `getComputedStyle` reports it: three integer channels and an
      alpha that is present exactly when the text is `rgba(...)`. */
  datatype Color = Color(r: Channel, g: Channel, b: Channel, alpha: Option<Alpha>)

  const TransparentBlack := Color(0, 0, 0, Some(JsNumber(0, [])))
  const Black := Color(0, 0, 0, None)

  /** The computed-style text of a colour. */
  function Serialize(c: Color): string {
    RgbText(NatToString(c.r), NatToString(c.g), NatToString(c.b),
            match c.alpha case None => None case Some(a) => Some(NumberText(a)))
  }

  /** The colour `invertColor` produces from a computed colour: every channel
      mapped by `InvertChannel`, a non-zero alpha kept, a zero alpha dropped. */
  function Inverted(c: Color): (d: Color)
    ensures 20 <= d.r && 20 <= d.g && 20 <= d.b
    ensures c.r <= 20 ==> d.r == 255
    ensures c.g <= 20 ==> d.g == 255
    ensures c.b <= 20 ==> d.b == 255
    ensures d.alpha.Some? <==> c.alpha.Some? && Truthy(c.alpha.value)
    ensures d.alpha.Some? ==> d.alpha == c.alpha
  {
    Color(InvertChannel(c.r), InvertChannel(c.g), InvertChannel(c.b),
          if c.alpha.Some? && Truthy(c.alpha.value) then c.alpha else None)
  }

  /** The numbers a computed colour's text holds, in order. */
  function ChannelValues(c: Color): seq<JsNumber> {
    [JsNumber(c.r, []), JsNumber(c.g, []), JsNumber(c.b, [])]
      + (match c.alpha case None => [] case Some(a) => [a])
  }

  // ---------------------------------------------------------------------
  // Lemmas: splitting and stripping
  // ---------------------------------------------------------------------

  lemma {:induction false} SplitAppend(a: string, sep: char, b: string)
    ensures Split(a + [sep] + b, sep) == Split(a, sep) + Split(b, sep)
    decreases |a|
  {
    if a == [] {
      assert a + [sep] + b == [sep] + b;
      assert ([sep] + b)[1..] == b;
    } else {
      assert (a + [sep] + b)[1..] == a[1..] + [sep] + b;
      assert (a + [sep] + b)[0] == a[0];
      SplitAppend(a[1..], sep, b);
    }
  }

  lemma {:induction false} SplitWithoutSeparator(s: string, sep: char)
    requires sep !in s
    ensures Split(s, sep) == [s]
    decreases |s|
  {
    if s != [] {
      assert sep !in s[1..];
      SplitWithoutSeparator(s[1..], sep);
      assert [s[0]] + s[1..] == s;
    }
  }

  lemma {:induction false} StripAppend(a: string, b: string)
    ensures Strip(a + b) == Strip(a) + Strip(b)
    decreases |a|
  {
    if a != [] {
      assert (a + b)[1..] == a[1..] + b;
      assert (a + b)[0] == a[0];
      StripAppend(a[1..], b);
      var k := if Kept(a[0]) then [a[0]] else [];
      calc {
        Strip(a + b);
        k + Strip(a[1..] + b);
        k + (Strip(a[1..]) + Strip(b));
        (k + Strip(a[1..])) + Strip(b);
      }
    } else {
      assert a + b == b;
    }
  }

  lemma {:induction false} StripKeeps(s: string)
    requires forall ch :: ch in s ==> Kept(ch)
    ensures Strip(s) == s
    decreases |s|
  {
    if s != [] {
      assert s[0] in s;
      StripKeeps(s[1..]);
      assert [s[0]] + s[1..] == s;
    }
  }

  lemma {:induction false} StripDrops(s: string)
    requires forall ch :: ch in s ==> !Kept(ch)
    ensures Strip(s) == []
    decreases |s|
  {
    if s != [] {
      assert s[0] in s;
      StripDrops(s[1..]);
    }
  }

  /** A field made of a keyword-and-punctuation prefix, a number text and a
      punctuation suffix strips down to the number text. */
  lemma StripField(pre: string, x: string, post: string)
    requires forall ch :: ch in pre + post ==> !Kept(ch)
    requires forall ch :: ch in x ==> Kept(ch)
    ensures Strip(pre + x + post) == x
  {
    StripAppend(pre + x, post);
    StripAppend(pre, x);
    assert forall ch :: ch in pre ==> ch in pre + post;
    assert forall ch :: ch in post ==> ch in pre + post;
    StripDrops(pre);
    StripDrops(post);
    StripKeeps(x);
  }

  // ---------------------------------------------------------------------
  // Lemmas: reading back numbers
  // ---------------------------------------------------------------------

  lemma ParseNatText(n: nat)
    ensures forall ch :: ch in NatToString(n) ==> Kept(ch)
    ensures ParseNumber(NatToString(n)) == Some(JsNumber(n, []))
  {
    var s := NatToString(n);
    assert forall ch :: ch in s ==> IsDigit(ch);
    DigitsOfNat(n);
  }

  lemma DropTrailingZerosCanonical(s: string)
    requires AllDigits(s) && (s == [] || s[|s| - 1] != '0')
    ensures DropTrailingZeros(s) == s
  {
  }

  /** `Number` of digits, a point and digits. */
  lemma ParsePointed(w: string, f: string)
    requires AllDigits(w) && AllDigits(f) && f != []
    ensures forall ch :: ch in w + ['.'] + f ==> Kept(ch)
    ensures ParseNumber(w + ['.'] + f) == Some(JsNumber(DigitsToNat(w), DropTrailingZeros(f)))
  {
    var t := w + ['.'] + f;
    assert forall ch :: ch in w ==> IsDigit(ch);
    assert forall ch :: ch in f ==> IsDigit(ch);
    assert '.' in t by { assert t[|w|] == '.'; }
    SplitAppend(w, '.', f);
    SplitWithoutSeparator(w, '.');
    SplitWithoutSeparator(f, '.');
    assert Split(t, '.') == [w, f];
  }

  /** `Number` reads back what `NumberText` writes, for every canonical number. */
  lemma ParseNumberText(x: JsNumber)
    requires Canonical(x)
    ensures forall ch :: ch in NumberText(x) ==> Kept(ch)
    ensures ParseNumber(NumberText(x)) == Some(x)
  {
    ParseNatText(x.whole);
    if x.fraction != [] {
      var w := NatToString(x.whole);
      assert NumberText(x) == w + ['.'] + x.fraction;
      ParsePointed(w, x.fraction);
      DigitsOfNat(x.whole);
      DropTrailingZerosCanonical(x.fraction);
    } else {
      assert NumberText(x) == NatToString(x.whole);
    }
  }

  // ---------------------------------------------------------------------
  // Lemmas: computed colour text
  // ---------------------------------------------------------------------

  lemma SplitThree(x: string, y: string, z: string)
    requires ',' !in x && ',' !in y && ',' !in z
    ensures Split(x + [','] + y + [','] + z, ',') == [x, y, z]
  {
    SplitWithoutSeparator(x, ',');
    SplitWithoutSeparator(y, ',');
    SplitWithoutSeparator(z, ',');
    SplitAppend(y, ',', z);
    assert x + [','] + y + [','] + z == x + [','] + (y + [','] + z);
    SplitAppend(x, ',', y + [','] + z);
  }

  lemma SplitFour(w: string, x: string, y: string, z: string)
    requires ',' !in w && ',' !in x && ',' !in y && ',' !in z
    ensures Split(w + [','] + x + [','] + y + [','] + z, ',') == [w, x, y, z]
  {
    SplitWithoutSeparator(w, ',');
    SplitThree(x, y, z);
    assert w + [','] + x + [','] + y + [','] + z == w + [','] + (x + [','] + y + [','] + z);
    SplitAppend(w, ',', x + [','] + y + [','] + z);
  }

  lemma NoComma(s: string)
    requires forall ch :: ch in s ==> Kept(ch)
    ensures ',' !in s
  {
  }

  /** A field made of a prefix without digits or points and a number text
      strips down to the number text. */
  lemma StripLeading(pre: string, x: string)
    requires forall ch :: ch in pre ==> !Kept(ch)
    requires forall ch :: ch in x ==> Kept(ch)
    ensures Strip(pre + x) == x
  {
    StripAppend(pre, x);
    StripDrops(pre);
    StripKeeps(x);
  }

  lemma RgbLayout(r: string, g: string, b: string)
    ensures RgbText(r, g, b, None) == ("rgb(" + r) + [','] + (" " + g) + [','] + (" " + b + ")")
  {
  }

  lemma RgbaLayout(r: string, g: string, b: string, a: string)
    ensures RgbText(r, g, b, Some(a))
            == ("rgba(" + r) + [','] + (" " + g) + [','] + (" " + b) + [','] + (" " + a + ")")
  {
  }

  /** The fields of a text are the stripped pieces of its split. */
  lemma FieldsOfSplit(s: string, parts: seq<string>)
    requires Split(s, ',') == parts
    ensures |Fields(s)| == |parts|
    ensures forall i :: 0 <= i < |parts| ==> Fields(s)[i] == Strip(parts[i])
  {
  }

  /** The fields of an `rgb(...)` text are its three number texts. */
  lemma FieldsOfRgb(r: string, g: string, b: string)
    requires forall ch :: ch in r ==> Kept(ch)
    requires forall ch :: ch in g ==> Kept(ch)
    requires forall ch :: ch in b ==> Kept(ch)
    ensures Fields(RgbText(r, g, b, None)) == [r, g, b]
  {
    var x, y, z := "rgb(" + r, " " + g, " " + b + ")";
    RgbLayout(r, g, b);
    NoComma(r); NoComma(g); NoComma(b);
    SplitThree(x, y, z);
    FieldsOfSplit(RgbText(r, g, b, None), [x, y, z]);
    StripLeading("rgb(", r);
    StripLeading(" ", g);
    StripField(" ", b, ")");
  }

  /** The fields of an `rgba(...)` text are its four number texts. */
  lemma FieldsOfRgba(r: string, g: string, b: string, a: string)
    requires forall ch :: ch in r ==> Kept(ch)
    requires forall ch :: ch in g ==> Kept(ch)
    requires forall ch :: ch in b ==> Kept(ch)
    requires forall ch :: ch in a ==> Kept(ch)
    ensures Fields(RgbText(r, g, b, Some(a))) == [r, g, b, a]
  {
    var w, x, y, z := "rgba(" + r, " " + g, " " + b, " " + a + ")";
    RgbaLayout(r, g, b, a);
    NoComma(r); NoComma(g); NoComma(b); NoComma(a);
    SplitFour(w, x, y, z);
    FieldsOfSplit(RgbText(r, g, b, Some(a)), [w, x, y, z]);
    StripLeading("rgba(", r);
    StripLeading(" ", g);
    StripLeading(" ", b);
    StripField(" ", a, ")");
  }

  /** A text whose fields all read as numbers has those numbers as its values. */
  lemma ValuesOfFields(s: string, vals: seq<JsNumber>)
    requires |Fields(s)| == |vals|
    requires forall i :: 0 <= i < |vals| ==> ParseNumber(Fields(s)[i]) == Some(vals[i])
    ensures Values(s) == Some(vals)
  {
    var fs := Fields(s);
    assert forall i :: 0 <= i < |fs| ==> ParseNumber(fs[i]).Some?;
    var vs := seq(|fs|, i requires 0 <= i < |fs| => ParseNumber(fs[i]).value);
    assert vs == vals;
  }

  /** Reading a computed colour's text gives exactly its channel values. */
  lemma ValuesOfSerialize(c: Color)
    ensures Values(Serialize(c)) == Some(ChannelValues(c))
  {
    if c.alpha.None? {
      ValuesOfOpaque(c);
    } else {
      ValuesOfTranslucent(c);
    }
  }

  lemma ValuesOfOpaque(c: Color)
    requires c.alpha.None?
    ensures Values(Serialize(c)) == Some(ChannelValues(c))
  {
    var r, g, b := NatToString(c.r), NatToString(c.g), NatToString(c.b);
    ParseNatText(c.r);
    ParseNatText(c.g);
    ParseNatText(c.b);
    FieldsOfRgb(r, g, b);
    assert Serialize(c) == RgbText(r, g, b, None);
    assert ChannelValues(c) == [JsNumber(c.r, []), JsNumber(c.g, []), JsNumber(c.b, [])];
    ValuesOfFields(Serialize(c), ChannelValues(c));
  }

  lemma ValuesOfTranslucent(c: Color)
    requires c.alpha.Some?
    ensures Values(Serialize(c)) == Some(ChannelValues(c))
  {
    var r, g, b := NatToString(c.r), NatToString(c.g), NatToString(c.b);
    ParseNatText(c.r);
    ParseNatText(c.g);
    ParseNatText(c.b);
    var a := NumberText(c.alpha.value);
    ParseNumberText(c.alpha.value);
    FieldsOfRgba(r, g, b, a);
    assert Serialize(c) == RgbText(r, g, b, Some(a));
    assert ChannelValues(c) == [JsNumber(c.r, []), JsNumber(c.g, []), JsNumber(c.b, []), c.alpha.value];
    ValuesOfFields(Serialize(c), ChannelValues(c));
  }

  lemma SumThree(x: JsNumber, y: JsNumber, z: JsNumber)
    ensures Sum([x, y, z]) == x.whole + y.whole + z.whole
  {
    assert [x, y, z][..2] == [x, y];
    assert [x, y][..1] == [x];
    assert [x][..0] == [];
    assert Sum([x]) == x.whole;
    assert Sum([x, y]) == x.whole + y.whole;
  }

  /** `extractRGB` of a computed colour is the sum of its three channels, with
      or without alpha: a non-zero alpha is popped, a zero alpha adds 0. */
  lemma ExtractSerialized(c: Color)
    ensures ExtractRGB(Serialize(c)) == Some(c.r + c.g + c.b)
  {
    ValuesOfSerialize(c);
    ReduceChannelValues(c);
  }

  lemma ReduceChannelValues(c: Color)
    ensures ReduceSum(ChannelValues(c)) == Some(c.r + c.g + c.b)
  {
    var x, y, z := JsNumber(c.r, []), JsNumber(c.g, []), JsNumber(c.b, []);
    SumThree(x, y, z);
    var vals := ChannelValues(c);
    var kept := WithoutAlpha(vals);
    if c.alpha.Some? {
      assert vals == [x, y, z, c.alpha.value];
      if Truthy(c.alpha.value) {
        assert kept == [x, y, z];
      } else {
        assert kept == vals && c.alpha.value == JsNumber(0, []);
        assert kept[..3] == [x, y, z];
      }
    } else {
      assert kept == [x, y, z];
    }
    assert ReduceSum(vals) == Some(c.r + c.g + c.b);
  }

  /** `invertColor` of a computed colour is the text of `Inverted(c)`: the
      round trip through text loses nothing. */
  lemma InvertSerialized(c: Color)
    ensures InvertColor(Serialize(c)) == Some(Serialize(Inverted(c)))
  {
    ValuesOfSerialize(c);
  }

  /** No two computed colours have the same text. */
  lemma SerializeInjective(c: Color, d: Color)
    requires Serialize(c) == Serialize(d)
    ensures c == d
  {
    ValuesOfSerialize(c);
    ValuesOfSerialize(d);
    var vc, vd := ChannelValues(c), ChannelValues(d);
    assert vc == vd;
    assert vc[0].whole == c.r && vd[0].whole == d.r;
    assert vc[1].whole == c.g && vd[1].whole == d.g;
    assert vc[2].whole == c.b && vd[2].whole == d.b;
    assert |vc| == 4 <==> c.alpha.Some?;
    assert |vd| == 4 <==> d.alpha.Some?;
    if c.alpha.Some? {
      assert vc[3] == c.alpha.value && vd[3] == d.alpha.value;
    }
  }

  /** `rgbaRegexp` accepts a computed colour's text exactly for opaque black
      `rgb(0, 0, 0)` and transparent black `rgba(0, 0, 0, 0)`. */
  lemma DefaultColorIff(c: Color)
    ensures IsDefaultColor(Serialize(c)) <==> c == Black || c == TransparentBlack
  {
    assert Serialize(Black) == "rgb(0, 0, 0)";
    assert Serialize(TransparentBlack) == "rgba(0, 0, 0, 0)";
    if Serialize(c) == Serialize(Black) {
      SerializeInjective(c, Black);
    }
    if Serialize(c) == Serialize(TransparentBlack) {
      SerializeInjective(c, TransparentBlack);
    }
  }

  /** On channels of at least 20 the inversion undoes itself; every channel
      lands there after one inversion, so a second one restores it. */
  lemma InvertedTwice(c: Color)
    requires 20 <= c.r && 20 <= c.g && 20 <= c.b
    requires c.alpha.Some? ==> Truthy(c.alpha.value)
    ensures Inverted(Inverted(c)) == c
  {
  }
}
