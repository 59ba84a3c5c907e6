/**
 * The conversions the repository's own test cases exercise, derived from the
 * general lemmas of the converter.
 */
module Examples {
  import opened Wrappers
  import opened JsString
  import opened JsNumber
  import opened Values
  import opened ColorFormat
  import opened Converter

  /** One to three digits padded with white space form a field, whose number is the digits' value. */
  lemma {:induction false} PaddedField(w1: string, ds: string, w2: string)
    requires AllSpace(w1) && AllSpace(w2) && 1 <= |ds| <= 3 && AllDigits(ds)
    ensures IsField(w1 + ds + w2) && FieldNumber(w1 + ds + w2) == DigitsValue(ds)
  {
    var f := w1 + ds + w2;
    var a, b := |w1|, |w1| + |ds|;
    assert f[..a] == w1 && f[a..b] == ds && f[b..] == w2;
    DigitNotSpace(ds[0]);
    DigitNotSpace(ds[|ds| - 1]);
    TrimPadded(w1, ds, w2);
  }

  /**
   * Text that starts with a character that can begin neither a colour nor a
   * number stays a Sass string holding that text.
   */
  lemma {:induction false} PlainText(s: string)
    requires s != [] && !IsSpace(s[0]) && !IsDigit(s[0])
    requires s[0] !in {'r', 'R', '#', '+', '-', '.'}
    ensures ParseValue(Str(s)) == SassString(s)
  {
    NotColor(s);
    StringValue(s);
  }

  /** `null` and `undefined` become Sass null, but the strings "null" and "undefined" do not. */
  lemma NullAndItsName(a: string, b: string)
    requires a == "null" && b == "undefined"
    ensures ParseValue(Null) == SassNull && ParseValue(Undefined) == SassNull
    ensures ParseValue(Str(a)) == SassString(a) && ParseValue(Str(b)) == SassString(b)
  {
    PlainText(a);
    PlainText(b);
  }

  /** Ordinary words stay strings holding the same text. */
  lemma Words(a: string, b: string)
    requires a == "string" && b == "my_name_is_mud"
    ensures ParseValue(Str(a)) == SassString(a) && ParseValue(Str(b)) == SassString(b)
  {
    PlainText(a);
    PlainText(b);
  }

  /** "two", an item of a nested array, stays a string. */
  lemma Two(a: string)
    requires a == "two"
    ensures ParseValue(Str(a)) == SassString(a)
  {
    PlainText(a);
  }

  /** A number with a unit written after it keeps that unit. */
  lemma {:induction false} NumberText(d: Dec, u: string)
    requires EndsLiteral(u) && Render(d)[0] != 'r' && Render(d)[0] != 'R' && Render(d)[0] != '#'
    ensures ParseValue(Str(Render(d) + u)) == SassNumber(d, u)
  {
    NotColor(Render(d) + u);
    NumberRoundTrip(d, u);
  }

  /** "69em" is 69 with the unit "em". */
  lemma Ems(s: string)
    requires s == "69em"
    ensures ParseValue(Str(s)) == SassNumber(Decimal(69, 0), "em")
  {
    assert s == Render(Decimal(69, 0)) + "em";
    NumberText(Decimal(69, 0), "em");
  }

  /** "10.2cm" is 10.2 with the unit "cm". */
  lemma Centimetres(s: string)
    requires s == "10.2cm"
    ensures ParseValue(Str(s)) == SassNumber(Decimal(102, 1), "cm")
  {
    assert s == Render(Decimal(102, 1)) + "cm";
    NumberText(Decimal(102, 1), "cm");
  }

  /** "14" is 14 with no unit. */
  lemma Unitless(s: string)
    requires s == "14"
    ensures ParseValue(Str(s)) == SassNumber(Decimal(14, 0), "")
  {
    assert s == Render(Decimal(14, 0)) + "";
    NumberText(Decimal(14, 0), "");
  }

  /** `ParseValue` on text whose colour reading succeeds gives that colour. */
  lemma {:induction false} ColorValue(s: string, c: SassValue)
    requires ColorOf(s) == Some(c)
    ensures ParseValue(Str(s)) == c
  {
  }

  /**
   * Text that is no colour and starts with a character that cannot begin a
   * number stays a Sass string holding that text.
   */
  lemma {:induction false} StringValue(s: string)
    requires ColorOf(s) == None
    requires s != [] && !IsSpace(s[0]) && !IsDigit(s[0]) && s[0] !in {'+', '-', '.'}
    ensures ParseValue(Str(s)) == SassString(s)
  {
    TrimStartNone(s);
    NumberDefined(s);
  }

  // ---------------------------------------------------------------------------
  // Digits and fields
  // ---------------------------------------------------------------------------

  lemma {:induction false} TwoDigits(ds: string)
    requires |ds| == 2 && AllDigits(ds)
    ensures DigitsValue(ds) == 10 * DigitValue(ds[0]) + DigitValue(ds[1])
  {
    var d1 := ds[..1];
    assert d1[..0] == [] && d1[0] == ds[0];
    assert DigitsValue(d1) == DigitValue(ds[0]);
  }

  lemma {:induction false} ThreeDigits(ds: string)
    requires |ds| == 3 && AllDigits(ds)
    ensures DigitsValue(ds) == 100 * DigitValue(ds[0]) + 10 * DigitValue(ds[1]) + DigitValue(ds[2])
  {
    var d2 := ds[..2];
    assert d2[0] == ds[0] && d2[1] == ds[1];
    TwoDigits(d2);
  }

  /** One to three digits alone form a field. */
  lemma {:induction false} BareField(d: string)
    requires 1 <= |d| <= 3 && AllDigits(d)
    ensures IsField(d) && FieldNumber(d) == DigitsValue(d)
  {
    assert [] + d + [] == d;
    PaddedField([], d, []);
  }

  /** One to three digits after white space form a field. */
  lemma {:induction false} SpacedField(w: string, d: string)
    requires AllSpace(w) && 1 <= |d| <= 3 && AllDigits(d)
    ensures IsField(w + d) && FieldNumber(w + d) == DigitsValue(d)
  {
    assert w + d + [] == w + d;
    PaddedField(w, d, []);
  }

  lemma {:induction false} ThreeFields(pieces: seq<string>)
    requires |pieces| == 3 && IsField(pieces[0]) && IsField(pieces[1]) && IsField(pieces[2])
    ensures forall j | 0 <= j < 3 :: IsField(pieces[j])
  {
    forall j | 0 <= j < 3
      ensures IsField(pieces[j])
    {
      if j == 0 {
      } else if j == 1 {
      } else {
        assert j == 2;
      }
    }
  }

  lemma {:induction false} Join3(a: string, b: string, c: string, sep: char)
    ensures Join([a, b, c], sep) == a + [sep] + b + [sep] + c
  {
    assert [a, b, c][1..] == [b, c];
    assert [b, c][1..] == [c];
    assert Join([b, c], sep) == b + [sep] + c;
  }

  // ---------------------------------------------------------------------------
  // `rgb` with three fields
  // ---------------------------------------------------------------------------

  /** `rgb` followed by three fields is the colour of the fields' numbers. */
  lemma {:induction false} RgbFields(v: string, sp: string, f1: string, f2: string, f3: string)
    requires Spells("rgb", v, true) && AllSpace(sp) && IsField(f1) && IsField(f2) && IsField(f3)
    ensures ColorOf(v + sp + ['('] + (f1 + [','] + f2 + [','] + f3) + [')'])
         == Some(SassColor(Some(FieldNumber(f1)), Some(FieldNumber(f2)), Some(FieldNumber(f3)), 1))
  {
    var pieces := [f1, f2, f3];
    assert pieces[0] == f1 && pieces[1] == f2 && pieces[2] == f3;
    ThreeFields(pieces);
    var ns := FieldNumbers(pieces);
    assert ns[0] == FieldNumber(f1) && ns[1] == FieldNumber(f2) && ns[2] == FieldNumber(f3);
    Join3(f1, f2, f3, ',');
    RgbRoundTrip(v, sp, pieces);
  }

  /** `rgb(d1,<w>d2,<w>d3)`, the digits written with no other padding. */
  lemma {:induction false} DigitsRgb(v: string, sp: string, w: string, d1: string, d2: string, d3: string)
    requires Spells("rgb", v, true) && AllSpace(sp) && AllSpace(w)
    requires 1 <= |d1| <= 3 && AllDigits(d1) && 1 <= |d2| <= 3 && AllDigits(d2) && 1 <= |d3| <= 3 && AllDigits(d3)
    ensures ParseValue(Str(v + sp + ['('] + (d1 + [','] + (w + d2) + [','] + (w + d3)) + [')']))
         == SassColor(Some(DigitsValue(d1)), Some(DigitsValue(d2)), Some(DigitsValue(d3)), 1)
  {
    var s := v + sp + ['('] + (d1 + [','] + (w + d2) + [','] + (w + d3)) + [')'];
    BareField(d1);
    SpacedField(w, d2);
    SpacedField(w, d3);
    RgbFields(v, sp, d1, w + d2, w + d3);
    ColorValue(s, SassColor(Some(DigitsValue(d1)), Some(DigitsValue(d2)), Some(DigitsValue(d3)), 1));
  }

  lemma {:induction false} CallPieces(s: string, v: string, sp: string, w: string, d1: string, d2: string, d3: string)
    requires s == v + sp + "(" + d1 + "," + w + d2 + "," + w + d3 + ")"
    ensures s == v + sp + ['('] + (d1 + [','] + (w + d2) + [','] + (w + d3)) + [')']
  {
  }

  lemma SpacedRgbParts(v: string, sp: string, w: string, d1: string, d2: string, d3: string)
    requires v == "RGB" && sp == "    " && w == " " && d1 == "1" && d2 == "2" && d3 == "3"
    ensures Spells("rgb", v, true) && AllSpace(sp) && AllSpace(w)
    ensures 1 <= |d1| <= 3 && AllDigits(d1) && 1 <= |d2| <= 3 && AllDigits(d2) && 1 <= |d3| <= 3 && AllDigits(d3)
    ensures DigitsValue(d1) == 1 && DigitsValue(d2) == 2 && DigitsValue(d3) == 3
  {
  }

  /** "RGB    (1, 2, 3)" is the colour with channels 1, 2 and 3 and alpha 1. */
  lemma SpacedRgb(s: string, v: string, sp: string, w: string, d1: string, d2: string, d3: string)
    requires v == "RGB" && sp == "    " && w == " " && d1 == "1" && d2 == "2" && d3 == "3"
    requires s == v + sp + "(" + d1 + "," + w + d2 + "," + w + d3 + ")"
    ensures ParseValue(Str(s)) == SassColor(Some(1), Some(2), Some(3), 1)
  {
    SpacedRgbParts(v, sp, w, d1, d2, d3);
    CallPieces(s, v, sp, w, d1, d2, d3);
    DigitsRgb(v, sp, w, d1, d2, d3);
  }

  lemma PlainRgbParts(v: string, sp: string, w: string, d1: string, d2: string, d3: string)
    requires v == "rgb" && sp == "" && w == " " && d1 == "96" && d2 == "33" && d3 == "122"
    ensures Spells("rgb", v, true) && AllSpace(sp) && AllSpace(w)
    ensures 1 <= |d1| <= 3 && AllDigits(d1) && 1 <= |d2| <= 3 && AllDigits(d2) && 1 <= |d3| <= 3 && AllDigits(d3)
    ensures DigitsValue(d1) == 96 && DigitsValue(d2) == 33 && DigitsValue(d3) == 122
  {
    TwoDigits(d1);
    TwoDigits(d2);
    ThreeDigits(d3);
  }

  /** "rgb(96, 33, 122)" is the colour with channels 96, 33 and 122 and alpha 1. */
  lemma PlainRgb(s: string, v: string, sp: string, w: string, d1: string, d2: string, d3: string)
    requires v == "rgb" && sp == "" && w == " " && d1 == "96" && d2 == "33" && d3 == "122"
    requires s == v + sp + "(" + d1 + "," + w + d2 + "," + w + d3 + ")"
    ensures ParseValue(Str(s)) == SassColor(Some(96), Some(33), Some(122), 1)
  {
    PlainRgbParts(v, sp, w, d1, d2, d3);
    CallPieces(s, v, sp, w, d1, d2, d3);
    DigitsRgb(v, sp, w, d1, d2, d3);
  }

  // ---------------------------------------------------------------------------
  // A call whose first field is too long
  // ---------------------------------------------------------------------------

  /** More than three digits are no field. */
  lemma {:induction false} LongDigits(f: string)
    requires |f| > 3 && AllDigits(f)
    ensures !IsField(f)
  {
    if IsField(f) {
      DigitNotSpace(f[0]);
      DigitNotSpace(f[|f| - 1]);
      assert [] + f + [] == f;
      TrimPadded([], f, []);
      FieldDigits(f);
    }
  }

  /** A match of `rgb` has three fields between its first '(' and its last character. */
  lemma {:induction false} RgbPieces(s: string) returns (p: nat)
    requires Matches(RgbPattern(), s)
    ensures p < |s| - 1 && IndexOf(s, '(') == p
    ensures var pieces := Split(s[p + 1..|s| - 1], ',');
      |pieces| == 3 && forall j | 0 <= j < 3 :: IsField(pieces[j])
  {
    assert MatchFrom(Call("rgb", 3), true, s);
    p := CallShape("rgb", 3, s);
  }

  lemma {:induction false} Inner(v: string, f: string, rest: string)
    requires rest != []
    ensures var s := v + ['('] + f + [','] + rest;
      s[|v| + 1..|s| - 1] == f + [','] + rest[..|rest| - 1]
  {
    var s := v + ['('] + f + [','] + rest;
    var x := f + [','] + rest;
    assert s == v + ['('] + x;
    assert s[|v| + 1..] == x;
    assert x[..|x| - 1] == f + [','] + rest[..|rest| - 1];
  }

  /** In `s` = `v(f,rest`, the text read as the first channel is `f`. */
  lemma {:induction false} PieceZero(s: string, v: string, f: string, rest: string)
    requires '(' !in v && ',' !in f && rest != [] && s == v + ['('] + f + [','] + rest
    ensures IndexOf(s, '(') == |v| && Split(s[|v| + 1..|s| - 1], ',')[0] == f
  {
    assert IndexOf(s, '(') == |v| by {
      assert s == v + ['('] + (f + [','] + rest);
      IndexOfAfter(v, '(', f + [','] + rest);
    }
    assert s[|v| + 1..|s| - 1] == f + [','] + rest[..|rest| - 1] by {
      Inner(v, f, rest);
    }
    SplitAfter(f, ',', rest[..|rest| - 1]);
  }

  /** Text of the shape `v(f,rest` that matches `rgb` has a field `f`. */
  lemma {:induction false} FirstField(v: string, f: string, rest: string)
    requires '(' !in v && ',' !in f && rest != []
    requires Matches(RgbPattern(), v + ['('] + f + [','] + rest)
    ensures IsField(f)
  {
    var s := v + ['('] + f + [','] + rest;
    PieceZero(s, v, f, rest);
    var p := RgbPieces(s);
    assert Split(s[p + 1..|s| - 1], ',')[0] == f;
  }

  /** A three-letter name, '(' and a first channel that is no field: no colour. */
  lemma {:induction false} LongFieldNoColor(v: string, f: string, rest: string)
    requires |v| == 3 && '(' !in v && v[0] != '#' && ',' !in f && !IsField(f) && rest != []
    ensures ColorOf(v + ['('] + f + [','] + rest) == None
  {
    var s := v + ['('] + f + [','] + rest;
    if Matches(RgbPattern(), s) {
      FirstField(v, f, rest);
    }
    assert s[0] == v[0] && s[3] == '(';
    if Matches(RgbaPattern(), s) {
      RgbaStart(s);
    }
    HexShape(s);
  }

  lemma WideRgbParts(v: string, f: string, rest: string)
    requires v == "RGB" && f == "9001" && rest == " 131072, 128)"
    ensures |v| == 3 && '(' !in v && v[0] == 'R' && ',' !in f && !IsField(f) && rest != []
  {
    LongDigits(f);
  }

  /** "RGB(9001, 131072, 128)" is no colour and stays a Sass string. */
  lemma WideRgb(s: string, v: string, f: string, rest: string)
    requires v == "RGB" && f == "9001" && rest == " 131072, 128)"
    requires s == v + "(" + f + "," + rest
    ensures ParseValue(Str(s)) == SassString(s)
  {
    WideRgbParts(v, f, rest);
    LongFieldNoColor(v, f, rest);
    assert s[0] == 'R';
    StringValue(s);
  }

  // ---------------------------------------------------------------------------
  // Hexadecimal notation
  // ---------------------------------------------------------------------------

  lemma SlateGrayParts(h: string)
    requires h == "708090"
    ensures |h| == 6 && AllHexDigits(h) && DecimalReading(h) == 708090
  {
    var h5, h4, h3, h2, h1 := h[..5], h[..4], h[..3], h[..2], h[..1];
    assert h5[..4] == h4 && h4[..3] == h3 && h3[..2] == h2 && h2[..1] == h1 && h1[..0] == [];
    assert h[0] == '7' && h[1] == '0' && h[2] == '8' && h[3] == '0' && h[4] == '9' && h[5] == '0';
    assert DigitsValue(h1) == 7;
    assert DigitsValue(h2) == 70;
    assert DigitsValue(h3) == 708;
    assert DigitsValue(h4) == 7080;
    assert DigitsValue(h5) == 70809;
    assert DecimalPrefix(h) == 6 && h[..6] == h;
  }

  /** '#' and six hexadecimal digits: the colour of the decimal reading of the digits. */
  lemma {:induction false} HexValue(s: string, h: string, n: nat)
    requires |s| == 7 && s[0] == '#' && s[1..] == h && AllHexDigits(h) && DecimalReading(h) == n
    ensures ParseValue(Str(s)) == SassColorArgb(0xFF00_0000 + n)
  {
    HexShape(s);
    HexReading(s);
    ColorValue(s, SassColorArgb(0xFF00_0000 + DecimalReading(s[1..])));
  }

  /**
   * "#708090" is read as the decimal number 708090 = 0x0ACDFA, so its red,
   * green and blue bytes are 0x0A, 0xCD and 0xFA, not 0x70, 0x80 and 0x90.
   */
  lemma SlateGray(s: string, h: string)
    requires h == "708090" && s == "#" + h
    ensures ParseValue(Str(s)) == SassColorArgb(0xFF0A_CDFA)
  {
    SlateGrayParts(h);
    assert s[1..] == h && |s| == 7 && s[0] == '#';
    HexValue(s, h, 708090);
  }

  /**
   * Six hexadecimal digits that start with a letter, as in "#c0ffee" or
   * "#beefed": `parseInt` finds no decimal digit, so the colour is 0xFF000000,
   * opaque black, and not the channels the digits spell in base 16.
   */
  lemma {:induction false} LetterHexBlack(s: string, h: string)
    requires |h| == 6 && AllHexDigits(h) && !IsDigit(h[0]) && s == ['#'] + h
    ensures ParseValue(Str(s)) == SassColorArgb(0xFF00_0000)
  {
    NoDecimalDigit(h);
    assert s[1..] == h;
    HexValue(s, h, 0);
  }

  /** Digits that start with a letter have no decimal reading: `parseInt` gives NaN, taken as 0. */
  lemma {:induction false} NoDecimalDigit(h: string)
    requires h != [] && !IsDigit(h[0])
    ensures DecimalReading(h) == 0
  {
    assert DecimalPrefix(h) == 0 && h[..0] == [];
  }

  lemma NotHexParts(h: string)
    requires h == "ecchi"
    ensures |h| == 5
  {
  }

  /** "#ecchi" is too short for the hexadecimal pattern and stays a Sass string. */
  lemma NotHex(s: string, h: string)
    requires h == "ecchi" && s == "#" + h
    ensures ParseValue(Str(s)) == SassString(s)
  {
    NotHexParts(h);
    assert |s| == 6 && s[0] == '#';
    if Matches(RgbPattern(), s) {
      RgbStart(s);
    }
    if Matches(RgbaPattern(), s) {
      RgbaStart(s);
    }
    HexShape(s);
    StringValue(s);
  }

  /** Arrays become lists of the same length, in order, nested arrays nested lists. */
  lemma Lists(inner: JsValue, outer: JsValue)
    requires inner == Arr([Bool(true)]) && outer == Arr([inner, Null])
    ensures ParseValue(Arr([])) == SassList([])
    ensures ParseValue(outer) == SassList([SassList([SassBoolean(true)]), SassNull])
  {
    assert ParseValue(inner) == SassList([SassBoolean(true)]);
  }
}
