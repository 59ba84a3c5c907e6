/**
 * `parseColor` as its loop is written: the `forEach` over the three patterns
 * never tests a pattern against the text, so every case of the `switch` runs
 * and the colour of the last one, case 2, is what the function returns. This
 * holds for every text on which the colour constructors of cases 0 and 1
 * return normally. On "rgb(96, 33, 122)" they receive only numbers. On text
 * with fewer than three values, such as "69em", they receive `undefined`
 * channels, and the claim rests on node-sass accepting those, which is not
 * part of this model. The converter itself (module Converter) uses the
 * reading the documentation states; this module records what the code does
 * instead.
 */
module AsWritten {
  import opened Wrappers
  import opened JsString
  import opened JsNumber
  import opened Values
  import opened ColorFormat
  import opened JsBits
  import opened Converter
  import opened Examples

  /** What the unguarded loop holds after its first `i` steps: the colour of the last case run. */
  function UnguardedLast(s: string, i: nat): Option<SassValue>
    requires i <= 3
  {
    if i == 0 then None else Some(BuildColor(i - 1, s))
  }

  /** After all three steps the loop holds the colour of case 2. */
  lemma {:induction false} UnguardedEnd(s: string)
    ensures UnguardedLast(s, 3) == Some(HexColor(s))
  {
  }

  /**
   * The loop of `parseColor` with no test of the patterns: each case
   * overwrites the colour. The constructor calls of cases 0 and 1 are taken
   * to return normally, whatever channels they receive.
   */
  method UnguardedParseColor(s: string) returns (color: Option<SassValue>)
    ensures color == Some(HexColor(s))
  {
    var patterns := ColorFormatPatterns();
    color := None;
    for i := 0 to |patterns|
      invariant color == UnguardedLast(s, i)
    {
      color := Some(BuildColor(i, s));
    }
    UnguardedEnd(s);
  }

  /** Text with no '#' is read whole by case 2. */
  lemma {:induction false} NoHashWhole(s: string)
    requires '#' !in s
    ensures SliceFrom(s, IndexOf(s, '#') + 1) == s
  {
    assert s[0..|s|] == s;
  }

  /** Case 2 builds its colour from the number `parseInt` reads after the first '#', 0 for `NaN`. */
  lemma {:induction false} HexColorOf(s: string, r: Option<int>)
    requires ParseInt(SliceFrom(s, IndexOf(s, '#') + 1)) == r
    ensures HexColor(s) == SassColorArgb(BitOr(ToUint32(if r.Some? then r.value else 0), OpaqueAlpha))
  {
  }

  /** Case 2 on text with no '#' that `parseInt` cannot read: 0xFF000000, opaque black. */
  lemma {:induction false} UnreadableBlack(s: string)
    requires '#' !in s && ParseInt(s) == None
    ensures HexColor(s) == SassColorArgb(0xFF00_0000)
  {
    assert HexColor(s) == SassColorArgb(BitOr(ToUint32(0), OpaqueAlpha)) by {
      NoHashWhole(s);
      HexColorOf(s, None);
    }
    OrLowBits(0);
  }

  /**
   * Case 2 on text with no '#' that starts with a decimal number below 2^24:
   * the number becomes the low 24 bits of an opaque colour.
   */
  lemma {:induction false} LeadingNumberColor(ds: string, t: string)
    requires ds != [] && AllDigits(ds) && (t == [] || !IsDigit(t[0]))
    requires |ds| == 1 && ds[0] == '0' ==> t == [] || (t[0] != 'x' && t[0] != 'X')
    requires '#' !in ds + t && DigitsValue(ds) < 0x100_0000
    ensures HexColor(ds + t) == SassColorArgb(0xFF00_0000 + DigitsValue(ds))
  {
    var n := DigitsValue(ds);
    NoHashWhole(ds + t);
    ParseIntDigits(ds, t);
    OrLowBits(n);
    HexColorOf(ds + t, Some(n));
  }

  /**
   * On every text that matches `rgb`, the loop as written returns opaque black,
   * whereas the documented reading returns the colour of the three channels.
   */
  lemma {:induction false} UnguardedRgb(v: string, sp: string, f1: string, f2: string, f3: string)
    requires Spells("rgb", v, true) && AllSpace(sp) && IsField(f1) && IsField(f2) && IsField(f3)
    ensures var s := v + sp + ['('] + (f1 + [','] + f2 + [','] + f3) + [')'];
      HexColor(s) == SassColorArgb(0xFF00_0000) && ColorOf(s).Some? && ColorOf(s).value.SassColor?
  {
    var s := v + sp + ['('] + (f1 + [','] + f2 + [','] + f3) + [')'];
    assert '#' !in s by {
      FieldHasNo(f1, '#');
      FieldHasNo(f2, '#');
      FieldHasNo(f3, '#');
      NameHasNoHash(v);
    }
    assert ParseInt(s) == None by {
      assert s[0] == v[0];
      SameLetter('r', v[0], true);
      LetterNotSpace(v[0]);
      ParseIntNone(s);
    }
    UnreadableBlack(s);
    RgbFields(v, sp, f1, f2, f3);
  }

  /**
   * "rgb(96, 33, 122)": every colour constructor the loop calls receives only
   * numbers, and the loop as written returns opaque black, where the
   * documented reading gives the channels 96, 33 and 122.
   */
  lemma UnguardedPlainRgb(s: string, v: string, sp: string, w: string, d1: string, d2: string, d3: string)
    requires v == "rgb" && sp == "" && w == " " && d1 == "96" && d2 == "33" && d3 == "122"
    requires s == v + sp + "(" + d1 + "," + w + d2 + "," + w + d3 + ")"
    ensures HexColor(s) == SassColorArgb(0xFF00_0000)
    ensures ParseValue(Str(s)) == SassColor(Some(96), Some(33), Some(122), 1)
  {
    PlainRgbParts(v, sp, w, d1, d2, d3);
    CallPieces(s, v, sp, w, d1, d2, d3);
    assert HexColor(s) == SassColorArgb(0xFF00_0000) by {
      BareField(d1);
      SpacedField(w, d2);
      SpacedField(w, d3);
      UnguardedRgb(v, sp, d1, w + d2, w + d3);
    }
    PlainRgb(s, v, sp, w, d1, d2, d3);
  }

  lemma {:induction false} NameHasNoHash(v: string)
    requires Spells("rgb", v, true)
    ensures '#' !in v
  {
    forall j | 0 <= j < |v|
      ensures v[j] != '#'
    {
      SameLetter("rgb"[j], v[j], true);
    }
  }

  lemma UnguardedEmsParts(d: string, u: string)
    requires d == "69" && u == "em"
    ensures d != [] && AllDigits(d) && |d| == 2 && !IsDigit(u[0]) && '#' !in d + u && DigitsValue(d) == 69
  {
    TwoDigits(d);
  }

  /**
   * "69em": case 2 of the loop as written builds the colour 0xFF000045, where
   * the documented reading finds no colour and gives the number 69 with the
   * unit "em". The loop reaches case 2 only if case 0's constructor accepts
   * the `undefined` green and blue channels of this text.
   */
  lemma UnguardedEms(s: string, d: string, u: string)
    requires d == "69" && u == "em" && s == d + u
    ensures HexColor(s) == SassColorArgb(0xFF00_0045)
    ensures ParseValue(Str(s)) == SassNumber(Decimal(69, 0), u)
  {
    UnguardedEmsParts(d, u);
    LeadingNumberColor(d, u);
    assert Render(Decimal(69, 0)) == d;
    NumberText(Decimal(69, 0), u);
  }
}
