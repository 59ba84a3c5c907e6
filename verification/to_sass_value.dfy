/**
 * The converter: `toSassValue` dispatches on the kind of a JavaScript value,
 * builds lists and maps slot by slot, and recognises colours and numbers in
 * strings before falling back to a Sass string.
 */
module Converter {
  import opened Wrappers
  import opened JsString
  import opened JsNumber
  import opened Values
  import opened ColorFormat
  import opened JsBits

  // ---------------------------------------------------------------------------
  // parseColor
  // ---------------------------------------------------------------------------

  /**
   * `values`: the text between the first '(' and the last ')', split at the
   * commas, each piece trimmed and read by `parseInt` (`None` for `NaN`).
   */
  function ChannelValues(s: string): (vs: seq<Option<int>>)
    ensures |vs| >= 1
  {
    Channels(Slice(s, IndexOf(s, '(') + 1, LastIndexOf(s, ')')))
  }

  /** The comma-separated pieces of `x`, each trimmed and read by `parseInt`. */
  function Channels(x: string): (vs: seq<Option<int>>)
    ensures |vs| >= 1
  {
    var pieces := Split(x, ',');
    seq(|pieces|, j requires 0 <= j < |pieces| => ParseInt(Trim(pieces[j])))
  }

  /** `values[i]`, where a missing value (`undefined`) is `None` like `NaN`. */
  function Channel(vs: seq<Option<int>>, i: nat): Option<int> {
    if i < |vs| then vs[i] else None
  }

  /** `values[3] || 1.0`: a missing, `NaN` or zero fourth value gives 1. */
  function Alpha(vs: seq<Option<int>>): (a: int)
    ensures a != 0
    ensures Channel(vs, 3).Some? && Channel(vs, 3).value != 0 ==> a == Channel(vs, 3).value
    ensures Channel(vs, 3).None? || Channel(vs, 3).value == 0 ==> a == 1
  {
    match Channel(vs, 3)
    case Some(v) => if v != 0 then v else 1
    case None => 1
  }

  /** Cases 0 and 1: a colour from the first three values as channels and the fourth as alpha. */
  function RgbColor(s: string): SassValue {
    ChannelColor(ChannelValues(s))
  }

  function ChannelColor(vs: seq<Option<int>>): SassValue {
    SassColor(Channel(vs, 0), Channel(vs, 1), Channel(vs, 2), Alpha(vs))
  }

  /**
   * Case 2: the integer `parseInt` reads after the first '#' (the whole text
   * when there is none), taken as a 32-bit word and ORed with an alpha byte
   * of 0xFF; an unreadable number (`NaN`) counts as 0 for the OR.
   */
  function HexColor(s: string): SassValue {
    var n := match ParseInt(SliceFrom(s, IndexOf(s, '#') + 1)) case Some(v) => v case None => 0;
    SassColorArgb(BitOr(ToUint32(n), OpaqueAlpha))
  }

  /** The colour the `switch` builds for pattern `i`. */
  function BuildColor(i: nat, s: string): SassValue
    requires i < 3
  {
    if i < 2 then RgbColor(s) else HexColor(s)
  }

  /**
   * `parseColor(s)` as its documentation states it: the colour built for the
   * pattern that matches `s`, or `None` when no pattern matches.
   */
  function ColorOf(s: string): (c: Option<SassValue>)
    ensures c.Some? ==> IsColor(c.value)
  {
    var patterns := ColorFormatPatterns();
    if Matches(patterns[0], s) then Some(BuildColor(0, s))
    else if Matches(patterns[1], s) then Some(BuildColor(1, s))
    else if Matches(patterns[2], s) then Some(BuildColor(2, s))
    else None
  }

  /** What the loop holds after the first `i` patterns: the colour of the last one that matched. */
  function LastMatch(s: string, i: nat): Option<SassValue>
    requires i <= 3
  {
    if i == 0 then None
    else if Matches(ColorFormatPatterns()[i - 1], s) then Some(BuildColor(i - 1, s))
    else LastMatch(s, i - 1)
  }

  /** Since at most one pattern matches, the last match is the only one. */
  lemma {:induction false} LastMatchIsColor(s: string)
    ensures LastMatch(s, 3) == ColorOf(s)
  {
    var patterns := ColorFormatPatterns();
    assert LastMatch(s, 1) == if Matches(patterns[0], s) then Some(BuildColor(0, s)) else None;
    assert LastMatch(s, 2) == if Matches(patterns[1], s) then Some(BuildColor(1, s)) else LastMatch(s, 1);
    if Matches(patterns[2], s) {
      AtMostOnePattern(s, 0, 2);
      AtMostOnePattern(s, 1, 2);
    } else if Matches(patterns[1], s) {
      AtMostOnePattern(s, 0, 1);
    }
  }

  /**
   * The loop of `parseColor` over the patterns, each one tested against `s`
   * before its colour is built.
   */
  method ParseColor(s: string) returns (color: Option<SassValue>)
    ensures color == ColorOf(s)
  {
    var patterns := ColorFormatPatterns();
    color := None;
    for i := 0 to |patterns|
      invariant color == LastMatch(s, i)
    {
      if Matches(patterns[i], s) {
        color := Some(BuildColor(i, s));
      }
    }
    LastMatchIsColor(s);
  }

  /** `parseColor` gives a colour exactly when one of the three patterns matches. */
  lemma {:induction false} ColorMatched(s: string)
    ensures ColorOf(s).Some? <==> exists i | 0 <= i < 3 :: Matches(ColorFormatPatterns()[i], s)
  {
    var patterns := ColorFormatPatterns();
    if ColorOf(s).Some? {
      var i := if Matches(patterns[0], s) then 0 else if Matches(patterns[1], s) then 1 else 2;
      assert Matches(patterns[i], s);
    }
  }

  // ---------------------------------------------------------------------------
  // What the colour patterns let through
  // ---------------------------------------------------------------------------

  /** `trim` leaves the one to three digits of a field. */
  lemma {:induction false} FieldDigits(f: string)
    requires IsField(f)
    ensures 1 <= |Trim(f)| <= 3 && AllDigits(Trim(f))
  {
    var a, b :| 0 <= a < b <= |f| && b - a <= 3 && AllSpace(f[..a]) && AllDigits(f[a..b]) && AllSpace(f[b..]);
    var ds := f[a..b];
    assert f == f[..a] + ds + f[b..];
    DigitNotSpace(ds[0]);
    DigitNotSpace(ds[|ds| - 1]);
    TrimPadded(f[..a], ds, f[b..]);
  }

  /** One to three digits read by `parseInt` give 0 to 999. */
  lemma {:induction false} ShortDigits(ds: string)
    requires 1 <= |ds| <= 3 && AllDigits(ds)
    ensures ParseInt(ds).Some? && 0 <= ParseInt(ds).value < 1000
  {
    assert ds + [] == ds;
    ParseIntDigits(ds, []);
    DigitsValueBound(ds);
    assert Pow10(|ds|) <= 1000 by {
      assert Pow10(1) == 10 && Pow10(2) == 100 && Pow10(3) == 1000;
    }
  }

  /** A field read by `parseInt` after `trim` gives 0 to 999. */
  lemma {:induction false} FieldValue(f: string)
    requires IsField(f)
    ensures ParseInt(Trim(f)).Some? && 0 <= ParseInt(Trim(f)).value < 1000
  {
    FieldDigits(f);
    ShortDigits(Trim(f));
  }

  /** The channels of a text that matches `rgb` or `rgba`: one per field, each 0 to 999. */
  lemma {:induction false} CallChannels(name: string, n: nat, s: string)
    requires n >= 1 && IsLowerWord(name) && MatchFrom(Call(name, n), true, s)
    ensures var vs := ChannelValues(s);
      |vs| == n && forall j | 0 <= j < n :: vs[j].Some? && 0 <= vs[j].value < 1000
  {
    var p := CallShape(name, n, s);
    assert LastIndexOf(s, ')') == |s| - 1;
    assert Slice(s, p + 1, |s| - 1) == s[p + 1..|s| - 1];
    var pieces := Split(s[p + 1..|s| - 1], ',');
    forall j | 0 <= j < n
      ensures ParseInt(Trim(pieces[j])).Some? && 0 <= ParseInt(Trim(pieces[j])).value < 1000
    {
      FieldValue(pieces[j]);
    }
  }

  /** A text matching `rgb` or `rgba` is read by cases 0 and 1 of the `switch`. */
  lemma {:induction false} CallColor(s: string)
    requires Matches(RgbPattern(), s) || Matches(RgbaPattern(), s)
    ensures ColorOf(s) == Some(RgbColor(s))
  {
    var patterns := ColorFormatPatterns();
    if !Matches(patterns[0], s) {
      assert Matches(patterns[1], s);
    }
  }

  /** Three channel values of 0 to 999 build an opaque colour of those channels. */
  lemma {:induction false} ThreeChannels(vs: seq<Option<int>>)
    requires |vs| == 3 && forall j | 0 <= j < 3 :: vs[j].Some? && 0 <= vs[j].value < 1000
    ensures var c := ChannelColor(vs);
      && c.SassColor? && c.alpha == 1
      && c.red.Some? && 0 <= c.red.value < 1000
      && c.green.Some? && 0 <= c.green.value < 1000
      && c.blue.Some? && 0 <= c.blue.value < 1000
  {
  }

  /** A text matching `rgb` becomes an opaque colour whose three channels are 0 to 999. */
  lemma {:induction false} RgbChannels(s: string)
    requires Matches(RgbPattern(), s)
    ensures var c := ColorOf(s);
      && c.Some? && c.value.SassColor? && c.value.alpha == 1
      && c.value.red.Some? && 0 <= c.value.red.value < 1000
      && c.value.green.Some? && 0 <= c.value.green.value < 1000
      && c.value.blue.Some? && 0 <= c.value.blue.value < 1000
  {
    CallChannels("rgb", 3, s);
    CallColor(s);
    ThreeChannels(ChannelValues(s));
  }

  /** Four channel values of 0 to 999 build a colour whose alpha is the fourth, or 1 for 0. */
  lemma {:induction false} FourChannels(vs: seq<Option<int>>)
    requires |vs| == 4 && forall j | 0 <= j < 4 :: vs[j].Some? && 0 <= vs[j].value < 1000
    ensures ChannelColor(vs) == SassColor(vs[0], vs[1], vs[2], if vs[3].value == 0 then 1 else vs[3].value)
  {
  }

  /**
   * A text matching `rgba` becomes a colour whose four values are 0 to 999;
   * its alpha is the fourth value, or 1 when that is 0.
   */
  lemma {:induction false} RgbaChannels(s: string)
    requires Matches(RgbaPattern(), s)
    ensures var vs := ChannelValues(s);
      && |vs| == 4 && (forall j | 0 <= j < 4 :: vs[j].Some? && 0 <= vs[j].value < 1000)
      && ColorOf(s) == Some(SassColor(vs[0], vs[1], vs[2], if vs[3].value == 0 then 1 else vs[3].value))
  {
    CallChannels("rgba", 4, s);
    CallColor(s);
    FourChannels(ChannelValues(s));
  }

  /**
   * The number `parseInt` (radix 10) finds in hexadecimal digits: the value of
   * their leading run of decimal digits, 0 when there is none (`NaN | x == x`).
   */
  function DecimalReading(h: string): nat {
    DigitsValue(h[..DecimalPrefix(h)])
  }

  /** Whatever text case 2 reads, the packed colour it builds has alpha 0xFF: it is opaque. */
  lemma {:induction false} HexOpaque(s: string)
    ensures var c := HexColor(s);
      c.SassColorArgb? && 0xFF00_0000 <= c.argb < 0x1_0000_0000
  {
    var n := match ParseInt(SliceFrom(s, IndexOf(s, '#') + 1)) case Some(v) => v case None => 0;
    OrTopByte(ToUint32(n));
  }

  /** A hexadecimal digit is not white space. */
  lemma {:induction false} HexDigitNotSpace(c: char)
    requires IsHexDigit(c)
    ensures !IsSpace(c)
  {
  }

  /** `parseInt` of six hexadecimal digits reads their decimal prefix, below 10^6. */
  lemma {:induction false} HexDigitsParse(h: string)
    requires |h| == 6 && AllHexDigits(h)
    ensures (match ParseInt(h) case Some(v) => v case None => 0) == DecimalReading(h)
    ensures DecimalReading(h) < 1000000
  {
    if DecimalPrefix(h) == 0 {
      assert h[..0] == [];
      HexDigitNotSpace(h[0]);
      ParseIntNone(h);
    } else {
      DecimalRun(h);
    }
  }

  /** Hexadecimal digits that start with a decimal one: `parseInt` reads that run of up to six. */
  lemma {:induction false} DecimalRun(h: string)
    requires |h| == 6 && AllHexDigits(h) && DecimalPrefix(h) > 0
    ensures ParseInt(h) == Some(DecimalReading(h)) && DecimalReading(h) < 1000000
  {
    var k := DecimalPrefix(h);
    var ds, t := h[..k], h[k..];
    assert h == ds + t;
    assert t != [] ==> t[0] == h[k] && IsHexDigit(t[0]);
    SixDigitsBound(k);
    DigitsValueBound(ds);
    ParseIntDigits(ds, t);
  }

  lemma {:induction false} SixDigitsBound(k: nat)
    requires k <= 6
    ensures Pow10(k) <= 1000000
  {
    assert Pow10(1) == 10 && Pow10(2) == 100 && Pow10(3) == 1000;
    assert Pow10(4) == 10000 && Pow10(5) == 100000 && Pow10(6) == 1000000;
  }

  /** Case 2 on '#' and six hexadecimal digits reads the text after the '#'. */
  lemma {:induction false} AfterHash(s: string)
    requires |s| == 7 && s[0] == '#'
    ensures SliceFrom(s, IndexOf(s, '#') + 1) == s[1..]
  {
    assert IndexOf(s, '#') == 0;
  }

  /** Case 2 on '#' and six hexadecimal digits: alpha 0xFF over the decimal reading of the digits. */
  lemma {:induction false} HexDigitsColor(s: string)
    requires |s| == 7 && s[0] == '#' && AllHexDigits(s[1..])
    ensures HexColor(s).argb == 0xFF000000 + DecimalReading(s[1..])
  {
    var r := DecimalReading(s[1..]);
    assert r < 1000000 && (match ParseInt(SliceFrom(s, IndexOf(s, '#') + 1)) case Some(v) => v case None => 0) == r by {
      AfterHash(s);
      HexDigitsParse(s[1..]);
    }
    OrLowBits(r);
  }

  /**
   * A text matching the hexadecimal pattern becomes a packed colour with alpha
   * 0xFF whose low 24 bits are the digits read as a decimal number, not as
   * hexadecimal.
   */
  lemma {:induction false} HexReading(s: string)
    requires Matches(HexPattern(), s)
    ensures var c := ColorOf(s);
      c.Some? && c.value.SassColorArgb? && c.value.argb == 0xFF000000 + DecimalReading(s[1..])
  {
    HexShape(s);
    AtMostOnePattern(s, 0, 2);
    AtMostOnePattern(s, 1, 2);
    HexDigitsColor(s);
  }

  // ---------------------------------------------------------------------------
  // Writing a colour and reading it back
  // ---------------------------------------------------------------------------

  /** The number the one to three digits of a field spell. */
  function FieldNumber(f: string): nat
    requires IsField(f)
  {
    FieldDigits(f);
    DigitsValue(Trim(f))
  }

  /** The numbers of a run of fields. */
  function FieldNumbers(pieces: seq<string>): (ns: seq<nat>)
    requires forall j | 0 <= j < |pieces| :: IsField(pieces[j])
    ensures |ns| == |pieces|
  {
    seq(|pieces|, j requires 0 <= j < |pieces| => FieldNumber(pieces[j]))
  }

  /** Every value present. */
  function Present(ns: seq<nat>): (vs: seq<Option<int>>)
    ensures |vs| == |ns|
  {
    seq(|ns|, j requires 0 <= j < |ns| => Some(ns[j]))
  }

  /** A name spelled in letters, white space, '(' and a last ')': `values` reads the text between. */
  lemma {:induction false} CallInside(name: string, v: string, sp: string, x: string)
    requires IsLowerWord(name) && Spells(name, v, true) && AllSpace(sp)
    ensures var s := v + sp + ['('] + x + [')'];
      Slice(s, IndexOf(s, '(') + 1, LastIndexOf(s, ')')) == x
  {
    NameNoParen(name, v, sp);
    SliceBetween(v + sp, '(', x, ')');
  }

  /** A name spelled in letters followed by white space holds no '('. */
  lemma {:induction false} NameNoParen(name: string, v: string, sp: string)
    requires IsLowerWord(name) && Spells(name, v, true) && AllSpace(sp)
    ensures '(' !in v + sp
  {
    forall j | 0 <= j < |v + sp|
      ensures (v + sp)[j] != '('
    {
      if j < |v| {
        SameLetter(name[j], v[j], true);
      }
    }
  }

  /** Fields joined by commas are read back one channel per field, each the number its digits spell. */
  lemma {:induction false} FieldsRoundTrip(pieces: seq<string>)
    requires |pieces| >= 1 && forall j | 0 <= j < |pieces| :: IsField(pieces[j])
    ensures Channels(Join(pieces, ',')) == Present(FieldNumbers(pieces))
  {
    forall j | 0 <= j < |pieces|
      ensures ',' !in pieces[j]
    {
      FieldHasNo(pieces[j], ',');
    }
    SplitJoin(pieces, ',');
    var vs, ns := Channels(Join(pieces, ',')), FieldNumbers(pieces);
    forall j | 0 <= j < |pieces|
      ensures vs[j] == Some(ns[j])
    {
      FieldRead(pieces[j]);
    }
  }

  /** A field trimmed and read by `parseInt` gives its number. */
  lemma {:induction false} FieldRead(f: string)
    requires IsField(f)
    ensures ParseInt(Trim(f)) == Some(FieldNumber(f))
  {
    FieldDigits(f);
    var ds := Trim(f);
    assert ds + [] == ds;
    ParseIntDigits(ds, []);
  }

  /**
   * Writing `name`, white space, '(' and fields of one to three digits joined
   * by commas, then ')', and reading the text back, gives one channel per field.
   */
  lemma {:induction false} CallRoundTrip(name: string, v: string, sp: string, pieces: seq<string>)
    requires IsLowerWord(name) && Spells(name, v, true) && AllSpace(sp)
    requires |pieces| >= 1 && forall j | 0 <= j < |pieces| :: IsField(pieces[j])
    ensures ChannelValues(v + sp + ['('] + Join(pieces, ',') + [')']) == Present(FieldNumbers(pieces))
  {
    CallInside(name, v, sp, Join(pieces, ','));
    FieldsRoundTrip(pieces);
  }

  /** Text written as `name(fields)` matches the pattern of that name and is read by cases 0 and 1. */
  lemma {:induction false} CallTextColor(name: string, v: string, sp: string, pieces: seq<string>)
    requires name == "rgb" || name == "rgba"
    requires Spells(name, v, true) && AllSpace(sp)
    requires |pieces| == |name| && forall j | 0 <= j < |pieces| :: IsField(pieces[j])
    ensures var s := v + sp + ['('] + Join(pieces, ',') + [')'];
      ColorOf(s) == Some(RgbColor(s))
  {
    CallText(name, v, sp, pieces);
    CallColor(v + sp + ['('] + Join(pieces, ',') + [')']);
  }

  /** Three or four numbers build the colour of those channels; a fourth number is the alpha unless it is 0. */
  lemma {:induction false} NumbersColor(ns: seq<nat>)
    requires 3 <= |ns| <= 4
    ensures ChannelColor(Present(ns))
         == SassColor(Some(ns[0]), Some(ns[1]), Some(ns[2]), if |ns| == 3 || ns[3] == 0 then 1 else ns[3])
  {
  }

  /** `rgb(r, g, b)` written with any case, spacing and one to three digits per channel reads back as those channels. */
  lemma {:induction false} RgbRoundTrip(v: string, sp: string, pieces: seq<string>)
    requires Spells("rgb", v, true) && AllSpace(sp)
    requires |pieces| == 3 && forall j | 0 <= j < 3 :: IsField(pieces[j])
    ensures var ns := FieldNumbers(pieces);
      ColorOf(v + sp + ['('] + Join(pieces, ',') + [')']) == Some(SassColor(Some(ns[0]), Some(ns[1]), Some(ns[2]), 1))
  {
    var s, ns := v + sp + ['('] + Join(pieces, ',') + [')'], FieldNumbers(pieces);
    assert RgbColor(s) == ChannelColor(Present(ns)) by {
      CallRoundTrip("rgb", v, sp, pieces);
    }
    NumbersColor(ns);
    CallTextColor("rgb", v, sp, pieces);
  }

  /** The same for `rgba(r, g, b, a)`, whose alpha is the fourth number unless that is 0. */
  lemma {:induction false} RgbaRoundTrip(v: string, sp: string, pieces: seq<string>)
    requires Spells("rgba", v, true) && AllSpace(sp)
    requires |pieces| == 4 && forall j | 0 <= j < 4 :: IsField(pieces[j])
    ensures var ns := FieldNumbers(pieces);
      ColorOf(v + sp + ['('] + Join(pieces, ',') + [')'])
      == Some(SassColor(Some(ns[0]), Some(ns[1]), Some(ns[2]), if ns[3] == 0 then 1 else ns[3]))
  {
    var s, ns := v + sp + ['('] + Join(pieces, ',') + [')'], FieldNumbers(pieces);
    assert RgbColor(s) == ChannelColor(Present(ns)) by {
      CallRoundTrip("rgba", v, sp, pieces);
    }
    NumbersColor(ns);
    CallTextColor("rgba", v, sp, pieces);
  }

  // ---------------------------------------------------------------------------
  // Where a colour can start
  // ---------------------------------------------------------------------------

  /** Text that spells a name starting with 'r', up to case, starts with 'r' or 'R'. */
  lemma {:induction false} CallInitial(name: string, n: nat, s: string)
    requires n >= 1 && |name| >= 1 && name[0] == 'r' && MatchFrom(Call(name, n), true, s)
    ensures s != [] && (s[0] == 'r' || s[0] == 'R')
  {
    var p := CallSpan(name, n, true, s);
    assert s[..|name|][0] == s[0];
  }

  /** A text any colour pattern matches starts with 'r', 'R' or '#'. */
  lemma {:induction false} ColorInitial(s: string)
    requires exists i | 0 <= i < 3 :: Matches(ColorFormatPatterns()[i], s)
    ensures s != [] && (s[0] == 'r' || s[0] == 'R' || s[0] == '#')
  {
    var patterns := ColorFormatPatterns();
    if Matches(patterns[0], s) {
      CallInitial("rgb", 3, s);
    } else if Matches(patterns[1], s) {
      CallInitial("rgba", 4, s);
    } else {
      HexShape(s);
    }
  }

  /** Text that does not start with 'r', 'R' or '#' is no colour. */
  lemma {:induction false} NotColor(s: string)
    requires s == [] || (s[0] != 'r' && s[0] != 'R' && s[0] != '#')
    ensures ColorOf(s) == None
  {
    ColorMatched(s);
    if exists i | 0 <= i < 3 :: Matches(ColorFormatPatterns()[i], s) {
      ColorInitial(s);
    }
  }

  /** A colour has no numeric prefix, so the order in which `parseString` tries the two never matters. */
  lemma {:induction false} ColorNotNumber(s: string)
    requires exists i | 0 <= i < 3 :: Matches(ColorFormatPatterns()[i], s)
    ensures !HasNumericPrefix(s)
  {
    ColorInitial(s);
    TrimStartNone(s);
  }

  // ---------------------------------------------------------------------------
  // parseNumber
  // ---------------------------------------------------------------------------

  /**
   * `parseNumber(s)` as its documentation states it: the number `parseFloat`
   * reads, with the text after as many characters as `'' + number` has as the
   * unit; `None` when `parseFloat` finds no number.
   */
  function ParseNumber(s: string): (r: Option<SassValue>)
  {
    match ParseFloat(s)
    case None => None
    case Some(v) => Some(SassNumber(v, SliceFrom(s, |Render(v)|)))
  }

  /**
   * `parseNumber` gives a number exactly when the text has a numeric prefix,
   * and the unit it keeps is always a suffix of the text.
   */
  lemma {:induction false} NumberDefined(s: string)
    ensures ParseNumber(s).Some? <==> HasNumericPrefix(s)
    ensures ParseNumber(s).Some? ==> var u := ParseNumber(s).value.unit;
      |u| <= |s| && s[|s| - |u|..] == u
  {
    ParseFloatDefined(s);
    if ParseFloat(s).Some? {
      SuffixFrom(s, |Render(ParseFloat(s).value)|);
    }
  }

  /** `s.slice(n)` is a suffix of `s`. */
  lemma {:induction false} SuffixFrom(s: string, n: nat)
    ensures var u := SliceFrom(s, n); |u| <= |s| && s[|s| - |u|..] == u
  {
  }

  /** `(a + b).slice(a.length)` is `b`. */
  lemma {:induction false} SliceAfter(a: string, b: string)
    ensures SliceFrom(a + b, |a|) == b
  {
  }

  /**
   * A number written in its canonical form, followed by a unit that does not
   * continue the literal, reads back as that number and that unit.
   */
  lemma {:induction false} NumberRoundTrip(d: Dec, u: string)
    requires EndsLiteral(u)
    ensures ParseNumber(Render(d) + u) == Some(SassNumber(d, u))
  {
    ParseRendered(d, u);
    SliceAfter(Render(d), u);
  }

  // ---------------------------------------------------------------------------
  // parseString
  // ---------------------------------------------------------------------------

  /** `parseColor(s) || parseNumber(s)`, or a Sass string holding `s`. */
  function ParseString(s: string): SassValue {
    match ColorOf(s)
    case Some(c) => c
    case None =>
      match ParseNumber(s)
      case Some(n) => n
      case None => SassString(s)
  }

  /**
   * A string becomes a colour exactly when a colour pattern matches it, a
   * number exactly when none does and it has a numeric prefix, and otherwise
   * a Sass string holding the very same text.
   */
  lemma {:induction false} StringClassification(s: string)
    ensures var matched := exists i | 0 <= i < 3 :: Matches(ColorFormatPatterns()[i], s);
      && (IsColor(ParseString(s)) <==> matched)
      && (ParseString(s).SassNumber? <==> !matched && HasNumericPrefix(s))
      && (ParseString(s).SassString? <==> !matched && !HasNumericPrefix(s))
      && (ParseString(s).SassString? ==> ParseString(s).text == s)
  {
    ColorMatched(s);
    NumberDefined(s);
  }

  // ---------------------------------------------------------------------------
  // parseValue, parseList, parseMap, toSassValue
  // ---------------------------------------------------------------------------

  /** `parseValue(v)`: the Sass value a JavaScript value converts to. */
  function ParseValue(v: JsValue): SassValue
    decreases v
  {
    match v
    case Null => SassNull
    case Undefined => SassNull
    case Num(n) => SassNumber(n, "")
    case Str(s) => ParseString(s)
    case Bool(b) => SassBoolean(b)
    case Arr(elems) => SassList(seq(|elems|, i requires 0 <= i < |elems| => ParseValue(elems[i])))
    case Obj(props) =>
      SassMap(seq(|props|, i requires 0 <= i < |props| => (SassString(props[i].0), ParseValue(props[i].1))))
  }

  /**
   * Only `null` and `undefined` become Sass null; only booleans become Sass
   * booleans, with the same truth; only arrays become lists and only other
   * objects become maps; a number keeps its value and has no unit.
   */
  lemma {:induction false} KindPreserved(v: JsValue)
    ensures ParseValue(v) == SassNull <==> v.Null? || v.Undefined?
    ensures ParseValue(v).SassBoolean? <==> v.Bool?
    ensures v.Bool? ==> ParseValue(v).truth == v.b
    ensures ParseValue(v).SassList? <==> v.Arr?
    ensures ParseValue(v).SassMap? <==> v.Obj?
    ensures v.Num? ==> ParseValue(v) == SassNumber(v.n, "")
  {
    if v.Str? {
      StringClassification(v.s);
    }
  }

  /** Reading slot `i` of a converted array gives the conversion of element `i`; reading past the end fails. */
  lemma {:induction false} ListSlots(elems: seq<JsValue>, i: int)
    ensures GetValue(ParseValue(Arr(elems)), i) == if 0 <= i < |elems| then Some(ParseValue(elems[i])) else None
  {
  }

  /** `toSassValue(v)`, which is `parseValue(v)`. */
  method ToSassValue(v: JsValue) returns (r: SassValue)
    ensures r == ParseValue(v)
    decreases v, 1
  {
    match v
    case Null => r := SassNull;
    case Undefined => r := SassNull;
    case Num(n) => r := SassNumber(n, "");
    case Str(s) => r := ParseString(s);
    case Bool(b) => r := SassBoolean(b);
    case Arr(_) => r := ParseList(v);
    case Obj(_) => r := ParseMap(v);
  }

  /**
   * `parseList(v)`: a list of the array's length whose slot `i` is filled
   * with the conversion of element `i`, in order.
   */
  method ParseList(v: JsValue) returns (list: SassValue)
    requires v.Arr?
    ensures list.SassList? && |list.items| == |v.elems|
    ensures forall i | 0 <= i < |v.elems| :: list.items[i] == ParseValue(v.elems[i])
    ensures list == ParseValue(v)
    decreases v, 0
  {
    var slots := new SassValue[|v.elems|](_ => SassNull);
    for i := 0 to |v.elems|
      invariant forall j | 0 <= j < i :: slots[j] == ParseValue(v.elems[j])
    {
      var item := ToSassValue(v.elems[i]);
      slots[i] := item;
    }
    list := SassList(slots[..]);
  }

  /**
   * `parseMap(v)`: a map with one entry per key, in the order of the keys,
   * whose key `i` is a Sass string of key `i` and whose value `i` is the
   * conversion of the value under that key.
   */
  method ParseMap(v: JsValue) returns (map_: SassValue)
    requires v.Obj?
    ensures map_.SassMap? && |map_.entries| == |v.props|
    ensures forall i | 0 <= i < |v.props| ::
      map_.entries[i] == (SassString(v.props[i].0), ParseValue(v.props[i].1))
    ensures map_ == ParseValue(v)
    decreases v, 0
  {
    var n := |v.props|;
    var keys := new SassValue[n](_ => SassNull);
    var values := new SassValue[n](_ => SassNull);
    for i := 0 to n
      invariant forall j | 0 <= j < i :: keys[j] == SassString(v.props[j].0)
      invariant forall j | 0 <= j < i :: values[j] == ParseValue(v.props[j].1)
    {
      keys[i] := SassString(v.props[i].0);
      var value := ToSassValue(v.props[i].1);
      values[i] := value;
    }
    map_ := SassMap(seq(n, j requires 0 <= j < n reads keys, values => (keys[j], values[j])));
  }
}
