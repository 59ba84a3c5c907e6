/**
 * The three colour patterns of `getColorFormatPatterns` and the part of
 * JavaScript regular expressions they use: anchored at both ends, literal
 * characters (case-insensitive under the `i` flag), the classes `\s`,
 * `[0-9]` and `[0-9a-fA-F]`, `*` and bounded repetition `{lo,hi}`, with the
 * backtracking semantics of a regular expression.
 */
module ColorFormat {
  import opened JsString

  datatype CharClass = Space | Digit | HexDigit

  datatype Token =
    | Lit(c: char)
    | Star(cls: CharClass)
    | Rep(cls: CharClass, lo: nat, hi: nat)

  /** `^tokens$`, with the `i` flag when `ignoreCase`. */
  datatype Regex = Regex(tokens: seq<Token>, ignoreCase: bool)

  predicate InClass(cls: CharClass, c: char) {
    match cls
    case Space => IsSpace(c)
    case Digit => IsDigit(c)
    case HexDigit => IsHexDigit(c)
  }

  predicate AllIn(cls: CharClass, w: string) {
    forall j | 0 <= j < |w| :: InClass(cls, w[j])
  }

  /** ASCII letters in lower case; every literal of the patterns is ASCII. */
  function Fold(c: char): char {
    if 'A' <= c <= 'Z' then (c as int + 32) as char else c
  }

  predicate SameChar(p: char, c: char, ignoreCase: bool) {
    p == c || (ignoreCase && Fold(p) == Fold(c))
  }

  /** Whether the whole of `s` matches `toks`, trying every way to split it. */
  predicate MatchFrom(toks: seq<Token>, ic: bool, s: string)
    decreases |s|, |toks|, 1
  {
    if toks == [] then s == []
    else match toks[0]
      case Lit(c) => s != [] && SameChar(c, s[0], ic) && MatchFrom(toks[1..], ic, s[1..])
      case Star(cls) =>
        MatchFrom(toks[1..], ic, s) || (s != [] && InClass(cls, s[0]) && MatchFrom(toks, ic, s[1..]))
      case Rep(cls, lo, hi) => MatchRep(cls, lo, hi, toks[1..], ic, s)
  }

  /** `cls{lo,hi}` followed by `rest`. */
  predicate MatchRep(cls: CharClass, lo: nat, hi: nat, rest: seq<Token>, ic: bool, s: string)
    decreases |s|, |rest| + 1, 0
  {
    || (lo == 0 && MatchFrom(rest, ic, s))
    || (hi > 0 && s != [] && InClass(cls, s[0])
        && MatchRep(cls, if lo > 0 then lo - 1 else 0, hi - 1, rest, ic, s[1..]))
  }

  predicate Matches(re: Regex, s: string) {
    MatchFrom(re.tokens, re.ignoreCase, s)
  }

  // ---------------------------------------------------------------------------
  // The patterns
  // ---------------------------------------------------------------------------

  /** `\s*[0-9]{1,3}\s*`: one channel. */
  function Field(): seq<Token> {
    [Star(Space), Rep(Digit, 1, 3), Star(Space)]
  }

  /** `n` channels separated by commas, then the closing parenthesis. */
  function Fields(n: nat): seq<Token>
    requires n >= 1
  {
    if n == 1 then Field() + [Lit(')')] else Field() + [Lit(',')] + Fields(n - 1)
  }

  /** The literal letters of a word. */
  function Word(w: string): seq<Token> {
    seq(|w|, j requires 0 <= j < |w| => Lit(w[j]))
  }

  /** `name\s*\(` then `n` channels and `\)`. */
  function Call(name: string, n: nat): seq<Token>
    requires n >= 1
  {
    Word(name) + [Star(Space), Lit('(')] + Fields(n)
  }

  /** The `rgb` pattern: the name in any case, then three channels of one to three digits. */
  function RgbPattern(): Regex {
    Regex(Call("rgb", 3), true)
  }

  /** The `rgba` pattern: four channels of one to three digits, the last one the alpha. */
  function RgbaPattern(): Regex {
    Regex(Call("rgba", 4), true)
  }

  /** The hexadecimal pattern: '#' and exactly six hexadecimal digits, case as written. */
  function HexPattern(): Regex {
    Regex([Lit('#'), Rep(HexDigit, 6, 6)], false)
  }

  /** `getColorFormatPatterns()`, in the order the converter tries them. */
  function ColorFormatPatterns(): seq<Regex> {
    [RgbPattern(), RgbaPattern(), HexPattern()]
  }

  // ---------------------------------------------------------------------------
  // One token at a time
  // ---------------------------------------------------------------------------

  lemma {:induction false} LitStep(c: char, rest: seq<Token>, ic: bool, s: string)
    ensures MatchFrom([Lit(c)] + rest, ic, s) <==> s != [] && SameChar(c, s[0], ic) && MatchFrom(rest, ic, s[1..])
  {
    assert ([Lit(c)] + rest)[0] == Lit(c);
    assert ([Lit(c)] + rest)[1..] == rest;
  }

  lemma {:induction false} RepStep(cls: CharClass, lo: nat, hi: nat, rest: seq<Token>, ic: bool, s: string)
    ensures MatchFrom([Rep(cls, lo, hi)] + rest, ic, s) <==> MatchRep(cls, lo, hi, rest, ic, s)
  {
    assert ([Rep(cls, lo, hi)] + rest)[0] == Rep(cls, lo, hi);
    assert ([Rep(cls, lo, hi)] + rest)[1..] == rest;
  }

  /** A match of `cls*` then `rest` splits into a run of the class and a match of `rest`. */
  lemma {:induction false} StarSpan(cls: CharClass, rest: seq<Token>, ic: bool, s: string) returns (i: nat)
    requires MatchFrom([Star(cls)] + rest, ic, s)
    ensures i <= |s| && AllIn(cls, s[..i]) && MatchFrom(rest, ic, s[i..])
    decreases |s|
  {
    var toks := [Star(cls)] + rest;
    assert toks[0] == Star(cls) && toks[1..] == rest;
    if MatchFrom(rest, ic, s) {
      i := 0;
    } else {
      var j := StarSpan(cls, rest, ic, s[1..]);
      i := j + 1;
      assert s[..i] == [s[0]] + s[1..][..j];
      assert s[i..] == s[1..][j..];
    }
  }

  lemma {:induction false} StarIntro(cls: CharClass, w: string, rest: seq<Token>, ic: bool, t: string)
    requires AllIn(cls, w) && MatchFrom(rest, ic, t)
    ensures MatchFrom([Star(cls)] + rest, ic, w + t)
    decreases |w|
  {
    var toks := [Star(cls)] + rest;
    assert toks[0] == Star(cls) && toks[1..] == rest;
    if w == [] {
      assert w + t == t;
    } else {
      StarIntro(cls, w[1..], rest, ic, t);
      assert (w + t)[0] == w[0];
      assert (w + t)[1..] == w[1..] + t;
    }
  }

  /** A match of `cls{lo,hi}` then `rest` splits into `lo` to `hi` characters of the class and a match of `rest`. */
  lemma {:induction false} RepSpan(cls: CharClass, lo: nat, hi: nat, rest: seq<Token>, ic: bool, s: string) returns (i: nat)
    requires MatchRep(cls, lo, hi, rest, ic, s)
    ensures lo <= i <= hi && i <= |s| && AllIn(cls, s[..i]) && MatchFrom(rest, ic, s[i..])
    decreases |s|
  {
    if lo == 0 && MatchFrom(rest, ic, s) {
      i := 0;
    } else {
      var j := RepSpan(cls, if lo > 0 then lo - 1 else 0, hi - 1, rest, ic, s[1..]);
      i := j + 1;
      assert s[..i] == [s[0]] + s[1..][..j];
      assert s[i..] == s[1..][j..];
    }
  }

  lemma {:induction false} RepIntro(cls: CharClass, lo: nat, hi: nat, w: string, rest: seq<Token>, ic: bool, t: string)
    requires lo <= |w| <= hi && AllIn(cls, w) && MatchFrom(rest, ic, t)
    ensures MatchRep(cls, lo, hi, rest, ic, w + t)
    decreases |w|
  {
    if w == [] {
      assert w + t == t;
    } else {
      RepIntro(cls, if lo > 0 then lo - 1 else 0, hi - 1, w[1..], rest, ic, t);
      assert (w + t)[0] == w[0];
      assert (w + t)[1..] == w[1..] + t;
    }
  }

  // ---------------------------------------------------------------------------
  // Channels
  // ---------------------------------------------------------------------------

  /** Text a channel can consist of: white space around one to three decimal digits. */
  predicate IsField(f: string) {
    exists a, b | 0 <= a < b <= |f| ::
      b - a <= 3 && AllSpace(f[..a]) && AllDigits(f[a..b]) && AllSpace(f[b..])
  }

  /** A field holds no character other than white space and digits. */
  lemma {:induction false} FieldHasNo(f: string, c: char)
    requires IsField(f) && !IsSpace(c) && !IsDigit(c)
    ensures c !in f
  {
    var a, b :| 0 <= a < b <= |f| && b - a <= 3 && AllSpace(f[..a]) && AllDigits(f[a..b]) && AllSpace(f[b..]);
    forall j | 0 <= j < |f|
      ensures f[j] != c
    {
      if j < a {
        assert f[j] == f[..a][j];
      } else if j < b {
        assert f[j] == f[a..b][j - a];
      } else {
        assert f[j] == f[b..][j - b];
      }
    }
  }

  /** `\s*[0-9]{1,3}` then `rest`: spaces up to `a`, one to three digits up to `b`. */
  lemma {:induction false} LeadingDigits(rest: seq<Token>, ic: bool, s: string) returns (a: nat, b: nat)
    requires MatchFrom([Star(Space), Rep(Digit, 1, 3)] + rest, ic, s)
    ensures a < b <= a + 3 && b <= |s|
    ensures AllIn(Space, s[..a]) && AllIn(Digit, s[a..b]) && MatchFrom(rest, ic, s[b..])
  {
    var r1 := [Rep(Digit, 1, 3)] + rest;
    assert [Star(Space), Rep(Digit, 1, 3)] + rest == [Star(Space)] + r1;
    a := StarSpan(Space, r1, ic, s);
    RepStep(Digit, 1, 3, rest, ic, s[a..]);
    var i := RepSpan(Digit, 1, 3, rest, ic, s[a..]);
    b := a + i;
    assert s[a..][..i] == s[a..b];
    assert s[a..][i..] == s[b..];
  }

  /** `\s*` then the separator then `rest`: spaces up to `k`, the separator at `k`. */
  lemma {:induction false} TrailingSpaces(sep: char, rest: seq<Token>, ic: bool, s: string) returns (k: nat)
    requires MatchFrom([Star(Space), Lit(sep)] + rest, ic, s)
    ensures k < |s| && AllIn(Space, s[..k]) && SameChar(sep, s[k], ic) && MatchFrom(rest, ic, s[k + 1..])
  {
    var r := [Lit(sep)] + rest;
    assert [Star(Space), Lit(sep)] + rest == [Star(Space)] + r;
    k := StarSpan(Space, r, ic, s);
    LitStep(sep, rest, ic, s[k..]);
    assert s[k..][1..] == s[k + 1..];
  }

  /** The three parts of a field followed by a separator and the rest. */
  lemma {:induction false} FieldParts(sep: char, rest: seq<Token>, ic: bool, s: string) returns (a: nat, b: nat, k: nat)
    requires MatchFrom(Field() + [Lit(sep)] + rest, ic, s)
    ensures a < b <= a + 3 && b <= k < |s|
    ensures AllIn(Space, s[..a]) && AllIn(Digit, s[a..b]) && AllIn(Space, s[b..k])
    ensures SameChar(sep, s[k], ic) && MatchFrom(rest, ic, s[k + 1..])
  {
    var r := [Star(Space), Lit(sep)] + rest;
    assert Field() + [Lit(sep)] + rest == [Star(Space), Rep(Digit, 1, 3)] + r;
    a, b := LeadingDigits(r, ic, s);
    var i := TrailingSpaces(sep, rest, ic, s[b..]);
    k := b + i;
    assert s[b..][..i] == s[b..k];
    assert s[b..][i..] == s[k..];
    assert s[b..][i + 1..] == s[k + 1..];
  }

  /**
   * A match of one field and a separator: the first separator ends the field,
   * which holds one to three digits, and the rest matches after it.
   */
  lemma {:induction false} FieldSpan(sep: char, rest: seq<Token>, ic: bool, s: string)
    requires sep == ',' || sep == ')'
    requires MatchFrom(Field() + [Lit(sep)] + rest, ic, s)
    ensures var k := IndexOf(s, sep);
      && 0 <= k && IsField(s[..k]) && MatchFrom(rest, ic, s[k + 1..])
  {
    var a, b, k := FieldParts(sep, rest, ic, s);
    FieldEnd(s, a, b, k, sep);
  }

  /** White space, digits and white space, then the separator at `k`. */
  lemma {:induction false} FieldEnd(s: string, a: nat, b: nat, k: nat, sep: char)
    requires sep == ',' || sep == ')'
    requires a < b <= a + 3 && b <= k < |s|
    requires AllIn(Space, s[..a]) && AllIn(Digit, s[a..b]) && AllIn(Space, s[b..k])
    requires SameChar(sep, s[k], true) || SameChar(sep, s[k], false)
    ensures IndexOf(s, sep) == k && IsField(s[..k])
  {
    var f := s[..k];
    assert IsField(f) by {
      assert f[..a] == s[..a] && f[a..b] == s[a..b] && f[b..] == s[b..k];
      assert AllSpace(f[..a]) && AllDigits(f[a..b]) && AllSpace(f[b..]);
    }
    assert s[k] == sep;
    FieldHasNo(f, sep);
    assert s == f + [sep] + s[k + 1..];
    IndexOfAfter(f, sep, s[k + 1..]);
  }

  /** The last field: the text is the field and the closing parenthesis. */
  lemma {:induction false} LastField(ic: bool, x: string)
    requires MatchFrom(Field() + [Lit(')')] + [], ic, x)
    ensures x != [] && x[|x| - 1] == ')'
    ensures IsField(x[..|x| - 1]) && Split(x[..|x| - 1], ',') == [x[..|x| - 1]]
  {
    FieldSpan(')', [], ic, x);
    var k := IndexOf(x, ')');
    assert x[k + 1..] == [];
    assert x[..|x| - 1] == x[..k];
    FieldHasNo(x[..k], ',');
    SplitNone(x[..k], ',');
  }

  /** A field and a comma before the other fields add one piece in front. */
  lemma {:induction false} ConsField(x: string, k: nat)
    requires k < |x| && x[k] == ',' && ',' !in x[..k]
    requires x[k + 1..] != [] && x[|x| - 1] == ')'
    ensures Split(x[..|x| - 1], ',') == [x[..k]] + Split(x[k + 1..][..|x| - k - 2], ',')
  {
    var y := x[k + 1..];
    assert x[..|x| - 1] == x[..k] + [','] + y[..|y| - 1];
    SplitAfter(x[..k], ',', y[..|y| - 1]);
  }

  /**
   * A match of `n` fields: the text ends with ')' and what comes before it
   * splits at the commas into exactly `n` fields.
   */
  lemma {:induction false} FieldsSpan(n: nat, ic: bool, x: string)
    requires n >= 1 && MatchFrom(Fields(n), ic, x)
    ensures x != [] && x[|x| - 1] == ')'
    ensures var pieces := Split(x[..|x| - 1], ',');
      |pieces| == n && forall j | 0 <= j < n :: IsField(pieces[j])
    decreases n
  {
    if n == 1 {
      assert Fields(1) == Field() + [Lit(')')] + [];
      LastField(ic, x);
    } else {
      assert Fields(n) == Field() + [Lit(',')] + Fields(n - 1);
      FieldSpan(',', Fields(n - 1), ic, x);
      var k := IndexOf(x, ',');
      var y := x[k + 1..];
      FieldsSpan(n - 1, ic, y);
      MoreFields(x, k, n);
    }
  }

  /** One more field and a comma in front of `n - 1` fields make `n` fields. */
  lemma {:induction false} MoreFields(x: string, k: nat, n: nat)
    requires k < |x| && x[k] == ',' && ',' !in x[..k] && IsField(x[..k]) && n >= 2
    requires var y := x[k + 1..]; y != [] && y[|y| - 1] == ')'
    requires var y := x[k + 1..]; var tail := Split(y[..|y| - 1], ',');
      |tail| == n - 1 && forall j | 0 <= j < n - 1 :: IsField(tail[j])
    ensures x[|x| - 1] == ')'
    ensures var pieces := Split(x[..|x| - 1], ',');
      |pieces| == n && forall j | 0 <= j < n :: IsField(pieces[j])
  {
    var y := x[k + 1..];
    ConsField(x, k);
    var pieces := Split(x[..|x| - 1], ',');
    var tail := Split(y[..|y| - 1], ',');
    assert pieces == [x[..k]] + tail;
    forall j | 0 <= j < n
      ensures IsField(pieces[j])
    {
      if j > 0 {
        assert pieces[j] == tail[j - 1];
      }
    }
  }

  /** Matches of `n` fields written as digits, with no white space. */
  lemma {:induction false} FieldIntro(w1: string, ds: string, w2: string, sep: char, rest: seq<Token>, ic: bool, t: string)
    requires AllSpace(w1) && AllSpace(w2) && 1 <= |ds| <= 3 && AllDigits(ds)
    requires MatchFrom(rest, ic, t)
    ensures MatchFrom(Field() + [Lit(sep)] + rest, ic, w1 + ds + w2 + [sep] + t)
  {
    var r3 := [Lit(sep)] + rest;
    var r2 := [Star(Space)] + r3;
    var r1 := [Rep(Digit, 1, 3)] + r2;
    assert Field() + [Lit(sep)] + rest == [Star(Space)] + r1;
    LitStep(sep, rest, ic, [sep] + t);
    assert ([sep] + t)[1..] == t;
    StarIntro(Space, w2, r3, ic, [sep] + t);
    RepIntro(Digit, 1, 3, ds, r2, ic, w2 + ([sep] + t));
    RepStep(Digit, 1, 3, r2, ic, ds + (w2 + ([sep] + t)));
    StarIntro(Space, w1, r1, ic, ds + (w2 + ([sep] + t)));
    assert w1 + ds + w2 + [sep] + t == w1 + (ds + (w2 + ([sep] + t)));
  }

  /** Intro: white space around one to three digits, then the separator and a match of the rest. */
  lemma {:induction false} FieldIntroOf(f: string, sep: char, rest: seq<Token>, ic: bool, t: string)
    requires IsField(f) && MatchFrom(rest, ic, t)
    ensures MatchFrom(Field() + [Lit(sep)] + rest, ic, f + [sep] + t)
  {
    var a, b :| 0 <= a < b <= |f| && b - a <= 3 && AllSpace(f[..a]) && AllDigits(f[a..b]) && AllSpace(f[b..]);
    assert f == f[..a] + f[a..b] + f[b..];
    FieldIntro(f[..a], f[a..b], f[b..], sep, rest, ic, t);
  }

  /** Fields joined by commas and closed by ')' match `Fields`. */
  lemma {:induction false} FieldsIntro(pieces: seq<string>, ic: bool)
    requires |pieces| >= 1 && forall j | 0 <= j < |pieces| :: IsField(pieces[j])
    ensures MatchFrom(Fields(|pieces|), ic, Join(pieces, ',') + [')'])
    decreases |pieces|
  {
    if |pieces| == 1 {
      assert Fields(1) == Field() + [Lit(')')] + [];
      assert Join(pieces, ',') + [')'] == pieces[0] + [')'] + [];
      FieldIntroOf(pieces[0], ')', [], ic, []);
    } else {
      var n := |pieces|;
      assert Fields(n) == Field() + [Lit(',')] + Fields(n - 1);
      FieldsIntro(pieces[1..], ic);
      assert Join(pieces, ',') + [')'] == pieces[0] + [','] + (Join(pieces[1..], ',') + [')']);
      FieldIntroOf(pieces[0], ',', Fields(n - 1), ic, Join(pieces[1..], ',') + [')']);
    }
  }

  // ---------------------------------------------------------------------------
  // Words and calls
  // ---------------------------------------------------------------------------

  predicate IsLowerWord(w: string) {
    forall j | 0 <= j < |w| :: 'a' <= w[j] <= 'z'
  }

  /** `v` spells `w`, letter for letter, up to case when `ic`. */
  predicate Spells(w: string, v: string, ic: bool) {
    |v| == |w| && forall j | 0 <= j < |w| :: SameChar(w[j], v[j], ic)
  }

  lemma {:induction false} WordSpan(w: string, rest: seq<Token>, ic: bool, s: string)
    requires MatchFrom(Word(w) + rest, ic, s)
    ensures |w| <= |s| && Spells(w, s[..|w|], ic) && MatchFrom(rest, ic, s[|w|..])
    decreases |w|
  {
    if w != [] {
      assert Word(w) + rest == [Lit(w[0])] + (Word(w[1..]) + rest);
      LitStep(w[0], Word(w[1..]) + rest, ic, s);
      WordSpan(w[1..], rest, ic, s[1..]);
      assert s[1..][|w| - 1..] == s[|w|..];
      forall j | 0 <= j < |w|
        ensures SameChar(w[j], s[..|w|][j], ic)
      {
        if j > 0 {
          assert s[1..][..|w| - 1][j - 1] == s[..|w|][j];
        }
      }
    } else {
      assert Word(w) + rest == rest;
    }
  }

  lemma {:induction false} WordIntro(w: string, v: string, rest: seq<Token>, ic: bool, t: string)
    requires Spells(w, v, ic) && MatchFrom(rest, ic, t)
    ensures MatchFrom(Word(w) + rest, ic, v + t)
    decreases |w|
  {
    if w != [] {
      assert Word(w) + rest == [Lit(w[0])] + (Word(w[1..]) + rest);
      assert Spells(w[1..], v[1..], ic) by {
        forall j | 0 <= j < |w| - 1
          ensures SameChar(w[1..][j], v[1..][j], ic)
        {
          assert w[1..][j] == w[j + 1] && v[1..][j] == v[j + 1];
        }
      }
      WordIntro(w[1..], v[1..], rest, ic, t);
      assert (v + t)[1..] == v[1..] + t;
      LitStep(w[0], Word(w[1..]) + rest, ic, v + t);
    } else {
      assert Word(w) + rest == rest;
      assert v + t == t;
    }
  }

  /**
   * A match of a call: the name, white space up to the opening parenthesis
   * at `p`, then the channels.
   */
  lemma {:induction false} CallSpan(name: string, n: nat, ic: bool, s: string) returns (p: nat)
    requires n >= 1 && MatchFrom(Call(name, n), ic, s)
    ensures |name| <= p < |s| && s[p] == '('
    ensures Spells(name, s[..|name|], ic) && AllSpace(s[|name|..p])
    ensures MatchFrom(Fields(n), ic, s[p + 1..])
  {
    var r2 := [Lit('(')] + Fields(n);
    var r1 := [Star(Space)] + r2;
    assert Call(name, n) == Word(name) + r1;
    WordSpan(name, r1, ic, s);
    var s1 := s[|name|..];
    var i := StarSpan(Space, r2, ic, s1);
    LitStep('(', Fields(n), ic, s1[i..]);
    p := |name| + i;
    assert s1[..i] == s[|name|..p];
    assert s1[i..][1..] == s[p + 1..];
  }

  lemma {:induction false} CallIntro(name: string, n: nat, ic: bool, v: string, sp: string, x: string)
    requires n >= 1 && Spells(name, v, ic) && AllSpace(sp) && MatchFrom(Fields(n), ic, x)
    ensures MatchFrom(Call(name, n), ic, v + sp + ['('] + x)
  {
    var r2 := [Lit('(')] + Fields(n);
    var r1 := [Star(Space)] + r2;
    assert Call(name, n) == Word(name) + r1;
    LitStep('(', Fields(n), ic, ['('] + x);
    assert (['('] + x)[1..] == x;
    StarIntro(Space, sp, r2, ic, ['('] + x);
    WordIntro(name, v, r1, ic, sp + (['('] + x));
    assert v + sp + ['('] + x == v + (sp + (['('] + x));
  }

  /** A letter matched by a lower-case letter is an ASCII letter in either case. */
  lemma {:induction false} SameLetter(p: char, c: char, ic: bool)
    requires 'a' <= p <= 'z' && SameChar(p, c, ic)
    ensures 'a' <= c <= 'z' || 'A' <= c <= 'Z'
  {
  }

  lemma {:induction false} LetterNotSpace(c: char)
    requires 'a' <= c <= 'z' || 'A' <= c <= 'Z'
    ensures !IsSpace(c)
  {
  }

  /** The opening parenthesis after a name and white space is the first one. */
  lemma {:induction false} FirstParen(name: string, ic: bool, s: string, p: nat)
    requires IsLowerWord(name) && |name| <= p < |s| && s[p] == '('
    requires Spells(name, s[..|name|], ic) && AllSpace(s[|name|..p])
    ensures IndexOf(s, '(') == p
  {
    forall j | 0 <= j < p
      ensures s[j] != '('
    {
      if j < |name| {
        assert s[..|name|][j] == s[j];
        SameLetter(name[j], s[j], ic);
      } else {
        assert s[|name|..p][j - |name|] == s[j];
      }
    }
    assert '(' !in s[..p] by {
      forall j | 0 <= j < p ensures s[..p][j] != '(' {
        assert s[..p][j] == s[j];
      }
    }
    assert s == s[..p] + ['('] + s[p + 1..];
    IndexOfAfter(s[..p], '(', s[p + 1..]);
  }

  // ---------------------------------------------------------------------------
  // What each pattern accepts
  // ---------------------------------------------------------------------------

  /**
   * A match of `rgb` or `rgba`: the name up to case, white space, '(' as the
   * first opening parenthesis, and then `n` fields separated by commas up to
   * the closing parenthesis, which ends the text.
   */
  lemma {:induction false} CallShape(name: string, n: nat, s: string) returns (p: nat)
    requires n >= 1 && IsLowerWord(name) && MatchFrom(Call(name, n), true, s)
    ensures |name| <= p < |s| - 1 && IndexOf(s, '(') == p && s[|s| - 1] == ')'
    ensures Spells(name, s[..|name|], true) && AllSpace(s[|name|..p])
    ensures var pieces := Split(s[p + 1..|s| - 1], ',');
      |pieces| == n && forall j | 0 <= j < n :: IsField(pieces[j])
  {
    p := CallSpan(name, n, true, s);
    FirstParen(name, true, s, p);
    var x := s[p + 1..];
    FieldsSpan(n, true, x);
    assert x[..|x| - 1] == s[p + 1..|s| - 1];
  }

  /** The converse: such a text matches the call. */
  lemma {:induction false} CallText(name: string, v: string, sp: string, pieces: seq<string>)
    requires |pieces| >= 1 && Spells(name, v, true) && AllSpace(sp)
    requires forall j | 0 <= j < |pieces| :: IsField(pieces[j])
    ensures MatchFrom(Call(name, |pieces|), true, v + sp + ['('] + Join(pieces, ',') + [')'])
  {
    FieldsIntro(pieces, true);
    CallIntro(name, |pieces|, true, v, sp, Join(pieces, ',') + [')']);
    assert v + sp + ['('] + (Join(pieces, ',') + [')']) == v + sp + ['('] + Join(pieces, ',') + [')'];
  }

  /** The hexadecimal pattern accepts exactly '#' and six hexadecimal digits. */
  lemma {:induction false} HexShape(s: string)
    ensures Matches(HexPattern(), s) <==> |s| == 7 && s[0] == '#' && AllHexDigits(s[1..])
  {
    LitStep('#', [Rep(HexDigit, 6, 6)], false, s);
    assert [Lit('#'), Rep(HexDigit, 6, 6)] == [Lit('#')] + [Rep(HexDigit, 6, 6)];
    if s != [] {
      var t := s[1..];
      RepStep(HexDigit, 6, 6, [], false, t);
      assert [Rep(HexDigit, 6, 6)] == [Rep(HexDigit, 6, 6)] + [];
      if MatchRep(HexDigit, 6, 6, [], false, t) {
        var i := RepSpan(HexDigit, 6, 6, [], false, t);
        assert t[i..] == [];
        assert t == t[..i];
      }
      if |s| == 7 && s[0] == '#' && AllHexDigits(t) {
        assert t + [] == t;
        RepIntro(HexDigit, 6, 6, t, [], false, []);
      }
    }
  }

  lemma {:induction false} RgbStart(s: string)
    requires Matches(RgbPattern(), s)
    ensures |s| > 3 && ('a' <= s[0] <= 'z' || 'A' <= s[0] <= 'Z') && (s[3] == '(' || IsSpace(s[3]))
  {
    var p := CallSpan("rgb", 3, true, s);
    assert s[..|"rgb"|][0] == s[0];
    SameLetter('r', s[0], true);
    if p > 3 {
      assert s[|"rgb"|..p][0] == s[3];
    }
  }

  lemma {:induction false} RgbaStart(s: string)
    requires Matches(RgbaPattern(), s)
    ensures |s| > 3 && ('a' <= s[0] <= 'z' || 'A' <= s[0] <= 'Z') && s[3] != '(' && !IsSpace(s[3])
  {
    var p := CallSpan("rgba", 4, true, s);
    assert s[..|"rgba"|][0] == s[0] && s[..|"rgba"|][3] == s[3];
    SameLetter('r', s[0], true);
    SameLetter('a', s[3], true);
    LetterNotSpace(s[3]);
  }

  /** No text matches two of the colour patterns. */
  lemma {:induction false} AtMostOnePattern(s: string, i: nat, j: nat)
    requires i < j < 3
    ensures !(Matches(ColorFormatPatterns()[i], s) && Matches(ColorFormatPatterns()[j], s))
  {
    if Matches(ColorFormatPatterns()[i], s) && Matches(ColorFormatPatterns()[j], s) {
      if i == 0 {
        RgbStart(s);
      } else {
        RgbaStart(s);
      }
      if j == 1 {
        RgbaStart(s);
      } else {
        HexShape(s);
      }
    }
  }
}
