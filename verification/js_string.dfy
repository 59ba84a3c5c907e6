/**
 * The ECMAScript string and integer primitives that the converter relies on:
 * white space, `indexOf`, `lastIndexOf`, `slice`, `split`, `trim` and
 * `parseInt` (called without a radix). A string is a `seq<char>`, one element
 * per Unicode scalar value; ECMAScript counts UTF-16 code units instead, so
 * the two agree on text within the Basic Multilingual Plane.
 */
module JsString {
  import opened Wrappers

  /** WhiteSpace and LineTerminator code points: what `\s`, `trim`, `parseInt` and `parseFloat` skip. */
  predicate IsSpace(c: char) {
    || c == '\t' || c == '\n' || c == '\U{000B}' || c == '\U{000C}' || c == '\r' || c == ' '
    || c == '\U{00A0}' || c == '\U{1680}' || ('\U{2000}' <= c <= '\U{200A}')
    || c == '\U{2028}' || c == '\U{2029}' || c == '\U{202F}' || c == '\U{205F}'
    || c == '\U{3000}' || c == '\U{FEFF}'
  }

  predicate IsDigit(c: char) { '0' <= c <= '9' }

  predicate IsHexDigit(c: char) { IsDigit(c) || 'a' <= c <= 'f' || 'A' <= c <= 'F' }

  predicate AllSpace(s: string) { forall i | 0 <= i < |s| :: IsSpace(s[i]) }

  predicate AllDigits(s: string) { forall i | 0 <= i < |s| :: IsDigit(s[i]) }

  predicate AllHexDigits(s: string) { forall i | 0 <= i < |s| :: IsHexDigit(s[i]) }

  function Pow10(k: nat): (p: nat)
    ensures p >= 1
  {
    if k == 0 then 1 else 10 * Pow10(k - 1)
  }

  // ---------------------------------------------------------------------------
  // Searching and cutting
  // ---------------------------------------------------------------------------

  /** `s.indexOf(c)`: the first position of `c`, or -1. */
  function IndexOf(s: string, c: char): (k: int)
    ensures -1 <= k < |s|
    ensures k == -1 <==> c !in s
    ensures 0 <= k ==> s[k] == c && c !in s[..k]
  {
    if s == [] then -1
    else if s[0] == c then 0
    else
      var k := IndexOf(s[1..], c);
      assert 0 <= k ==> s[..k + 1] == [s[0]] + s[1..][..k];
      assert s == [s[0]] + s[1..];
      if k < 0 then -1 else k + 1
  }

  /** `s.lastIndexOf(c)`: the last position of `c`, or -1. */
  function LastIndexOf(s: string, c: char): (k: int)
    ensures -1 <= k < |s|
    ensures k == -1 <==> c !in s
    ensures 0 <= k ==> s[k] == c && c !in s[k + 1..]
  {
    if s == [] then -1
    else if s[|s| - 1] == c then |s| - 1
    else
      assert s == s[..|s| - 1] + [s[|s| - 1]];
      LastIndexOf(s[..|s| - 1], c)
  }

  /** How `slice` reads one of its arguments: negative counts from the end, then clamp. */
  function RelativeIndex(i: int, len: nat): (r: nat)
    ensures r <= len
  {
    if i < 0 then (if len + i < 0 then 0 else len + i)
    else if i < len then i
    else len
  }

  /** `s.slice(start, end)`. */
  function Slice(s: string, start: int, end: int): string
  {
    var from, to := RelativeIndex(start, |s|), RelativeIndex(end, |s|);
    if from < to then s[from..to] else []
  }

  /** `s.slice(start)`. */
  function SliceFrom(s: string, start: int): string
  {
    Slice(s, start, |s|)
  }

  // ---------------------------------------------------------------------------
  // split and its inverse
  // ---------------------------------------------------------------------------

  /** `s.split(sep)` for a one-character separator: never empty, and no piece holds `sep`. */
  function Split(s: string, sep: char): (parts: seq<string>)
    ensures |parts| >= 1
    ensures forall i | 0 <= i < |parts| :: sep !in parts[i]
    decreases |s|
  {
    var k := IndexOf(s, sep);
    if k < 0 then [s] else [s[..k]] + Split(s[k + 1..], sep)
  }

  /** `parts.join(sep)`. */
  function Join(parts: seq<string>, sep: char): string
    requires |parts| >= 1
  {
    if |parts| == 1 then parts[0] else parts[0] + [sep] + Join(parts[1..], sep)
  }

  /** Joining the pieces of a split gives back the text. */
  lemma {:induction false} JoinSplit(s: string, sep: char)
    ensures Join(Split(s, sep), sep) == s
    decreases |s|
  {
    var k := IndexOf(s, sep);
    if k >= 0 {
      var rest := Split(s[k + 1..], sep);
      JoinSplit(s[k + 1..], sep);
      JoinCons(s[..k], rest, sep);
      assert s == s[..k] + [s[k]] + s[k + 1..];
    }
  }

  lemma {:induction false} JoinCons(x: string, rest: seq<string>, sep: char)
    requires |rest| >= 1
    ensures Join([x] + rest, sep) == x + [sep] + Join(rest, sep)
  {
    assert ([x] + rest)[1..] == rest;
  }

  /** Splitting a join of separator-free pieces gives back the pieces. */
  lemma {:induction false} SplitJoin(parts: seq<string>, sep: char)
    requires |parts| >= 1
    requires forall i | 0 <= i < |parts| :: sep !in parts[i]
    ensures Split(Join(parts, sep), sep) == parts
  {
    if |parts| > 1 {
      var rest := Join(parts[1..], sep);
      SplitAfter(parts[0], sep, rest);
      SplitJoin(parts[1..], sep);
      assert parts == [parts[0]] + parts[1..];
    } else {
      SplitNone(parts[0], sep);
    }
  }

  lemma {:induction false} IndexOfAfter(a: string, c: char, b: string)
    requires c !in a
    ensures IndexOf(a + [c] + b, c) == |a|
  {
    var s := a + [c] + b;
    assert s[|a|] == c;
    assert s[..|a|] == a;
  }

  /** The text between the first `c` and a closing `d` at the very end, when `a` before it holds no `c`. */
  lemma {:induction false} SliceBetween(a: string, c: char, x: string, d: char)
    requires c !in a
    ensures var s := a + [c] + x + [d];
      Slice(s, IndexOf(s, c) + 1, LastIndexOf(s, d)) == x
  {
    var s := a + [c] + x + [d];
    assert s == a + [c] + (x + [d]);
    IndexOfAfter(a, c, x + [d]);
    assert LastIndexOf(s, d) == |s| - 1;
    assert s[|a| + 1..|s| - 1] == x;
  }

  lemma {:induction false} SplitNone(a: string, sep: char)
    requires sep !in a
    ensures Split(a, sep) == [a]
  {
  }

  lemma {:induction false} SplitAfter(a: string, sep: char, b: string)
    requires sep !in a
    ensures Split(a + [sep] + b, sep) == [a] + Split(b, sep)
  {
    var s := a + [sep] + b;
    IndexOfAfter(a, sep, b);
    assert s[..|a|] == a;
    assert s[|a| + 1..] == b;
  }

  // ---------------------------------------------------------------------------
  // trim
  // ---------------------------------------------------------------------------

  /** Length of the run of white space at the start of `s`. */
  function LeadingSpace(s: string): (n: nat)
    ensures n <= |s| && AllSpace(s[..n])
    ensures n < |s| ==> !IsSpace(s[n])
  {
    if s != [] && IsSpace(s[0]) then
      var n := 1 + LeadingSpace(s[1..]);
      assert s[..n] == [s[0]] + s[1..][..n - 1];
      n
    else 0
  }

  /** Length of the run of white space at the end of `s`. */
  function TrailingSpace(s: string): (n: nat)
    ensures n <= |s| && AllSpace(s[|s| - n..])
    ensures n < |s| ==> !IsSpace(s[|s| - n - 1])
  {
    if s != [] && IsSpace(s[|s| - 1]) then
      var n := 1 + TrailingSpace(s[..|s| - 1]);
      assert s[|s| - n..] == s[..|s| - 1][|s| - n..] + [s[|s| - 1]];
      n
    else 0
  }

  /** Drops the leading white space: the rest of the text, starting with a non-space. */
  function TrimStart(s: string): (r: string)
    ensures |r| <= |s| && r == s[|s| - |r|..]
    ensures AllSpace(s[..|s| - |r|])
    ensures r == [] || !IsSpace(r[0])
  {
    s[LeadingSpace(s)..]
  }

  /** Drops the trailing white space: the start of the text, ending with a non-space. */
  function TrimEnd(s: string): (r: string)
    ensures |r| <= |s| && r == s[..|r|]
    ensures AllSpace(s[|r|..])
    ensures r == [] || !IsSpace(r[|r| - 1])
  {
    s[..|s| - TrailingSpace(s)]
  }

  /** `s.trim()`. */
  function Trim(s: string): (r: string)
    ensures r == [] || (!IsSpace(r[0]) && !IsSpace(r[|r| - 1]))
  {
    TrimEnd(TrimStart(s))
  }

  /** Text that does not start with white space is its own `TrimStart`. */
  lemma {:induction false} TrimStartNone(s: string)
    requires s == [] || !IsSpace(s[0])
    ensures TrimStart(s) == s
  {
    assert LeadingSpace(s) == 0;
  }

  lemma {:induction false} DigitNotSpace(c: char)
    requires IsDigit(c)
    ensures !IsSpace(c)
  {
  }

  lemma {:induction false} TrimStartSpaces(w: string, t: string)
    requires AllSpace(w)
    requires t == [] || !IsSpace(t[0])
    ensures TrimStart(w + t) == t
  {
    var s := w + t;
    assert s[..|w|] == w;
    assert |w| < |s| ==> s[|w|] == t[0];
    assert LeadingSpace(s) == |w|;
    assert s[|w|..] == t;
  }

  lemma {:induction false} TrimEndSpaces(t: string, w: string)
    requires AllSpace(w)
    requires t == [] || !IsSpace(t[|t| - 1])
    ensures TrimEnd(t + w) == t
  {
    var s := t + w;
    assert s[|t|..] == w;
    assert |w| < |s| ==> s[|s| - |w| - 1] == t[|t| - 1];
    assert TrailingSpace(s) == |w|;
    assert s[..|t|] == t;
  }

  /** Trimming a word padded with white space on both sides gives back the word. */
  lemma {:induction false} TrimPadded(w1: string, t: string, w2: string)
    requires AllSpace(w1) && AllSpace(w2)
    requires t != [] && !IsSpace(t[0]) && !IsSpace(t[|t| - 1])
    ensures Trim(w1 + t + w2) == t
  {
    assert w1 + t + w2 == w1 + (t + w2);
    TrimStartSpaces(w1, t + w2);
    TrimEndSpaces(t, w2);
  }

  // ---------------------------------------------------------------------------
  // Digits
  // ---------------------------------------------------------------------------

  function DigitValue(c: char): (v: nat)
    requires IsDigit(c)
    ensures v < 10
  {
    (c as int) - ('0' as int)
  }

  function HexDigitValue(c: char): (v: nat)
    requires IsHexDigit(c)
    ensures v < 16
  {
    if IsDigit(c) then DigitValue(c)
    else if 'a' <= c <= 'f' then (c as int) - ('a' as int) + 10
    else (c as int) - ('A' as int) + 10
  }

  function DigitChar(d: nat): (c: char)
    requires d < 10
    ensures IsDigit(c) && DigitValue(c) == d
  {
    ((d + '0' as int) as char)
  }

  /** The value of a run of decimal digits, most significant first. */
  function DigitsValue(ds: string): nat
    requires AllDigits(ds)
  {
    if ds == [] then 0 else 10 * DigitsValue(ds[..|ds| - 1]) + DigitValue(ds[|ds| - 1])
  }

  /** The value of a run of hexadecimal digits, most significant first. */
  function HexDigitsValue(ds: string): nat
    requires AllHexDigits(ds)
  {
    if ds == [] then 0 else 16 * HexDigitsValue(ds[..|ds| - 1]) + HexDigitValue(ds[|ds| - 1])
  }

  /** The shortest decimal rendering of `n`, the inverse of `DigitsValue`. */
  function NatToDigits(n: nat): (ds: string)
    ensures ds != [] && AllDigits(ds)
    ensures DigitsValue(ds) == n
    ensures |ds| > 1 ==> ds[0] != '0'
  {
    if n < 10 then [DigitChar(n)]
    else
      var ds := NatToDigits(n / 10) + [DigitChar(n % 10)];
      assert ds[..|ds| - 1] == NatToDigits(n / 10);
      ds
  }

  /** Exactly `k` decimal digits holding `n` modulo 10^k (the fraction part of a rendering). */
  function FixedDigits(n: nat, k: nat): (ds: string)
    ensures |ds| == k && AllDigits(ds)
    ensures DigitsValue(ds) == n % Pow10(k)
  {
    if k == 0 then []
    else
      var ds := FixedDigits(n / 10, k - 1) + [DigitChar(n % 10)];
      assert ds[..|ds| - 1] == FixedDigits(n / 10, k - 1);
      ModPow10Step(n, k);
      ds
  }

  lemma {:induction false} ModPow10Step(n: nat, k: nat)
    requires k >= 1
    ensures n % Pow10(k) == 10 * ((n / 10) % Pow10(k - 1)) + n % 10
  {
    var p := Pow10(k - 1);
    var q, r := n / 10, n % 10;
    var a, b := q / p, q % p;
    assert n == 10 * q + r;
    assert q == p * a + b;
    assert n == (10 * p) * a + (10 * b + r);
    assert 0 <= 10 * b + r < 10 * p;
    DivModUnique(n, 10 * p, a, 10 * b + r);
  }

  lemma {:induction false} DivModUnique(n: int, d: int, q: int, r: int)
    requires d > 0 && 0 <= r < d && n == d * q + r
    ensures n % d == r && n / d == q
  {
    var q', r' := n / d, n % d;
    assert n == d * q' + r';
    assert d * (q - q') == r' - r;
    if q - q' >= 1 {
      MulAtLeast(d, q - q');
    } else if q' - q >= 1 {
      assert d * (q' - q) == r - r';
      MulAtLeast(d, q' - q);
    }
  }

  lemma {:induction false} MulAtLeast(d: nat, x: int)
    requires x >= 1
    ensures d * x >= d
    decreases x
  {
    if x > 1 {
      MulAtLeast(d, x - 1);
      assert d * x == d * (x - 1) + d;
    }
  }

  lemma {:induction false} DigitsValueAppend(a: string, b: string)
    requires AllDigits(a) && AllDigits(b)
    ensures AllDigits(a + b)
    ensures DigitsValue(a + b) == DigitsValue(a) * Pow10(|b|) + DigitsValue(b)
  {
    if b != [] {
      var b' := b[..|b| - 1];
      var ab := a + b;
      assert ab[..|ab| - 1] == a + b';
      assert ab[|ab| - 1] == b[|b| - 1];
      DigitsValueAppend(a, b');
      var x, p, y, l := DigitsValue(a), Pow10(|b'|), DigitsValue(b'), DigitValue(b[|b| - 1]);
      assert DigitsValue(ab) == 10 * DigitsValue(a + b') + l;
      Regroup(x, p, y, l);
      assert DigitsValue(b) == 10 * y + l;
    } else {
      assert a + b == a;
    }
  }

  lemma {:induction false} Regroup(x: int, p: int, y: int, l: int)
    ensures 10 * (x * p + y) + l == x * (10 * p) + (10 * y + l)
  {
  }

  /** A run of `k` digits is worth less than 10^k. */
  lemma {:induction false} DigitsValueBound(ds: string)
    requires AllDigits(ds)
    ensures DigitsValue(ds) < Pow10(|ds|)
  {
    if ds != [] {
      DigitsValueBound(ds[..|ds| - 1]);
    }
  }

  /** Length of the run of decimal digits at the start of `s`. */
  function DecimalPrefix(s: string): (n: nat)
    ensures n <= |s| && AllDigits(s[..n])
    ensures n < |s| ==> !IsDigit(s[n])
  {
    if s != [] && IsDigit(s[0]) then
      var n := 1 + DecimalPrefix(s[1..]);
      assert s[..n] == [s[0]] + s[1..][..n - 1];
      n
    else 0
  }

  /** Length of the run of hexadecimal digits at the start of `s`. */
  function HexPrefix(s: string): (n: nat)
    ensures n <= |s| && AllHexDigits(s[..n])
    ensures n < |s| ==> !IsHexDigit(s[n])
  {
    if s != [] && IsHexDigit(s[0]) then
      var n := 1 + HexPrefix(s[1..]);
      assert s[..n] == [s[0]] + s[1..][..n - 1];
      n
    else 0
  }

  lemma {:induction false} DecimalPrefixOf(ds: string, t: string)
    requires AllDigits(ds)
    requires t == [] || !IsDigit(t[0])
    ensures DecimalPrefix(ds + t) == |ds|
  {
    var s := ds + t;
    assert s[..|ds|] == ds;
    assert |ds| < |s| ==> s[|ds|] == t[0];
  }

  // ---------------------------------------------------------------------------
  // parseInt
  // ---------------------------------------------------------------------------

  /** The text after an optional leading '+' or '-'. */
  function Unsigned(t: string): string
  {
    if t != [] && (t[0] == '-' || t[0] == '+') then t[1..] else t
  }

  /**
   * `parseInt(s)` with no radix: skip white space, read an optional sign, then
   * the digits of an unsigned integer; `None` stands for `NaN`.
   */
  function ParseInt(s: string): (r: Option<int>)
  {
    var t := TrimStart(s);
    match UnsignedInt(Unsigned(t))
    case None => None
    case Some(m) => Some(if t != [] && t[0] == '-' then -(m as int) else m)
  }

  /** Hexadecimal digits after "0x" or "0X", decimal digits otherwise; `None` when there are none. */
  function UnsignedInt(u: string): (r: Option<nat>)
  {
    if |u| >= 2 && u[0] == '0' && (u[1] == 'x' || u[1] == 'X') then
      var h := u[2..][..HexPrefix(u[2..])];
      if h == [] then None else Some(HexDigitsValue(h))
    else
      var d := u[..DecimalPrefix(u)];
      if d == [] then None else Some(DigitsValue(d))
  }

  /** A run of decimal digits followed by a non-digit is read as that run's value. */
  lemma {:induction false} ParseIntDigits(ds: string, t: string)
    requires ds != [] && AllDigits(ds)
    requires t == [] || !IsDigit(t[0])
    requires |ds| == 1 && ds[0] == '0' ==> t == [] || (t[0] != 'x' && t[0] != 'X')
    ensures ParseInt(ds + t) == Some(DigitsValue(ds))
  {
    var s := ds + t;
    assert s[0] == ds[0];
    DigitNotSpace(s[0]);
    TrimStartNone(s);
    UnsignedDigits(ds, t);
  }

  lemma {:induction false} UnsignedDigits(ds: string, t: string)
    requires ds != [] && AllDigits(ds)
    requires t == [] || !IsDigit(t[0])
    requires |ds| == 1 && ds[0] == '0' ==> t == [] || (t[0] != 'x' && t[0] != 'X')
    ensures UnsignedInt(ds + t) == Some(DigitsValue(ds))
  {
    var s := ds + t;
    assert |s| >= 2 ==> s[1] == if |ds| >= 2 then ds[1] else t[0];
    DecimalPrefixOf(ds, t);
    assert s[..|ds|] == ds;
  }

  /** Text that starts with a character that is no space, sign or digit has no integer. */
  lemma {:induction false} ParseIntNone(s: string)
    requires s != [] && !IsSpace(s[0]) && !IsDigit(s[0]) && s[0] != '+' && s[0] != '-'
    ensures ParseInt(s) == None
  {
    assert TrimStart(s) == s;
  }
}
