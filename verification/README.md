# to-sass-value in Dafny

A model of `toSassValue`, the converter from a JavaScript value to a node-sass
value, with proofs about what it does:

- `null` and `undefined` become Sass null.
- A number becomes a Sass number with no unit.
- A boolean becomes a Sass boolean.
- An array becomes a Sass list, built slot by slot.
- Any other object becomes a Sass map, one entry per own key.
- A string is classified in order:
  1. It becomes a colour when it matches one of the three colour patterns: `rgb(r, g, b)`, `rgba(r, g, b, a)` or `#` followed by six hexadecimal digits.
  2. Otherwise it becomes a number with a unit when `parseFloat` finds a number at its start.
  3. Otherwise it becomes a Sass string holding the same text.

The modules follow the source:

| file | module | what it holds |
|---|---|---|
| `js_string.dfy` | `JsString` | the string built-ins the converter calls: `indexOf`, `lastIndexOf`, `slice`, `split`, `trim`, and `parseInt` without a radix |
| `js_number.dfy` | `JsNumber` | finite numbers as exact decimals (mantissa and scale); `parseFloat` of a string, and `'' + n`, the canonical rendering of a number |
| `bits.dfy` | `JsBits` | `ToUint32` and the bitwise OR on natural numbers, with the lemma that ORing `0xFF000000` sets the alpha byte |
| `values.dfy` | `Values` | the JavaScript input as a finite tree, and the Sass values as the arguments their node-sass constructors receive |
| `color_format.dfy` | `ColorFormat` | the three colour patterns, as token lists for a small anchored matcher with the regular-expression semantics of `^…$`, `\s*`, `{lo,hi}` and the `i` flag |
| `to_sass_value.dfy` | `Converter` | `parseColor`, `parseNumber`, `parseString`, `parseValue`, `parseList`, `parseMap` and `toSassValue` |
| `examples.dfy` | `Examples` | the concrete conversions the repository's tests check, proved on the model |
| `as_written.dfy` | `AsWritten` | `parseColor`'s loop exactly as written, without the pattern test; see Findings |

`parseColor` and `parseNumber` follow their documentation comments:

- `parseColor` returns a colour only when a pattern matches.
- `parseNumber` returns nothing when `parseFloat` finds no number.

The code of `parseColor` does something else; see Findings.

The hexadecimal case calls `parseInt` without a radix. The model keeps this, so "#708090" is read as the decimal number 708090, and "#c0ffee" as no number, i.e. 0, giving opaque black.

## Model

| member | source | states |
|---|---|---|
| Converter.ParseColor | src/to-sass-value.js:40-62 | the loop over the patterns, each tested before its colour is built, returns `ColorOf(s)`: the colour of the pattern that matches, or none |
| Converter.LastMatchIsColor | src/to-sass-value.js:44-59 | since no two patterns match the same text, the colour the loop keeps last is the one `ColorOf` names |
| Converter.ColorMatched | src/to-sass-value.js:35-40 | `parseColor` gives a colour if and only if one of the three patterns matches the text |
| ColorFormat.AtMostOnePattern | src/to-sass-value.js:14-33 | no text matches two of the three colour patterns |
| ColorFormat.HexShape | src/to-sass-value.js:23 | the hexadecimal pattern matches exactly '#' followed by six hexadecimal digits |
| ColorFormat.CallShape | src/to-sass-value.js:17-20 | a match of `rgb` or `rgba` spells the name in any case, has white space and then its first '(', ends with ')', and splits between them at the commas into exactly 3 or 4 fields of white space, one to three digits and white space |
| ColorFormat.CallText | src/to-sass-value.js:17-20 | conversely, the name in any case, white space, '(' and 3 or 4 such fields joined by commas, then ')', match the pattern |
| ColorFormat.RgbStart | src/to-sass-value.js:17 | text matching `rgb` starts with a letter and has '(' or white space after the name, so it cannot match `rgba` |
| ColorFormat.ColorFormatPatterns | src/to-sass-value.js:14-33 | the three patterns in the order the converter tries them: `rgb`, `rgba`, hexadecimal |
| Converter.CallColor | src/to-sass-value.js:46-52 | text matching `rgb` or `rgba` gets the colour built from its channel values |
| Converter.CallChannels | src/to-sass-value.js:48-50 | for a match with n fields, the values cut between the first '(' and the last ')', split at commas, trimmed and read by `parseInt`, are exactly n numbers, each from 0 to 999 |
| Converter.RgbChannels | src/to-sass-value.js:48-52 | an `rgb` match is a colour with three channels from 0 to 999 and alpha 1 |
| Converter.RgbaChannels | src/to-sass-value.js:48-52 | an `rgba` match is a colour with the first three values as channels and the fourth as alpha, with 1 in place of a fourth value of 0 |
| Converter.Alpha | src/to-sass-value.js:52 | the alpha is the fourth value when that is present and non-zero, and 1 when it is missing, NaN or 0; so it is never 0 |
| Converter.RgbRoundTrip | src/to-sass-value.js:17-52 | writing `rgb(` in any case, any spacing and three fields of one to three digits, and reading it back, gives those three numbers and alpha 1 |
| Converter.RgbaRoundTrip | src/to-sass-value.js:20-52 | the same for `rgba` with four fields, where the alpha is the fourth number unless it is 0 |
| Converter.FieldsRoundTrip | src/to-sass-value.js:48-50 | fields joined by commas, split again, trimmed and read by `parseInt`, give back each field's number in order |
| Converter.HexOpaque | src/to-sass-value.js:54 | whatever text the hexadecimal case reads, its packed colour has alpha byte 0xFF and fits in 32 bits |
| Converter.HexReading | src/to-sass-value.js:54 | a hexadecimal match is the packed colour 0xFF000000 plus the number formed by the leading decimal digits of its six digits |
| Converter.HexDigitsParse | src/to-sass-value.js:54 | `parseInt` without a radix reads six hexadecimal digits as their leading run of decimal digits, or NaN (taken as 0) when there is none, always below 10^6 |
| Converter.NotColor | src/to-sass-value.js:17-23 | text that does not start with 'r', 'R' or '#' is no colour |
| Converter.ColorNotNumber | src/to-sass-value.js:89 | text that matches a colour pattern never has a numeric prefix, so `parseNumber` is never needed for it |
| Converter.NumberDefined | src/to-sass-value.js:64-81 | `parseNumber` gives a number if and only if the text has a numeric prefix, and the unit it keeps is a suffix of the text |
| Converter.NumberRoundTrip | src/to-sass-value.js:69-76 | a number written in canonical form, followed by a unit that does not continue the literal, is read back as that number and that unit |
| Converter.StringClassification | src/to-sass-value.js:88-96 | a string becomes a colour if and only if a pattern matches; a number if and only if none matches and it has a numeric prefix; otherwise a Sass string holding exactly the input |
| Converter.KindPreserved | src/to-sass-value.js:136-157 | only `null`/`undefined` become Sass null; only booleans become booleans, with the same truth; only arrays become lists; only other objects become maps; a number keeps its value with no unit |
| Converter.ListSlots | src/to-sass-value.js:120-128 | reading slot i of a converted array gives the conversion of element i, and reading outside the list fails |
| Converter.ToSassValue | src/to-sass-value.js:164-166 | the exported converter computes `ParseValue` of its input |
| Converter.ParseList | src/to-sass-value.js:120-128 | a list of the array's length whose slot i holds the conversion of element i, proved by the invariant that slots 0 to i-1 are filled |
| Converter.ParseMap | src/to-sass-value.js:103-113 | a map with one entry per key in key order: key i is a Sass string of the key, value i the conversion of the value under it |
| Values.GetValue | test/default.js:182-194 | `getValue(i)` on a list succeeds if and only if i is within the list, and then gives item i; outside the list it fails, where node-sass raises a `RangeError` |
| JsBits.OrTopByte | src/to-sass-value.js:54 | ORing `0xFF000000` into a 32-bit word sets the top byte to 0xFF and keeps the low 24 bits |
| JsString.IndexOf | src/to-sass-value.js:48 | `indexOf` gives the first position of the character, or -1 if and only if it does not occur |
| JsString.LastIndexOf | src/to-sass-value.js:48 | `lastIndexOf` gives the last position of the character, or -1 if and only if it does not occur |
| JsString.Split | src/to-sass-value.js:48 | `split` on one character gives at least one piece, and no piece holds the separator |
| JsString.JoinSplit | src/to-sass-value.js:48 | joining the pieces of a split with the separator gives back the text |
| JsString.SplitJoin | src/to-sass-value.js:48 | splitting pieces that hold no separator, once joined, gives back the pieces |
| JsString.Trim | src/to-sass-value.js:49 | `trim` leaves no white space at either end |
| JsString.TrimPadded | src/to-sass-value.js:49 | `trim` removes exactly the white space padding around text |
| JsString.ParseIntDigits | src/to-sass-value.js:49 | `parseInt` of decimal digits followed by a non-digit is the value of the digits |
| JsString.ParseIntNone | src/to-sass-value.js:54 | `parseInt` of text that starts with neither white space, a sign nor a digit is NaN |
| JsNumber.ParseFloatDefined | src/to-sass-value.js:72 | `parseFloat` gives a number if and only if the text, after white space, has a numeric prefix |
| JsNumber.ParseRendered | src/to-sass-value.js:72-74 | `parseFloat` of a number's rendering `'' + n`, followed by a unit that ends the literal, is that number |
| Examples.NullAndItsName | spec/default.spec.js:17-24 | `null` and `undefined` become Sass null, and the strings "null" and "undefined" become Sass strings |
| Examples.Words | test/default.js:73-83 | "string" and "my_name_is_mud" stay Sass strings holding the same text |
| Examples.Two | test/default.js:199-211 | "two", an item of a nested array, stays a Sass string |
| Examples.PlainText | src/to-sass-value.js:88-96 | text that starts with a character that can begin neither a colour nor a number stays a Sass string of the same text |
| Examples.NumberText | test/default.js:128-144 | a canonical number followed by a unit becomes that number with that unit |
| Examples.Ems | test/default.js:129 | "69em" becomes 69 with the unit "em" |
| Examples.Centimetres | test/default.js:200 | "10.2cm" becomes 10.2 with the unit "cm" |
| Examples.Unitless | test/default.js:201 | "14" becomes 14 with no unit |
| Examples.Lists | test/default.js:197-215 | `[]` becomes the empty list, and nested arrays become nested lists in the same order |
| Examples.DigitsRgb | src/to-sass-value.js:17-52 | `rgb` with three runs of one to three digits, spaced by white space after the commas, is the colour of the digits' values with alpha 1 |
| Examples.PlainRgb | spec/default.spec.js:242-253 | "rgb(96, 33, 122)" is the colour with channels 96, 33, 122 and alpha 1 |
| Examples.SpacedRgb | spec/default.spec.js:243-259 | "RGB    (1, 2, 3)" is the colour with channels 1, 2, 3 and alpha 1 |
| Examples.LongFieldNoColor | src/to-sass-value.js:17-23 | a three-letter name and '(' followed by a first channel that is no field of one to three digits is no colour |
| Examples.WideRgb | spec/default.spec.js:244-261 | "RGB(9001, 131072, 128)" is no colour and stays a Sass string |
| Examples.HexValue | src/to-sass-value.js:54 | '#' and six hexadecimal digits convert to the packed colour 0xFF000000 plus the decimal reading of the digits |
| Examples.SlateGray | spec/default.spec.js:220-238 | "#708090" is the packed colour 0xFF0ACDFA, so its channels are 0x0A, 0xCD and 0xFA, not 70, 80 and 90 |
| Examples.LetterHexBlack | src/to-sass-value.js:54 | six hexadecimal digits that start with a letter, as in "#c0ffee", give opaque black 0xFF000000 |
| Examples.NotHex | spec/default.spec.js:219-232 | "#ecchi" is no colour and stays a Sass string |
| AsWritten.UnguardedParseColor | src/to-sass-value.js:40-62 | the loop as written, with no pattern test, returns the hexadecimal case's colour for every text on which the constructors of cases 0 and 1 return normally |
| AsWritten.UnreadableBlack | src/to-sass-value.js:54 | as written, text with no '#' that `parseInt` cannot read gives opaque black |
| AsWritten.LeadingNumberColor | src/to-sass-value.js:54 | as written, text with no '#' that starts with a decimal number below 2^24 gives an opaque colour whose low 24 bits are that number |
| AsWritten.UnguardedPlainRgb | spec/default.spec.js:242-253 | as written, "rgb(96, 33, 122)" gives opaque black 0xFF000000, where the documented reading gives the channels 96, 33 and 122 with alpha 1 |
| AsWritten.UnguardedRgb | src/to-sass-value.js:44-59 | as written, every text matching `rgb` gives opaque black, where the documented reading gives its channels |
| AsWritten.UnguardedEms | src/to-sass-value.js:44-59 | as written, case 2 builds the colour 0xFF000045 for "69em", which the loop returns if case 0 accepts `undefined` channels; the documented reading gives 69 with the unit "em" |

## Left out

- The node-sass types are not modelled as code. A Sass value is the argument list its constructor receives. The `RangeError` of an out-of-range `getValue` is the `None` of `Values.GetValue`.
- AsWritten.UnguardedParseColor: the model takes the constructor calls of cases 0 and 1 to return normally. For text with fewer than three values, such as "69em", they receive `undefined` channels; if node-sass rejects those, the source throws there instead. AsWritten.UnguardedPlainRgb is the input that needs no such assumption.
- Values.SassColorArgb: the packed word is read as an unsigned 32-bit number. How node-sass splits it into channels, and how it treats the `NaN` or `undefined` channels of `SassColor`, is not part of this model.
- Converter.ParseList, Converter.ParseMap: the initial contents of a preallocated list or map are left out. The arrays start with Sass null, and every slot is overwritten before it is read. This holds because the modelled arrays have no holes; `forEach` skips the holes of a sparse array, whose slots the source leaves unfilled.
- Converter.ParseList: the comma-separator flag that `parseList` passes to the list constructor is not part of the Sass list value.
- Converter.ParseNumber: as written, `parseNumber` returns null only when the node-sass `Number` constructor throws, and that constructor is not part of this model. The model follows the documentation comment instead: it returns nothing when `parseFloat` gives `NaN`, so such text falls through to a Sass string.
- IEEE-754 doubles are not modelled. Numbers are exact decimals with no exponent form, `Infinity` or `NaN`. Precision loss and exponent notation in `'' + n` are not modelled.
- JsNumber.ParseFloat: on text the model does not cover, it differs from the source:
  - "1e3px": the model reads 1 with the unit "e3px"; the source reads 1000, whose rendering "1000" is four characters long, so its unit is "x".
  - "Infinity": the model finds no number and keeps a Sass string; the source makes the number `Infinity` with an empty unit.
- JsNumber.ParseRendered, Converter.NumberRoundTrip: these hold only for a number written in canonical form. For a non-canonical prefix, such as "007px" or "1.50em", the length-based cut of the unit misaligns, and no lemma states what happens.
- Test expectations that the code does not implement are not modelled:
  - boolean words such as 'true' or 'yes';
  - the configurable factory API;
  - colour objects and custom channel names;
  - a fractional `rgba` alpha such as "0.618033989" (the pattern admits only one to three digits);
  - `hsl()` and similar notations;
  - the `arguments` object as a list (the code sends it to `parseMap`);
  - `Date` values;
  - hexadecimal digits decoded in base 16 ("#c0ffee" as 0xc0, 0xff, 0xee).
- The input is a finite tree. Cyclic object graphs, functions and other host objects are not modelled. `Object.keys` is the given order of an object's properties.
- Strings are `seq<char>`, one element per Unicode scalar value, while ECMAScript strings are sequences of UTF-16 code units. The two agree within the Basic Multilingual Plane. A character outside it counts once in the model but twice in `length`, `slice` and `indexOf`, and lone surrogates cannot be represented. White space is the set `\s`, `trim` and `parseInt` skip.
- `gulpfile.js`, the build and test runner, is not part of this model.

## Findings

| source | as written | input that shows it | evidently intended | confidence | as-written member | corrected member |
|---|---|---|---|---|---|---|
| src/to-sass-value.js:43-61 | the `forEach` over the patterns never tests `pattern` against the text, so every case runs and case 2, the hexadecimal reading, overwrites the result | "rgb(96, 33, 122)" gives opaque black 0xFF000000 instead of the channels 96, 33 and 122; the colour constructors of cases 0 and 1 receive only numbers there. "69em" would give the colour 0xFF000045 instead of 69 with unit "em", provided node-sass accepts the `undefined` channels case 0 passes for it | the colour of the pattern that matches, and null when none matches, as the documentation comment at lines 35-39 states | not executed | AsWritten.UnguardedParseColor, AsWritten.UnguardedPlainRgb, AsWritten.UnguardedRgb, AsWritten.UnguardedEms | Converter.ParseColor, Converter.ColorMatched, Converter.StringClassification |
