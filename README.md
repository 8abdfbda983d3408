# oklch colour override for the CV PDF export

The CV page of this site exports itself to PDF with a renderer that does not
understand the `oklch()` colour notation of CSS Color Module Level 4. Before
the export, `replaceOklchColors` walks the CV's element tree and, for every
property whose resolved (computed) value mentions `oklch`, writes an inline
override in which every `oklch(...)` token is rewritten as `rgb(...)` or
`rgba(...)`. For each override it remembers the inline value it replaced, and
it returns a restore function that undoes the overrides from the last to the
first. `generatePDF` runs the export between the two and restores whether the
export succeeds or throws.

The model has two halves.

* The **string converter** (`OklchConvert`, with `JsText` for the
  `String.prototype` operations and `JsNumber` for `parseFloat`, `Math.round`,
  NaN and number printing) is pure. It covers:
  * the global regular expression `oklch\(([^)]+)\)`, as a left-to-right scan
    into plain characters and matches;
  * `replaceOklchValues`, `oklchToRgb` and `parsePercentageOrNumber`;
  * `parseHue`, with its suffix tests in source order;
  * `parseAlpha`, `clamp`, `linearToSrgb`, the Oklab matrix and `formatColor`.

  Numbers are NaN or an exact real. `Math.cos`, `Math.sin` and `Math.pow` are
  a parameter (`MathLib`), so every property holds whatever they compute.
* The **override/restore engine** is imperative, as in the source.
  * `DomStyle.Element` is a class. Its `style` (the inline declarations, a map
    in which an absent key means "not declared") is the only thing that
    changes. Whether it is an `HTMLElement`, its computed style and its
    children are fixed.
  * `StyleOverride.Restorer` holds the `applied` log as a sequence of undo
    records.
  * `ProcessNode`, `OverrideProperties` and `Restore` are methods with
    `modifies` clauses. Their loops mirror the source's loops and recursion.
  * Each method is proved against `OverridePlan`, a value-level specification:
    * `Plan`: the writes in visiting order;
    * `Commit`: the styles after them;
    * `Log`: the records, each holding the value its write replaced;
    * `Rollback`: the records run from last to first.

  The main theorem is `OverridePlan.RollbackCommit`: rolling back the log of
  any sequence of writes over the styles those writes produced gives the
  original styles back. `GeneratePdf` combines it with the methods' contracts.

The engine methods take the conversion as a parameter `convert`.
`ReplaceOklchColors` passes `replaceOklchValues` to it (`Converter(lib)`).

Two details of the code are followed as written:

* Every string that ends in `grad` also ends in `rad`. The `rad` test of
  `parseHue` therefore runs first, and the `grad` branch is never taken: `100grad`
  is read as 100 radians (`GradiansReadAsRadians`).
* A non-`HTMLElement` (an `<svg>`, say) is skipped together with its whole
  subtree (`SkipsNonHtml`).

## Model

| member | source | states |
|---|---|---|
| `OklchConvert.Tokens` | src/app/cv/page.tsx:5 | the global scan of the `oklch(...)` pattern cuts the text into plain characters and matches whose concatenation is the text; every match is `oklch(`, a non-empty body without `)`, and `)`; at every piece, the match starting there is that piece when it is a match, and no match starts there when it is a plain character |
| `OklchConvert.MatchLength` | src/app/cv/page.tsx:5 | a length it returns is that of a genuine match of the pattern lying inside the text |
| `OklchConvert.MatchLengthExact` | src/app/cv/page.tsx:5 | the match length is exact: a prefix is a match exactly when its length is the one returned, so 0 means that no match starts there |
| `OklchConvert.FirstPiece` | src/app/cv/page.tsx:5 | the scan takes the match starting at the front when there is one, and the first character otherwise |
| `OklchConvert.AllPlainIffNoMatch` | src/app/cv/page.tsx:5 | the scan finds no match exactly when no stretch of the text is a match of the pattern |
| `OklchConvert.ReplaceOklchValues` | src/app/cv/page.tsx:99 | a value that is one whole match, as a resolved colour is, is replaced by that match's conversion |
| `OklchConvert.Render` | src/app/cv/page.tsx:99 | the substitution step of `replace`: when every piece is a plain character, the result is the pieces' own text, whatever the replacement |
| `OklchConvert.WholeMatch` | src/app/cv/page.tsx:99 | a text that is one whole match is scanned as that single match and rendered as its replacement |
| `OklchConvert.NoMatchRendersText` | src/app/cv/page.tsx:99 | a text in which no stretch matches is returned unchanged, whatever the replacement |
| `OklchConvert.RenderKeepsPlainText` | src/app/cv/page.tsx:99 | `replace` changes only the matches: where the replacement leaves each match as it is, the text is unchanged |
| `OklchConvert.ReplaceChangesOnlyMatches` | src/app/cv/page.tsx:99 | text outside the matches is preserved: replacing every match by itself gives the input back |
| `OklchConvert.NoMatchWithoutOklch` | src/app/cv/page.tsx:5 | a text without `oklch(` has no match, whatever the replacement |
| `OklchConvert.ReplaceWithoutOklch` | src/app/cv/page.tsx:99 | `replaceOklchValues` returns unchanged any value in which no stretch matches the pattern |
| `JsNumber.Clamp` | src/app/cv/page.tsx:7 | NaN stays NaN; a value below min becomes min, one above max becomes max, and one inside is returned as is, so the result always lies in [min, max] |
| `OklchConvert.ParsePercentageOrNumber` | src/app/cv/page.tsx:9-15 | with a trailing `%` the result is the parsed number divided by 100 (NaN exactly when the number is NaN); otherwise it is the parsed number |
| `OklchConvert.PercentageOrNumberReading` | src/app/cv/page.tsx:9-15 | with any white space around it, a field `n%` reads as n / 100 (`70%` is 0.7) and a field `n` reads as n |
| `OklchConvert.ParseHue` | src/app/cv/page.tsx:17-32 | the hue is NaN exactly when the trimmed text's number is NaN; otherwise it has that number's sign and is zero exactly when it is zero, whatever the unit |
| `OklchConvert.HueOfTrimmed` | src/app/cv/page.tsx:19-31 | the same on text that is already trimmed |
| `OklchConvert.ParseHueAgreesWithCss` | src/app/cv/page.tsx:17-32 | for every hue not written in gradians, `parseHue` scales the parsed number by the radians per unit of CSS Values and Units Level 4, section 7.1, with a bare number read as degrees |
| `OklchConvert.HueAgreesWithCss` | src/app/cv/page.tsx:19-31 | the same suffix dispatch on text that is already trimmed |
| `OklchConvert.GradEndsInRad` | src/app/cv/page.tsx:22-29 | every string ending in `grad` ends in `rad` and not in `deg` |
| `OklchConvert.ParseHueReadsGradAsRadians` | src/app/cv/page.tsx:22-30 | a hue in gradians takes the `rad` branch and is returned as the bare parsed number, although CSS calls its unit gradians |
| `OklchConvert.GradiansReadAsRadians` | src/app/cv/page.tsx:22-30 | `n grad` is read as n radians, where CSS reads n times pi/200 |
| `OklchConvert.ParseAlpha` | src/app/cv/page.tsx:34-44 | the alpha is NaN only for a `%` value whose number does not parse; otherwise it lies in [0, 1] |
| `OklchConvert.ParseAlphaCases` | src/app/cv/page.tsx:34-44 | a missing or empty alpha gives 1, `none` gives 0, an unparsable bare number gives 1, and a parsable bare number is clamped into [0, 1] |
| `OklchConvert.ParseAlphaPercent` | src/app/cv/page.tsx:38-40 | a percentage alpha is the number divided by 100, clamped into [0, 1] |
| `OklchConvert.PercentAlpha` | src/app/cv/page.tsx:36-40 | an alpha part ` n%` with n at most 100 is read as n/100 |
| `OklchConvert.LinearToSrgb` | src/app/cv/page.tsx:46-52 | NaN exactly for NaN; a channel at or below 0 gives 0; a channel in [0, 0.0031308] is scaled by 12.92 |
| `OklchConvert.OklabToLinearSrgb` | src/app/cv/page.tsx:73-86 | the three linear channels are NaN together, exactly when lightness, chroma or hue is NaN; with chroma 0 each channel is the cube of the lightness, because each row of the LMS-to-linear-sRGB matrix sums to 1 |
| `OklchConvert.RowsSumToOne` | src/app/cv/page.tsx:84-86 | each row of the LMS-to-linear-sRGB matrix sums to 1 |
| `OklchConvert.OklabGrey` | src/app/cv/page.tsx:73-82 | with chroma 0 the three cone responses are all the cube of the lightness |
| `OklchConvert.Encoded` | src/app/cv/page.tsx:73-90 | after `linearToSrgb` the three channels are still NaN together, exactly when an input is NaN, and with chroma 0 they are equal |
| `OklchConvert.ChannelFields` | src/app/cv/page.tsx:69-72 | the three fields hold no white space; a trimmed text without inner white space is the lightness alone, with chroma and hue defaulting to `0` |
| `OklchConvert.ChannelFieldsOfText` | src/app/cv/page.tsx:69 | `l c h` with any white-space runs between the fields is read back as the three fields |
| `OklchConvert.LoneField` | src/app/cv/page.tsx:69-72 | a lone field is the lightness, and the defaults read as chroma 0 and a finite hue |
| `OklchConvert.ChannelsOf` | src/app/cv/page.tsx:69-90 | the three channels are NaN together, exactly when the lightness, the chroma or the hue field does not parse; with chroma 0 the channels are equal |
| `OklchConvert.LightnessOnlyIsGrey` | src/app/cv/page.tsx:65-93 | `oklch(l)` converts to an opaque grey: equal channels, NaN exactly when `l` does not parse |
| `JsNumber.Round` | src/app/cv/page.tsx:55 | `Math.round` gives an integer within one half of its argument, halves rounded up; NaN stays NaN |
| `OklchConvert.To255` | src/app/cv/page.tsx:55 | a channel becomes the integer nearest to its value clamped into [0, 1] times 255 (halves up), which lies in [0, 255]; NaN stays NaN |
| `OklchConvert.AlphaText` | src/app/cv/page.tsx:62 | the printed alpha holds no `,` and no `)`, so it cannot break the `rgba(...)` text |
| `OklchConvert.HalfAlphaText` | src/app/cv/page.tsx:62 | the alpha one half is printed as `0.5` |
| `OklchConvert.FormatColor` | src/app/cv/page.tsx:54-63 | the text starts with `rgb(` and not `rgba(` exactly when alpha is at least 0.999, and with `rgba(` and not `rgb(` otherwise |
| `OklchConvert.ColorPrefix` | src/app/cv/page.tsx:54-63 | every formatted colour starts with `rgb(` or `rgba(`, and one with alpha 1 starts with `rgb(` |
| `OklchConvert.FormatOpaque` | src/app/cv/page.tsx:59-60 | at alpha 0.999 or more the text is `rgb(` and the three channels separated by `, `, then `)` |
| `OklchConvert.FormatTranslucent` | src/app/cv/page.tsx:62 | below alpha 0.999 the text is `rgba(` and the three channels and the alpha separated by `, `, then `)` |
| `OklchConvert.ChannelText` | src/app/cv/page.tsx:60-62 | a channel is printed as `NaN` exactly when it is NaN; a number is printed with a leading `-` exactly when its integer value is negative |
| `JsNumber.IntToString` | src/app/cv/page.tsx:60-62 | an integer is printed as a non-empty text that starts with `-` exactly when it is negative, and as digits alone otherwise |
| `OklchConvert.ChannelRoundTrip` | src/app/cv/page.tsx:55-60 | a finite channel is printed as the digits of a natural number that read back as that number |
| `OklchConvert.FormatColorRoundTrip` | src/app/cv/page.tsx:54-63 | reading the text back gives the three rounded channels and, exactly when alpha is below 0.999, the printed alpha |
| `OklchConvert.OklchToRgb` | src/app/cv/page.tsx:65-97 | every token converts to an `rgb(` or an `rgba(` text, and a token without `/` has no alpha part and converts to the opaque `rgb(` form; the `catch` is never reached |
| `OklchConvert.OklchToRgbWithoutAlpha` | src/app/cv/page.tsx:65-93 | a match without `/` converts its body's channels at alpha 1 |
| `OklchConvert.Inner` | src/app/cv/page.tsx:67 | the text between the first `(` and the last `)`, so that the token is the part up to `(`, it, and the part from `)` |
| `OklchConvert.InnerOfToken` | src/app/cv/page.tsx:67 | the text between the first `(` and the last `)` of a match is its body |
| `OklchConvert.OklchToRgbOfMatch` | src/app/cv/page.tsx:65-93 | a match `oklch(components/alpha)` converts its components and formats them with the alpha parsed from the part after `/` |
| `OklchConvert.TranslucentToken` | src/app/cv/page.tsx:65-93 | a match with an alpha ` n%` below 100% converts to the `rgba(...)` form ending in the alpha n/100 |
| `JsText.Trim` | src/app/cv/page.tsx:10 | `trim` gives the text between leading and trailing white space, starting and ending with a non-white-space character, and keeps a text that neither starts nor ends with white space |
| `JsText.TrimParts` | src/app/cv/page.tsx:10 | the trimmed text lies after the leading white space, followed only by white space |
| `JsText.ContainsIffOccurs` | src/app/cv/page.tsx:110 | `includes` is true exactly when the search string occurs at some position |
| `JsText.Contains` | src/app/cv/page.tsx:110 | `includes` is true for a search string at the front of the text, and never for one longer than the text |
| `JsText.EndsWith` | src/app/cv/page.tsx:11-38 | the `endsWith` tests of `parsePercentageOrNumber`, `parseHue` and `parseAlpha`: a text that ends with the suffix is at least as long and is its front part followed by the suffix |
| `JsText.EndsWithIffAppended` | src/app/cv/page.tsx:11-38 | `endsWith` is true exactly when the text is some prefix followed by the suffix |
| `JsText.TrimStart` | src/app/cv/page.tsx:10 | `trim` drops leading white space and nothing else |
| `JsText.TrimEnd` | src/app/cv/page.tsx:10 | `trim` drops trailing white space and nothing else |
| `JsText.TrimAround` | src/app/cv/page.tsx:10 | `trim` of a text with white-space runs around it and none at its own ends gives exactly that text |
| `JsText.TrimStartOver` | src/app/cv/page.tsx:10 | the start of `trim` drops a whole white-space run and stops at the first other character |
| `JsText.TrimEndOver` | src/app/cv/page.tsx:10 | the end of `trim` drops a whole white-space run and stops at the last other character |
| `JsText.IndexOf` | src/app/cv/page.tsx:67 | `indexOf` gives the first position of the character, or -1 exactly when it is absent |
| `JsText.LastIndexOf` | src/app/cv/page.tsx:67 | `lastIndexOf` gives the last position of the character, or -1 exactly when it is absent |
| `JsText.Slice` | src/app/cv/page.tsx:67 | `slice` takes the range between its arguments, counting a negative end from the end of the string |
| `JsText.Split` | src/app/cv/page.tsx:68 | `split('/')` gives at least one piece, no piece holds the separator, and joining the pieces gives the text back |
| `JsText.SplitWhiteSpace` | src/app/cv/page.tsx:69 | `split(/\s+/)` gives at least one piece, pieces hold no white space, and a text without white space is one piece |
| `JsText.SplitAfterField` | src/app/cv/page.tsx:69 | a field followed by a white-space run splits off as the first piece |
| `JsText.SplitThreeFields` | src/app/cv/page.tsx:69 | three fields joined by white-space runs split back into exactly those three |
| `JsNumber.ParseFloat` | src/app/cv/page.tsx:12 | after leading white space, an empty text or one not starting with a digit, sign or `.` gives NaN (including `Infinity`, see Left out); one starting with a digit gives a number; a negative number needs a leading `-` |
| `JsNumber.LiteralValue` | src/app/cv/page.tsx:12 | a literal's value is at most 0 with a `-` sign and at least 0 otherwise |
| `JsNumber.ParseFloatOfInteger` | src/app/cv/page.tsx:12 | `parseFloat` reads the digits of a natural number back as that number, whatever unit follows |
| `JsNumber.NatToStringRoundTrip` | src/app/cv/page.tsx:60 | the printed digits of a natural number read back as the number |
| `JsNumber.ParseFloatOfDecimal` | src/app/cv/page.tsx:12 | digits `d` (possibly none, leading zeros allowed), a `.` and digits `f`, followed by anything that starts with neither a digit nor an `e` or `E`, read as d + f / 10^(number of digits of f): `0.7` is 0.7 |
| `JsNumber.ParseFloatOfFraction` | src/app/cv/page.tsx:12 | a fraction without integer digits, `.f`, reads as f / 10^(number of digits of f): `.5` is 0.5 |
| `JsNumber.ParseFloatOfExponent` | src/app/cv/page.tsx:12 | digits worth i followed by `e`, `e+` or `e-` and digits worth x read as i times 10^x, or i divided by 10^x after `e-` |
| `JsNumber.ParseFloatOfDecimalExponent` | src/app/cv/page.tsx:12 | `d.f` with an exponent reads as the number `d.f`, which is finite, scaled by ten to the signed exponent |
| `JsNumber.ScaledMantissa` | src/app/cv/page.tsx:12 | scaling by ten to a signed exponent is multiplying by 10^x, or dividing by 10^x when the exponent is negative |
| `OklchConvert.DecimalPercentageOrNumberReading` | src/app/cv/page.tsx:9-15 | with any white space around it, a field `d.f%` reads as the number `d.f` divided by 100 and a field `d.f` as the number `d.f`, which is finite |
| `OklchConvert.LightnessSpellings` | src/app/cv/page.tsx:9-15 | the lightness spellings `0.7` and `70%` both read as 0.7 |
| `DomStyle.GetPropertyValue` | src/app/cv/page.tsx:112 | `getPropertyValue` gives the declared value, and "" exactly when the property is not declared |
| `DomStyle.SetProperty` | src/app/cv/page.tsx:114 | after `setProperty` the property reads as the value given (an empty value removes it) and no other property changes |
| `DomStyle.RemoveProperty` | src/app/cv/page.tsx:119 | after `removeProperty` the property is not declared and no other property changes |
| `DomStyle.Element.Computed` | src/app/cv/page.tsx:106-109 | the resolved value of a property the computed style lists, or "" |
| `DomStyle.Subtree` | src/app/cv/page.tsx:123 | the elements at or below an element, containing the element itself |
| `OverridePlan.Qualifies` | src/app/cv/page.tsx:110 | a resolved value that starts with `oklch` qualifies, and one that qualifies has at least the five characters of `oklch` |
| `OverridePlan.QualifiesIffOccurs` | src/app/cv/page.tsx:110 | a resolved value qualifies exactly when `oklch` occurs in it |
| `OverridePlan.PlanSound` | src/app/cv/page.tsx:104-124 | every write is to a visited element, for a property its computed style lists whose resolved value contains `oklch`, with that value converted |
| `OverridePlan.ChildrenPlanSound` | src/app/cv/page.tsx:123 | the same for the writes below the first k children |
| `OverridePlan.ReachedInSubtree` | src/app/cv/page.tsx:104-124 | the visited elements lie in the subtree of the root |
| `OverridePlan.ReachedBelowInForest` | src/app/cv/page.tsx:123 | the elements visited below the first k children lie in their subtrees |
| `OverridePlan.WritesAt` | src/app/cv/page.tsx:108-114 | one property yields at most one write |
| `OverridePlan.NodeWritesSound` | src/app/cv/page.tsx:107-114 | every write of one element's property loop is to that element, for a listed property whose resolved value contains `oklch`, with that value converted |
| `OverridePlan.NodeWritesExactly` | src/app/cv/page.tsx:107-114 | a write is made exactly for a listed property whose resolved value contains `oklch`, with the converted value, even when the conversion leaves it unchanged |
| `OverridePlan.NodeWritesAt` | src/app/cv/page.tsx:107-114 | the writes of the property loop are the writes of its rounds |
| `OverridePlan.OneWritePerProperty` | src/app/cv/page.tsx:107-115 | with distinct property names, each qualifying property is written exactly once and any other never |
| `OverridePlan.CountStep` | src/app/cv/page.tsx:107-115 | one round of the property loop raises a property's write count by one exactly when it is that property and it qualifies |
| `OverridePlan.CountLast` | src/app/cv/page.tsx:108-114 | the write count after one more round |
| `OverridePlan.PlanExactly` | src/app/cv/page.tsx:104-126 | a write is in the plan exactly when its element is visited and the write is one of that element's property writes |
| `OverridePlan.ChildrenPlanExactly` | src/app/cv/page.tsx:123 | the same for the writes below the first k children |
| `OverridePlan.NoColorsNoWrites` | src/app/cv/page.tsx:110 | a tree whose visited elements hold no `oklch` value gets no write and, by `Log`, no record |
| `OverridePlan.SkipsNonHtml` | src/app/cv/page.tsx:105 | a non-`HTMLElement` gets no write, and nothing below it is visited |
| `OverridePlan.PreOrder` | src/app/cv/page.tsx:104-124 | an element's own writes come first, then each child's writes in document order as contiguous stretches |
| `OverridePlan.ChildrenStep` | src/app/cv/page.tsx:123 | the next child's writes follow those of the children before it |
| `OverridePlan.ChildrenPlanPrefix` | src/app/cv/page.tsx:123 | the writes for the first j children begin the writes for the first k children when j is at most k |
| `OverridePlan.Commit` | src/app/cv/page.tsx:114 | writes change no element's presence in the styles |
| `OverridePlan.Log` | src/app/cv/page.tsx:112-121 | one record per write, in the same order, for the same element and property |
| `OverridePlan.UniformWrites` | src/app/cv/page.tsx:114 | when every write to a property of an element sets the same value, the property ends with that value |
| `OverridePlan.ExportedStyle` | src/app/cv/page.tsx:104-126 | after the walk, a property of a visited element that is listed and resolves to an `oklch` value reads as the converted value, and any other property reads as its inline value before |
| `OverridePlan.LogHoldsPrevious` | src/app/cv/page.tsx:112 | each record holds the inline value of its property just before its write |
| `OverridePlan.Undo` | src/app/cv/page.tsx:116-120 | running one record puts its saved value back on its property (an empty value removes it), keeps every other property and changes no element's presence |
| `OverridePlan.Rollback` | src/app/cv/page.tsx:128-133 | running the records from last to first keeps every element's presence, and the first record, run last, leaves its property with its saved value |
| `OverridePlan.Revert` | src/app/cv/page.tsx:116-120 | the undo closure puts back the saved value, or removes the property when it was empty, and touches no other property |
| `OverridePlan.UndoWrite` | src/app/cv/page.tsx:112-120 | undoing a write with the record taken before it gives the style back exactly |
| `OverridePlan.RollbackCommit` | src/app/cv/page.tsx:101-134 | restore after apply gives back every element's original inline style, and removes again the properties that had no inline value |
| `OverridePlan.CommitAppend` | src/app/cv/page.tsx:123 | the styles after two stretches of writes are the second applied to the result of the first |
| `OverridePlan.LogAppend` | src/app/cv/page.tsx:123 | the records of two stretches are the first's followed by the second's, each taken against the styles of its time |
| `OverridePlan.RollbackNothing` | src/app/cv/page.tsx:128-133 | with no records left, restore changes nothing, so a second restore is a no-op |
| `OverridePlan.LastWriteWins` | src/app/cv/page.tsx:114 | after the writes, a property holds the value of its last write |
| `OverridePlan.UntouchedPropertyKept` | src/app/cv/page.tsx:114 | a property no write targets keeps its inline value |
| `OverridePlan.UntouchedElementKept` | src/app/cv/page.tsx:114 | an element no write targets keeps its whole inline style |
| `StyleOverride.Restorer.constructor` | src/app/cv/page.tsx:102 | the `applied` list starts empty |
| `StyleOverride.Restorer.ProcessNode` | src/app/cv/page.tsx:104-124 | the styles become `Commit` of the node's plan, and the plan's `Log` records are pushed onto `applied` |
| `StyleOverride.Restorer.ProcessChildren` | src/app/cv/page.tsx:123 | the children are processed in order: the styles and records are those of the children's plans |
| `StyleOverride.Restorer.OverrideProperties` | src/app/cv/page.tsx:107-122 | the property loop makes the element's writes and pushes their records, in order |
| `StyleOverride.Restorer.OverrideProperty` | src/app/cv/page.tsx:108-121 | one round writes the converted value and pushes the record of the replaced inline value when the resolved value contains `oklch`, and does nothing otherwise |
| `StyleOverride.Restorer.Restore` | src/app/cv/page.tsx:128-133 | the loop drains `applied` and leaves the styles that running the records from last to first gives |
| `StyleOverride.Restorer.RunLast` | src/app/cv/page.tsx:130-131 | `pop` removes the last record and runs it on the styles |
| `StyleOverride.ReplaceOklchColors` | src/app/cv/page.tsx:101-134 | the styles become `Commit` of the root's plan, and the returned restorer holds exactly that plan's records |
| `StyleOverride.GeneratePdf` | src/app/cv/page.tsx:151-173 | with no element nothing happens; otherwise the exporter sees, for each element of the subtree, the converted resolved value on each listed `oklch` property of a visited element and the earlier inline value elsewhere; afterwards every inline style is as before, whether the export succeeded or failed |

## Left out

- IEEE-754 doubles: numbers are NaN or an exact real. Infinity, overflow and rounding of the Oklab arithmetic are not modelled.
- `JsNumber.ParseFloat`: reads the `Infinity`, `+Infinity` and `-Infinity` spellings as NaN, where JavaScript's `parseFloat` gives an infinite number, because the number model has no infinities. The alpha cases change: for `Infinity%` the source clamps to 1 and prints `rgb(`, while the model gets alpha NaN and prints `rgba(` with `NaN`; for `-Infinity` and `-Infinity%` the source clamps to 0, while the model gives 1 and NaN. An infinite lightness or hue ends in NaN channels in the source as well (infinity minus infinity in the matrix, or the cosine of infinity); an infinite chroma is not traced.
- `toFixed`: its exponential form for magnitudes of 10^21 and more is not modelled.
- `Math.cos`, `Math.sin` and `Math.pow` are a parameter, so no claim is made about channel accuracy.
- `OklchConvert.OklchToRgb`: the `catch` returning the token unchanged is not modelled. Nothing in the `try` body throws on a string (`parseFloat` yields NaN). A field that does not parse makes all three channels NaN (`ChannelsOf`): the text is `rgb(NaN, NaN, NaN)`, or `rgba(NaN, NaN, NaN, a)` when an alpha part gives an alpha below 0.999, so `oklch(abc / 50%)` becomes `rgba(NaN, NaN, NaN, 0.5)`. Missing chroma and hue fields read as `0`, so `oklch(0.5)` is a real grey (`LightnessOnlyIsGrey`).
- `window.getComputedStyle` and the cascade are a fixed input. In a browser, an override can change later resolved values: those an ancestor passes on to its descendants, and those of the same element's properties read after it in the loop (once `color` is overridden, a `currentcolor` longhand listed after it no longer resolves to `oklch(...)`). Either way it changes which properties qualify. The model reads every resolved value as it was before the walk began.
- Browser validation of `setProperty` values is not modelled. An invalid declaration is stored like any other.
- The interplay of shorthand and longhand properties is not modelled.
- The `!important` priority of inline declarations is not modelled. The source saves and restores values only.
- `generatePDF`: the dynamic import of the exporter, the `await`, the export options and the exporter itself are replaced by an outcome parameter (`Saved` or `Failed`).
- The `CVPage` markup and `src/app/page.tsx` hold no logic and are not part of this model. Neither does `next.config.js`.
- `StyleOverride.Restorer.ProcessNode`: takes the conversion as a parameter. Only `StyleOverride.ReplaceOklchColors` and `StyleOverride.GeneratePdf` state that it is `replaceOklchValues`.
- `OklchConvert.ReplaceOklchValues`: its own contract covers a value that is one whole match. The general case, with matches among other text, is stated through `Tokens`, `RenderKeepsPlainText` and `NoMatchRendersText`.
- `OklchConvert.ParseHue`: its own contract relates only NaN, sign and zero to the parsed number. The exact scaling per unit is `ParseHueAgreesWithCss`.
- `OverridePlan.Rollback`: its own contract states only the first record's effect. The whole effect after a walk is `RollbackCommit`.
