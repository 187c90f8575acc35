# Colour picker core, modelled in Dafny

The colour-picker widget lets a user choose a colour, shows it as hex, RGB
and HSL, reports its WCAG contrast ratio against white and black, and keeps a
history of recently chosen colours in the browser's storage. This project
models the parts of `script.js` that compute something:

- `HexColor` (`hex.dfy`): `hexToRgb`, which parses `#rrggbb` or `rrggbb` in
  either case and returns `null` otherwise, and the stricter pattern
  `/^#[0-9A-F]{6}$/i` that admits text typed into the hex field. The parser is
  paired with the 6-digit form of the CSS hexadecimal RGB notation (section 5.2
  of CSS Color Module Level 4). Round trips are proved in both directions.
- `Hsl` (`hsl.dfy`): `rgbToHsl`, the min/max-channel algorithm. It is computed
  in exact reals with `Math.round` as `floor(x + 0.5)`. The model proves the
  output bounds, that the saturation denominators are never zero, what greys
  give, and that ties between channels do not depend on the order of the
  `switch` cases. It also gives an integer restatement of lightness and
  saturation.
- `Contrast` (`contrast.dfy`): `calculateContrastRatio`, the WCAG 2.x
  "contrast ratio" `(lighter + 0.05) / (darker + 0.05)` of two relative
  luminances. The luminances are inputs here.
- `RecentColors` (`recent.dfy`): `addToRecentColors` on the module-level list.
  It is a class with the list as a `seq<string>` field and a ghost copy of
  the value last written to storage. The specification function `AddRecent`
  carries the lemmas: front entry, order, no growth on re-adding,
  idempotence, no duplicates preserved, and eviction of the oldest entry.

The model follows the code in these details, where one might expect otherwise:

- The hue can be 360, not only values below 360. For example, (255, 0, 1)
  gives 360.
- The history removes exact string matches only, so it is case-sensitive.
- The history is loaded from storage without any check. It may therefore
  start with more than eight entries or with duplicates.
- A parse failure is `None`, the source's `null`.

## Model

| member | source | states |
|---|---|---|
| `HexColor.HexToRgb` | script.js:149-156 | a colour is returned exactly when the text is six hex digits of either case, optionally after `#`; every channel is in 0..255 |
| `HexColor.PairValue` | script.js:152-154 | `parseInt(pair, 16)` of a two-digit pair is below 256, its high digit is the value div 16 and its low digit the value mod 16 |
| `HexColor.ParseFormatRoundTrip` | script.js:150-155 | any colour written as six hex digits, upper or lower case, with or without `#`, parses back to itself |
| `HexColor.FormatParseRoundTrip` | script.js:150-155 | any accepted text, with the `#` dropped and the digits lower-cased, is the canonical notation of the colour it parsed to |
| `HexColor.FormatInjective` | script.js:150-155 | two in-range colours with the same hex notation are the same colour |
| `HexColor.GuardImpliesParses` | script.js:37 | every text the hex-field guard admits is also accepted by `hexToRgb`, so the update after the guard never sees `null` |
| `HexColor.ParserAcceptsMoreThanGuard` | script.js:37 | the converse fails: `3498db` parses to (52, 152, 219) but the guard rejects it for lack of `#` |
| `HexColor.ParseExamples` | script.js:149-156 | `#3498db` and `#3498DB` give (52, 152, 219); `not-a-color`, `#ZZZZZZ` and a five-digit text give `None` |
| `Hsl.Round` | script.js:181-183 | `Math.round` gives the nearest integer, halves rounded up |
| `Hsl.Max3` | script.js:163 | `Math.max` of the channels is one of them and no smaller than any |
| `Hsl.Min3` | script.js:164 | `Math.min` of the channels is one of them and no larger than any |
| `Hsl.Saturation` | script.js:170-171 | for a chromatic colour, saturation lies in (0, 1]; neither denominator, `2 - max - min` or `max + min`, is zero |
| `Hsl.Hue` | script.js:173-177 | the first-match `switch` on the maximum channel gives a hue in [0, 1) of a turn |
| `Hsl.RedHueBounds` | script.js:174 | when red is the maximum, its formula lies in [0, 1) |
| `Hsl.GreenHueBounds` | script.js:175 | when green is the maximum, its formula lies in [1/6, 1/2] |
| `Hsl.BlueHueBounds` | script.js:176 | when blue is the maximum, its formula lies in [1/2, 5/6] |
| `Hsl.TiedCasesAgree` | script.js:173-177 | whenever a channel ties for the maximum, its own formula equals the hue the winning case gave, so the case order does not change the result |
| `Hsl.TieFormulas` | script.js:173-177 | at a two-way tie the two tied formulas both give 1/6, 1/2 or 5/6 of a turn |
| `Hsl.RgbToHsl` | script.js:158-185 | hue in 0..360, saturation and lightness in 0..100 |
| `Hsl.GreyIsAchromatic` | script.js:165-168 | a grey (r = g = b) gives hue 0, saturation 0 and lightness round(100 r / 255) |
| `Hsl.BlackAndWhite` | script.js:165-184 | black gives (0, 0, 0) and white (0, 0, 100) |
| `Hsl.HueReaches360` | script.js:174-181 | (255, 0, 1) gives hue 360: the upper bound is reached |
| `Hsl.DefaultColour` | script.js:158-185 | the default colour (52, 152, 219) gives (204, 70, 53) |
| `Hsl.ChannelExtremes` | script.js:159-164 | the maximum and minimum of the scaled channels are the scaled integer maximum and minimum |
| `Hsl.LightnessNeverTies` | script.js:165-183 | the lightness in percent is never an exact half, so its rounding never meets a tie |
| `Hsl.LightnessIntegerForm` | script.js:163-183 | lightness is round((M + m) * 10 / 51) for the largest and smallest integer channels M and m |
| `Hsl.SaturationIntegerForm` | script.js:167-182 | saturation is 0 for greys, round(100 (M - m) / (M + m)) up to half lightness and round(100 (M - m) / (510 - M - m)) above it |
| `Contrast.ContrastRatio` | script.js:191-194 | the ratio is at least 1, and it is exactly 1 if and only if the two luminances are equal |
| `Contrast.ColourContrast` | script.js:187-195 | for luminances in [0, 1], the contrast of two colours lies in [1, 21] |
| `Contrast.Symmetric` | script.js:191-194 | swapping the two luminances leaves the ratio unchanged |
| `Contrast.SameLuminanceIsOne` | script.js:191-194 | a luminance against itself gives exactly 1 |
| `Contrast.AtMostTwentyOne` | script.js:191-194 | for luminances in [0, 1] the ratio is at most 21, and it is 21 exactly for white against black |
| `Contrast.DarkerRaisesContrast` | script.js:191-194 | with the lighter luminance fixed, a darker partner gives a strictly larger ratio |
| `RecentColors.Without` | script.js:208 | the filter keeps exactly the entries other than `color`; it shortens the list when `color` is present and changes nothing otherwise |
| `RecentColors.WithoutConcat` | script.js:208 | filtering distributes over concatenation, so the kept entries stay in their original order |
| `RecentColors.WithoutCounts` | script.js:208 | filtering removes every occurrence of `color` and leaves every other count unchanged |
| `RecentColors.WithoutNoDup` | script.js:208 | filtering a duplicate-free list gives a duplicate-free list |
| `RecentColors.AddRecent` | script.js:206-216 | the new list has `color` at index 0 and nowhere else; the rest is the filtered old list in order, cut so that the list holds at most 8 |
| `RecentColors.ReAddNeverGrows` | script.js:208-216 | re-adding a colour already present never makes the list longer |
| `RecentColors.AddIdempotent` | script.js:206-216 | adding the same colour twice in a row gives the same list as adding it once |
| `RecentColors.AddKeepsNoDup` | script.js:206-216 | if the old list has no duplicates, neither does the new one |
| `RecentColors.DuplicatesSurvive` | script.js:21 | a loaded list with a duplicate keeps it after an addition, so the previous guarantee needs its assumption |
| `RecentColors.EvictsOldest` | script.js:211-216 | adding a new colour to a full list of eight drops only the last (oldest) entry |
| `RecentColors.History` | script.js:206-216 | a history built from empty by successive additions never exceeds 8 entries |
| `RecentColors.HistoryOfDistinct` | script.js:206-216 | adding distinct colours from empty leaves the latest eight of them, newest first |
| `RecentColors.NineDistinct` | script.js:206-216 | nine distinct colours leave exactly eight, newest first, with the first one evicted |
| `RecentColors.ReAddScenario` | script.js:206-216 | adding `#111111`, `#222222`, `#111111` gives `["#111111", "#222222"]` |
| `RecentColors.RecentColorsStore.Load` | script.js:21 | startup takes the decoded stored list, or the empty list when there is none; storage is untouched |
| `RecentColors.RecentColorsStore.Add` | script.js:206-219 | the list becomes `AddRecent` of the old list (at most 8 entries, `color` first and only there, duplicates never introduced), and the stored value becomes the whole new list |
| `RecentColors.RecentColorsStore.HexInput` | script.js:35-42 | typed text is recorded, and storage rewritten, exactly when it passes the guard, which also ensures it parses; otherwise nothing changes |

## Left out

- Hsl.RgbToHsl: computed in exact reals rather than IEEE doubles. `Math.round` on a double near a half may differ from the real model. Lightness never meets an exact half (`Hsl.LightnessNeverTies`); hue and saturation are not analysed for this.
- Contrast.ContrastRatio: computed in exact reals. Floating-point error and the `toFixed(1)` display formatting (script.js:128-129) are not modelled.
- Contrast.ColourContrast: `calculateLuminance` (script.js:197-204) is replaced by an arbitrary luminance function into [0, 1]. Its `Math.pow(…, 2.4)` has no faithful real-number counterpart here.
- RecentColors.RecentColorsStore.Load: `localStorage` and JSON are not modelled. The constructor receives the already decoded stored list, with `None` for an absent or `null` value. A `JSON.parse` that throws on malformed text, or that yields a non-array value, is not modelled.
- The storage write is modelled as assignment to a ghost field. Storage errors such as an exceeded quota are not modelled.
- DOM lookups, event-listener wiring, `updateColor`, `updateColorDisplay`, the opacity slider and `displayRecentColors` are not modelled (script.js:1-18, 27-49, 114-147, 225-240). They only write to the page. The colour-picker listener (script.js:28-33) calls `addToRecentColors` without a guard, and that call is `RecentColorsStore.Add`.
- Clipboard writes, `navigator.share` and the `showToast` timer are not modelled (script.js:52-112). They are asynchronous browser APIs.
