# gradient-maker, modelled in Dafny

gradient-maker is a small command-line program that prints a linear colour
gradient between two colours given as `#RRGGBB` hex codes. This project models
its arithmetic core, `src/main.rs`:

- `hex_to_rgb` (module `HexColor`): a validating parser that accepts a string of
  seven bytes starting with `#` and reads bytes 1–2, 3–4 and 5–6 with
  `u8::from_str_radix(_, 16)`, giving `None` on any failure.
- `rgb_to_hex` (module `HexColor`): the formatter `format!("#{:02X}{:02X}{:02X}", r, g, b)`.
- `color_gradient` (module `Gradient`): replaces a step count below two by 5,
  parses both end colours (failing if either fails) and, for each step `i`,
  pushes the colour `start + (end - start) * i / (steps - 1)`, rounded per
  channel, together with its hex string.

`hexcolor.dfy` holds the parser and the formatter as functions, with lemmas for
both round trips. `gradient.dfy` holds the interpolation as functions, the
gradient as a specification function `GradientOf`, and `ColorGradient`, a method
that builds the result in a loop the way the source's `for` loop fills its vector.
Its postcondition ties the result to `GradientOf`, and lemmas about `GradientOf`
give the length, the end points, the labels and the channel bounds.

Things worth knowing about the model:

- **The `+` sign.** `u8::from_str_radix` accepts one leading `+`. So a field
  such as `+F` parses as 15, and `hex_to_rgb("#+F0000")` gives `(15, 0, 0)`.
  The comment above `hex_to_rgb` (src/main.rs:3-4) speaks only of hex digits. The model follows the code: `FromStrRadix16` accepts the sign, and
  `PairParse` states exactly which two-character fields parse. `PlusSignAccepted`
  shows the example, and shows that formatting its result gives `#0F0000`, not
  the input. The reverse round trip is proved only for `#` and six digits.
- **Arithmetic.** The source computes in `f32`. The model computes with exact
  rationals, as integers over the common denominator `steps - 1`: the channel is
  `Round(s * (n - 1) + (e - s) * i, n - 1)`. `Round` is `f32::round`
  (nearest integer, ties away from zero) on that rational, as `RoundNearest`
  states. `SaturatingU8` is Rust's saturating `as u8`. `ChannelBetween` shows that the saturation never
  applies.
- **Strings** are `seq<char>`, and each character stands for one byte. This
  matches `str::len` and byte slicing on ASCII input.
- **Step counts** are `nat`. The source uses `usize`.

## Model

| member | source | states |
|---|---|---|
| `HexColor.FromStrRadix16` | src/main.rs:11-13 | `u8::from_str_radix(_, 16)`: the empty string and a lone `+` fail, a first character that is neither `+` nor a hex digit fails, and a single digit gives its value; `PairParse` gives the full contract on the two-character fields `hex_to_rgb` passes it |
| `HexColor.PairParse` | src/main.rs:11-13 | `from_str_radix(_, 16)` accepts a two-character field exactly when it is two hex digits or `+` and one hex digit, and then yields `16*hi + lo` or the single digit's value |
| `HexColor.HexToRgb` | src/main.rs:5-8 | the result is `None` whenever the length is not 7 or the first character is not `#` |
| `HexColor.HexToRgbSpec` | src/main.rs:5-16 | parsing succeeds if and only if the string is `#` plus three fields that each parse; on success red, green and blue are the values of characters 1–2, 3–4 and 5–6; any field that fails means `None`, so there is never a partial result |
| `HexColor.ParseDigits` | src/main.rs:11-15 | on `#` followed by six hex digits (either case), the parse gives the three base-16 pair values in order |
| `HexColor.UpperHex` | src/main.rs:21 | the `X` numeral of `n` is non-empty, all uppercase hex digits, denotes `n`, and has one digit below 16 and two below 256 |
| `HexColor.ZeroPad` | src/main.rs:21 | padding gives `max(width, len)` characters: `0`s followed by the original string |
| `HexColor.Hex2` | src/main.rs:21 | `{:02X}` of a `u8` is two uppercase hex digits that denote the value |
| `HexColor.Hex2IsZeroPaddedNumeral` | src/main.rs:21 | `Hex2` equals the numeral without leading zeros, left-padded with `0` to width 2, as the format spec says |
| `HexColor.Hex2Unique` | src/main.rs:21 | the two uppercase digits that denote `v` are exactly what `{:02X}` writes |
| `HexColor.RgbToHex` | src/main.rs:19-22 | `rgb_to_hex` gives 7 characters: `#`, then six uppercase hex digits, two per channel in r, g, b order, each pair denoting its channel |
| `HexColor.ParseOfFormat` | src/main.rs:5-22 | round trip: parsing `rgb_to_hex(r, g, b)` gives `Some((r, g, b))` for every `u8` triple |
| `HexColor.FormatOfParse` | src/main.rs:5-22 | for `#` plus six hex digits in either case, formatting the parsed colour gives the input with its letters in uppercase |
| `HexColor.FormatOfParseCanonical` | src/main.rs:5-22 | for `#` plus six uppercase hex digits, formatting the parsed colour gives back the input exactly |
| `HexColor.PlusSignAccepted` | src/main.rs:11 | `#+F0000` parses as (15, 0, 0), which formats as `#0F0000` |
| `HexColor.ParseBlack` | src/main.rs:5-16 | `#000000` parses as (0, 0, 0) |
| `HexColor.ParseWhite` | src/main.rs:5-16 | `#FFFFFF` parses as (255, 255, 255) |
| `HexColor.FormatBlackAndWhite` | src/main.rs:19-22 | (0, 0, 0) formats as `#000000` and (255, 255, 255) as `#FFFFFF` |
| `Gradient.EffectiveSteps` | src/main.rs:32 | the step count used is always at least 2: the one given if it is at least 2, otherwise 5 |
| `Gradient.Round` | src/main.rs:49 | `f32::round` on the rational `num / den`; its contract is `RoundNearest` |
| `Gradient.RoundNearest` | src/main.rs:49 | `round` of `num/den` is the nearest integer (within half a unit), with halfway cases going away from zero |
| `Gradient.SaturatingU8` | src/main.rs:49 | `as u8` leaves values in 0..255 unchanged |
| `Gradient.RoundWhole` | src/main.rs:41-49 | a ratio that is a whole number rounds to itself, so the first and last steps need no rounding |
| `Gradient.RoundMonotone` | src/main.rs:49 | rounding preserves order |
| `Gradient.Channel` | src/main.rs:41-49 | one channel of step `i` of `n`, as `r.round() as u8` of the interpolant; its contract is `ChannelNearest`, `ChannelBetween`, `ChannelEnds` and `ChannelMonotone` |
| `Gradient.HalfwayRoundsUp` | src/main.rs:41-49 | step 7 of 13 from channel 0 to 54 is exactly 31.5 and gives 32 in the model (see `Gradient.Channel` under Left out) |
| `Gradient.ChannelBetween` | src/main.rs:44-49 | every interpolated channel lies between the start and end channel, inclusive, so the `u8` conversion never saturates |
| `Gradient.ChannelNearest` | src/main.rs:44-49 | every channel is the exact value `s + (e - s) * i/(n - 1)` rounded to nearest, halfway cases going up |
| `Gradient.ChannelEnds` | src/main.rs:41-49 | step 0 gives the start channel and step `n - 1` gives the end channel exactly |
| `Gradient.ChannelMonotone` | src/main.rs:39-49 | along the steps each channel moves monotonically from its start value towards its end value |
| `Gradient.StepColor` | src/main.rs:44-52 | the colour pushed at step `i`, each channel from `Channel`; its contract is `StepColorEnds` and `StepColorBetween` |
| `Gradient.Entry` | src/main.rs:49-53 | the `(color_hex, rgb)` pair pushed at step `i`; `GradientLabels` states its label is `rgb_to_hex` of its colour |
| `Gradient.Entries` | src/main.rs:38-54 | the vector after `count` passes of the loop has `count` entries; `EntriesStep` states how one pass extends it |
| `Gradient.GradientOf` | src/main.rs:26-57 | the value `color_gradient` returns; its contract is `GradientFails`, `GradientLength`, `GradientEnds`, `GradientLabels`, `GradientBounds` and `GradientMonotone` |
| `Gradient.ColorGradient` | src/main.rs:26-57 | the loop that pushes one `(hex, rgb)` pair per step returns exactly `GradientOf(start, end, steps)`, and `None` as soon as either end fails to parse |
| `Gradient.EntriesStep` | src/main.rs:39-54 | each pass of the loop extends the entries built so far by exactly the entry of that step |
| `Gradient.GradientFails` | src/main.rs:35-36 | the gradient is `None` exactly when `hex_to_rgb` fails on the start or on the end string |
| `Gradient.GradientLength` | src/main.rs:32-54 | on success the gradient has `steps` entries if `steps >= 2`, otherwise 5 |
| `Gradient.GradientEnds` | src/main.rs:39-53 | on success the first colour is the parsed start and the last is the parsed end, exactly |
| `Gradient.GradientLabels` | src/main.rs:44-53 | every entry's hex string is `rgb_to_hex` of that entry's colour |
| `Gradient.GradientBounds` | src/main.rs:44-53 | every channel of every entry lies between the start and end values of that channel |
| `Gradient.StepColorEnds` | src/main.rs:41-49 | step 0 of the interpolation is the start colour and step `n - 1` the end colour |
| `Gradient.StepColorBetween` | src/main.rs:44-49 | every channel of the colour at step `k` lies between that channel's start and end values |
| `Gradient.GradientMonotone` | src/main.rs:39-54 | for entries `k <= l`, entry `k` lies between the start and entry `l`, and entry `l` lies between entry `k` and the end, in every channel |
| `Gradient.TwoSteps` | src/main.rs:32-54 | with two steps the gradient is exactly the start and the end colour, each with its `rgb_to_hex` label |
| `Gradient.BlackToWhiteTwoSteps` | src/main.rs:32-54 | `#000000` to `#FFFFFF` in 2 steps gives `[("#000000", (0,0,0)), ("#FFFFFF", (255,255,255))]` |
| `Gradient.BlackToWhiteMiddle` | src/main.rs:39-53 | `#000000` to `#FFFFFF` in 3 steps has middle colour (128, 128, 128): 127.5 rounds up |
| `Gradient.MalformedInputFails` | src/main.rs:6-7 | `not-a-color` and the six-character `#12345` make the gradient fail |
| `Gradient.DefaultStepCount` | src/main.rs:32 | a step count of 0 or 1 gives five entries |

## Left out

- `print_color_in_terminal` (src/main.rs:60-64): it only writes ANSI 24-bit colour escapes to standard output and has no logic.
- `main` (src/main.rs:66-94): reading process arguments, the usage message on standard error, `parse().unwrap_or(5)` for the step argument, printing the swatches and the `Invalid hex color input.` line. All of this is I/O or standard-library string parsing. Its one link to the core is that it passes start, end and step count to `color_gradient`, which is `ColorGradient` here.
- Gradient.Channel: computes the channel exactly, as `f32::round` of the exact rational interpolant, not of the `f32` value the source computes, so `GradientOf` and `ColorGradient` inherit the difference. Where `f32` representation error moves a value across a `.5` boundary, the source differs by one. For example, `#000000` to `#360000` in 13 steps at step 7: the exact value is 31.5, so the model gives 32 (`HalfwayRoundsUp`), while the `f32` product is just below 31.5 and the source gives 31. The model agrees with the source at the end points, where the ratios 0 and 1 and the small channel values are exact in `f32`. Step counts large enough for `i as f32` to lose precision are not modelled either.
- Non-ASCII input: in the source, slicing at a byte that is not a character boundary panics. The model treats every character as one byte.
- The preallocation by `Vec::with_capacity` (src/main.rs:38): memory behaviour only.
- `steps` is an unbounded `nat`. The model has no `usize` limit, and it ignores that a huge vector cannot be allocated.
