# YNAT money type, modelled in Dafny

YNAT is a terminal client for a budgeting service. Account and category
balances arrive as JSON numbers and are held in a small fixed-point type,
`Big`. `Big` keeps a signed number of whole units (`Whole`) and a number of
hundredths (`Decimal`). This project models that type and proves what its
operations do:

- `NewBig` builds a value.
- `Add` and `Sub` change a `Big` in place, with one carry or one borrow.
- `UnmarshalJSON` decodes the raw bytes of a JSON number token.
- `String` renders a value as `Whole.Decimal`.

Modules:

- `Strconv` (strconv.dfy) models Go's `strconv.Atoi` and fmt's `%d` on byte strings. Go strings are byte sequences, so both work on `seq<byte>`.
- `Api` (api.dfy) holds two forms of `Big`:
  - `BigValue` is a `Big` copied by value: the operand of `Add` and `Sub`, the result of `NewBig`, the receiver of `String`.
  - The class `Big` is a `Big` variable. It is the receiver of `Add`, `Sub` and `UnmarshalJSON`, the methods that take `*Big` and update its fields in place.
  - `Sum`, `Difference` and `Decode` are the value-level specifications those methods are proved against.
- `Corrected` (corrected.dfy) holds corrected decoding and display for the defects under "## Findings". `Api` itself models the code as written.
- `Wrappers` (wrappers.dfy) holds `Option` and `Result`.

How the value is read. `Add` and `Sub` treat a pair as `Whole*100 + Decimal`
hundredths (`BigValue.Cents`). They keep `0 <= Decimal < 100` (`BigValue.Normal`)
whenever both operands satisfy it. Under that reading, a normal pair is the
floor-division form of its hundredths (`FromCents`).

The decoder reads the token as an amount in thousandths of a unit:

- The last byte is dropped.
- The two bytes before it give `Decimal`.
- Everything before those three bytes gives `Whole`.
- Each part goes through `Atoi`, and a failed parse gives 0.
- A one-byte token leaves the receiver unchanged.

So `12345` decodes to {12, 34} and `-1500` to {-1, 50}.

The decoder and `String` read a negative pair as sign and magnitude: {-1, 50}
is shown `-1.50`. `Add` and `Sub` read the same pair as `-1*100 + 50`
hundredths, that is -0.50. The two readings agree only when `Decimal` is 0. In
this program the mismatch is latent: nothing calls `Add` or `Sub`, and balances
are only displayed through `String`.

Three facts about the code that the model follows exactly:
- `Decimal` comes from `data[len-3:len-1]`, not from the last two bytes.
- A two-byte token such as `50` panics in that slice, so `UnmarshalJSON` requires a token of length 1 or at least 3.
- Parse errors are discarded, and the method always returns nil.

## Model

| member | source | states |
|---|---|---|
| `Strconv.Atoi` | api.go:49-51 | A digit string parses to the number it denotes. A sign followed by digits parses to that number, negated for `-`. A lone sign, an empty string, a non-digit after the first byte, or a first byte that is neither a digit nor a sign is a syntax error. A negative result needs a leading minus sign. |
| `Strconv.Itoa` | api.go:60 | `%d` output is non-empty and holds only digits, plus a minus sign first exactly when the number is negative. It never holds a dot. Its digits start with `0` only for the number 0, so no leading zeros are written. |
| `Strconv.AtoiOrZero` | api.go:49-51 | With the parse error thrown away, a digit string (even the empty one) reads as its value, and a sign followed by digits reads as that value, negated for `-` (the whole slice `-1` of token `-1500` gives -1). The empty string, a lone sign, a bad first byte, or a non-digit after the first byte all read as 0. |
| `Strconv.AtoiItoa` | api.go:60 | Atoi reads back every number `%d` writes. |
| `Api.NewBig` | api.go:17-19 | The value has the given fields, and its amount is `number*100 + decimal` hundredths. No normalisation happens. |
| `Api.Sum` | api.go:21-29 | Add preserves the total in hundredths. One carry restores `0 <= Decimal < 100` when both operands are normal. |
| `Api.Difference` | api.go:31-39 | Sub preserves the difference in hundredths. One borrow restores `0 <= Decimal < 100` when both operands are normal. |
| `Api.FromCents` | api.go:21-39 | Every amount in hundredths has a normal pair with that amount. |
| `Api.NormalUnique` | api.go:12-15 | Two normal pairs with the same amount are equal, so a normal pair is determined by its amount. |
| `Api.SumIsNormalForm` | api.go:21-29 | For normal operands, Add gives exactly the normal form of the summed hundredths, so one conditional carry suffices. |
| `Api.DifferenceIsNormalForm` | api.go:31-39 | For normal operands, Sub gives exactly the normal form of the difference, so one conditional borrow suffices. |
| `Api.SubUndoesAdd` | api.go:21-39 | For normal operands, Sub of `b` after Add of `b` restores the original pair. |
| `Api.AddUndoesSub` | api.go:21-39 | For normal operands, Add of `b` after Sub of `b` restores the original pair. |
| `Api.CarryAndBorrowExamples` | api.go:21-39 | {1,80} + {0,30} = {2,10}, and {2,10} - {0,30} = {1,80}. |
| `Api.BigValue.String` | api.go:59-61 | The rendering has exactly one dot, placed right after the `%d` form of `Whole`. It starts with a minus sign exactly when `Whole` is negative. |
| `Api.StringUnpadded` | api.go:59-61 | For every `Whole` and every `Decimal` from 1 to 9, the rendering of {w,d} followed by `0` is the rendering of {w,10d}. So `w.d` reads as d tenths, not d hundredths: `Decimal` is not zero-padded. |
| `Api.StringParsesBack` | api.go:59-61 | Split at its dot, the rendering reads back through Atoi as `Whole` and `Decimal`. |
| `Api.StringInjective` | api.go:59-61 | Two values with the same rendering are equal. |
| `Api.StringExamples` | api.go:59-61 | {5,2} renders as `5.2` (no padding) and {3,50} as `3.50`. |
| `Api.Decode` | api.go:47-54 | When the two bytes before the last are digits, `Decimal` is their two-digit value, so it lies in [0,99]. A non-digit second decimal byte gives `Decimal` 0. `Whole` is 0 when the whole slice is empty, is a single non-digit byte such as `-`, or ends in a non-digit. |
| `Api.DecodeDigits` | api.go:47-54 | For a digit token `p` followed by three digits `a b c`, `Whole` is the value of `p` (0 when `p` is empty) and `Decimal` is the two-digit value of `a b`. The last digit is dropped, so the amount in hundredths, times ten, plus `c`, is the token's value. |
| `Api.DecodeNegative` | api.go:47-54 | A minus sign and four or more digits give `Whole <= 0` and a normal `Decimal`. The digits read back as `-Whole` units, `Decimal` hundredths and the dropped digit, so `Whole` is negated and `Decimal` is not. |
| `Api.DecodeNegativeThreeDigits` | api.go:47-54 | A minus sign and three digits give `Whole` 0, because Atoi rejects `-`. `Decimal` is the first two digits, so the sign is lost. |
| `Api.DecodeNegativeTwoDigits` | api.go:47-54 | A minus sign and two digits give `Whole` 0 and put the sign into the decimal slice, so `Decimal` is minus the first digit. |
| `Api.DecodeExamples` | api.go:47-54 | `12345` decodes to {12,34}, and `-1500` to {-1,50}. |
| `Api.Big.constructor` | api.go:12-15 | A new variable holds the given value. |
| `Api.Big.Add` | api.go:21-29 | The new value is `Sum` of the old value and the operand. It keeps the total in hundredths and keeps the variable normal when both were normal. |
| `Api.Big.Sub` | api.go:31-39 | The new value is `Difference` of the old value and the operand. It keeps the difference in hundredths and keeps the variable normal when both were normal. |
| `Api.Big.UnmarshalJSON` | api.go:41-57 | It never returns an error. A one-byte token leaves the variable unchanged. A longer token sets it to `Decode` of the token. Tokens of length 0 and 2 are excluded, because Go's slice panics on them. |
| `Corrected.DecodeMilliunits` | api.go:41-57 | A token Atoi rejects is an error. Otherwise the result is normal, and its amount is the token's thousandths truncated toward zero to hundredths. |
| `Corrected.DecodeMilliunitsAgrees` | api.go:47-54 | On every digit token of three or more bytes, the corrected decoder gives what `Decode` gives. |
| `Corrected.RenderPadded` | api.go:59-61 | The rendering has a dot three places from the end. It starts with a minus sign exactly when the amount is negative. |
| `Corrected.RenderPaddedDenotes` | api.go:59-61 | Read as a number with the dot removed, the padded rendering is the amount in hundredths. |
| `Corrected.RenderPaddedAgrees` | api.go:59-61 | For non-negative normal values with `Decimal >= 10`, the padded rendering equals `String`. |
| `Corrected.CorrectedDisplayShowsToken` | api.go:41-61 | Decoded and rendered with the corrections, a token displays its own amount truncated to hundredths. |
| `Corrected.StringDropsPadding` | api.go:59-61 | Token `1050` decodes to {1,5}. `String` shows it as `1.5`, and the padded rendering as `1.05`. |
| `Corrected.NegativeTokenLosesSign` | api.go:47-54 | Token `-500` decodes to {0,50}, a positive amount shown as `0.50`. |
| `Corrected.NegativeTokenLeavesRange` | api.go:47-54 | Token `-50` decodes to {0,-5}, which is not normal. |
| `Corrected.NegativeTokenCorrected` | api.go:41-61 | The corrected decoder reads `-500` as {-1,50}, which the padded rendering shows as `-0.50`. |
| `Corrected.DecodeMilliunitsNegative` | api.go:47-54 | For a minus sign followed by four or more digits, the corrected decoder gives the normal form of `Whole*100 - Decimal` hundredths, where `Whole` and `Decimal` are what `Decode` gives. So it agrees with `Decode` exactly when `Decimal` is 0. |
| `Corrected.NegativeReadingsDisagree` | api.go:21-61 | Token `-1500` decodes to {-1,50}, shown `-1.50`. `Add` reads that pair as -50 hundredths, so adding {0,60} gives {0,10}. |
| `Corrected.NegativeReadingCorrected` | api.go:47-54 | The corrected decoder reads `-1500` as {-2,50}, which is -150 hundredths. |
| `Corrected.CentTokensTooShort` | api.go:48 | Every amount of 10 to 99 thousandths (one to nine hundredths) is written as a two-byte token, the length on which the slice panics. |
| `Corrected.DecodeMilliunitsTwoDigits` | api.go:48 | The corrected decoder reads a two-digit token `a b` as {0, a}: `10` is one hundredth. |

## Findings

| source | as written | input that shows it | evidently intended | confidence | as-written member | corrected member |
|---|---|---|---|---|---|---|
| api.go:59-61 | `%d.%d` prints `Decimal` without zero padding | {1,5}, decoded from token `1050` (1.05 units), renders `1.5` | `1.05` | high; not executed | `Corrected.StringDropsPadding` | `Corrected.RenderPadded` |
| api.go:48-54 | the whole slice of a negative token with 2 or 3 digits is `-` or empty, so the sign is lost or lands in `Decimal` | token `-500` decodes to {0,50}, shown `0.50` (and token `-50` to {0,-5}, see `Corrected.NegativeTokenLeavesRange`) | a negative amount: -0.50, which in the reading `Add` and `Sub` use is the normal pair {-1,50} | high; not executed | `Corrected.NegativeTokenLosesSign` | `Corrected.DecodeMilliunits` |
| api.go:21-54 | a negative token with non-zero hundredths decodes to a sign-and-magnitude pair, which `Add` and `Sub` read as a different amount | token `-1500` (-1.50 units) decodes to {-1,50}. That is shown `-1.50`, but adding 0.60 gives {0,10}, shown `0.10`. Latent: no caller applies `Add` or `Sub` to a decoded value | one reading for both: -1.50 as {-2,50} | medium; not executed | `Corrected.NegativeReadingsDisagree` | `Corrected.DecodeMilliunits` |
| api.go:48 | `data[len(data)-3:len(data)-1]` panics on a two-byte token | token `10` (one hundredth of a unit) | {0,1} | high; not executed | `Corrected.CentTokensTooShort` | `Corrected.DecodeMilliunitsTwoDigits` |

`Api.Big.UnmarshalJSON` and `Api.BigValue.String` keep the behaviour as written, because they model the source. The corrected pair, `DecodeMilliunits` and then `RenderPadded`, is proved end to end by `Corrected.CorrectedDisplayShowsToken`.

The corrected module reads every pair as `Add` and `Sub` do, as `Whole*100 + Decimal` hundredths. Which reading the authors meant for negative amounts is not evident from the code. `Add` and `Sub` are the only arithmetic, so the model adopts theirs. The correction therefore changes more than the two- and three-digit negative tokens:
- Digit tokens of three or more bytes decode as before (`Corrected.DecodeMilliunitsAgrees`).
- Negative tokens of four or more digits decode as before only when their hundredths are 0. Every other one changes: `-1500` becomes {-2,50} instead of {-1,50} (`Corrected.DecodeMilliunitsNegative`, `Corrected.NegativeReadingCorrected`).
- Two-byte tokens, on which the code panics, decode to their hundredths (`Corrected.DecodeMilliunitsTwoDigits`).

## Left out

- main.go (the terminal UI, the login form, reading and writing the token file, the global client) is not part of this model. It is UI and I/O.
- The HTTP client (`Do`, `ValidateAndSetCode`, `readAndUnmarshal`) and `GetBudgets`, `GetAccounts`, `GetCategories` (api.go:81-191) are left out. They are network and JSON plumbing over `net/http` and `encoding/json`.
- How `encoding/json` picks the bytes it hands to `UnmarshalJSON` (`null`, exponents, fractions) is not modelled. Only the byte-slice rule is.
- Go's fixed-width `int` (32 or 64 bits) and Atoi's clamping of out-of-range values are not modelled. All integers are unbounded, so `Add` and `Sub` never overflow here.
- Api.Big.UnmarshalJSON: requires a token of length 1 or at least 3. On lengths 0 and 2 the Go slice `data[len-3:len-1]` panics, and that panic is not modelled.
- strconv.Atoi is a Go library function, not part of this repository. It is modelled from its documented syntax: an optional `+` or `-`, then one or more ASCII digits.
