# ULID generator, modelled in Dafny

This project models `generateULID` from `playwright/support/utils.js`. The end-to-end test suite uses it to make identifiers that look real but name no resource. A ULID (Universally Unique Lexicographically Sortable Identifier) is 26 characters of Crockford's Base32. The first 10 are the millisecond timestamp, most significant digit first. The last 16 are random symbols. `encodeTime` builds the prefix by taking `now % 32` and dividing by 32, prepending one symbol per pass. It throws `'Time value is too large'` when `now` exceeds 2^48 - 1. `encodeRandom` appends 16 symbols picked at random.

The two outside inputs become parameters:
- `now: nat` is the timestamp that `Date.now()` returns.
- `draws: seq<Index>` holds, in call order, the values `Math.floor(Math.random() * 32)` produces. `Index` is the naturals below 32, the only values that expression can take.

Modules:
- `LexOrder` (lex_order.dfy): lexicographic order on strings, which is JavaScript's `<` on strings of characters up to U+FFFF (every numeral is one), and how it behaves on concatenations.
- `Crockford` (crockford.dfy): the alphabet `Encoding`; `Symbol` and `DigitOf` between digits and symbols; `Digits(n, len)`, the `len`-symbol numeral that `encodeTime`'s loop builds; and `Decode`, which reads a numeral back. The lemmas prove both round trips and order preservation.
- `Ulid` (ulid.dfy): the constants; `EncodeTime` and `EncodeRandom`, which keep the source's loops; `GenerateUlid`; the specification function `Ulid`; and the ULID-level properties.

The 2^48 - 1 limit comes from the code, which follows the ULID standard's 48-bit timestamp. Ten base-32 digits could hold values up to 2^50 - 1 (`TimeFits` proves `Pow(10) == 2^50`). The model keeps the code's limit.

## Model

| member | source | states |
|---|---|---|
| `Crockford.AlphabetShape` | playwright/support/utils.js:6 | `ENCODING` has 32 characters, in strictly ascending character order, and position `d` holds `Symbol(d)` |
| `Crockford.AlphabetIsSymbols` | playwright/support/utils.js:6 | a character occurs in `ENCODING` exactly when it is a digit or an upper-case letter other than I, L, O, U |
| `Crockford.Symbol` | playwright/support/utils.js:6 | `ENCODING.charAt(d)` for `d < 32` is never I, L, O or U and is always a digit or upper-case letter |
| `Crockford.DigitOf` | playwright/support/utils.js:6 | every symbol has a digit whose symbol it is (right inverse of `charAt`: `Symbol(DigitOf(c)) == c`) |
| `Crockford.SymbolDigit` | playwright/support/utils.js:6 | `DigitOf` inverts `Symbol`; `Symbol` is strictly increasing in the digit, so symbol order is digit order |
| `Crockford.DigitOfIsPosition` | playwright/support/utils.js:6 | a symbol's digit is its index in `ENCODING` (its first position) |
| `Crockford.Digits` | playwright/support/utils.js:16-22 | the numeral the loop builds has exactly `len` characters, all from the alphabet |
| `Crockford.Decode` | playwright/support/utils.js:17-21 | reading a string as base-32 digits succeeds exactly when every character is a symbol, and gives a value below `32^len` |
| `Crockford.DecodeDigits` | playwright/support/utils.js:17-21 | round trip: the `len`-symbol numeral of `n` reads back as `n mod 32^len` |
| `Crockford.DigitsDecode` | playwright/support/utils.js:17-21 | round trip the other way: every all-symbol string is the numeral of its own value at its own width |
| `Crockford.DigitsEqual` | playwright/support/utils.js:17-21 | two numbers get the same numeral exactly when they agree modulo `32^len` |
| `Crockford.DigitsOrder` | playwright/support/utils.js:17-21 | numerals compare as strings exactly as the numbers compare modulo `32^len` |
| `Ulid.TimeFits` | playwright/support/utils.js:8-9 | ten digits hold `32^10 = 2^50` values, more than `TIME_MAX = 2^48 - 1` |
| `Ulid.EncodeTime` | playwright/support/utils.js:12-23 | fails with `TimeTooLarge` exactly when `now > TIME_MAX`; otherwise returns `Digits(now, len)`, which has `len` symbols and reads back as `now mod 32^len` |
| `Ulid.TimeRoundTrip` | playwright/support/utils.js:13-21 | for every accepted `now`, the 10-symbol prefix reads back as `now` itself |
| `Ulid.TimeOrder` | playwright/support/utils.js:13-21 | for accepted timestamps, `a < b` exactly when `a`'s prefix is below `b`'s prefix as a string |
| `Ulid.Symbols` | playwright/support/utils.js:27-30 | the suffix has one symbol per draw, and symbol `i` reads back as draw `i` |
| `Ulid.EncodeRandom` | playwright/support/utils.js:25-32 | returns `len` characters, character `i` being `ENCODING[draws[i]]` |
| `Ulid.Ulid` | playwright/support/utils.js:34-35 | fails exactly when `now > TIME_MAX`; otherwise gives 26 alphabet symbols, where the first 10 read back as `now` and symbol `10 + i` reads back as draw `i` |
| `Ulid.GenerateUlid` | playwright/support/utils.js:5-36 | returns `Ulid(now, draws)`; its first 10 characters are the time numeral |
| `Ulid.UlidSortable` | playwright/support/utils.js:34-35 | the "Lexicographically Sortable" claim: an earlier timestamp gives a smaller ULID whatever the suffixes, and a smaller ULID never has a later timestamp |
| `Ulid.SameMillisecond` | playwright/support/utils.js:34-35 | ULIDs with the same timestamp share their 10-symbol prefix, compare as their suffixes do, and are equal exactly when the draws are |

## Left out

- `Date.now()` and `Math.random()` are not modelled. They are the clock and a floating-point random source, so they are the parameters `now` and `draws`. The model does not say that the draws are uniform or independent, so it makes no claim about collision probability.
- Only non-negative integer timestamps are modelled; `Date.now()` returns nothing else. In JavaScript, `now % 32` is `now - 32 * trunc(now / 32)`, so the next value `(now - mod) / 32` is always the whole number `trunc(now / 32)`. A fractional `now` therefore has a fractional remainder only on the first pass, and `charAt` drops that fraction, so it yields the same characters as `floor(now)`. A negative `now` gives a negative remainder wherever it is non-zero, and `charAt` of a negative index is the empty string; a zero remainder (`-0`) still yields `"0"`.
- `LexOrder.Less` compares characters by Unicode code point, while JavaScript compares UTF-16 code units; the two differ only on strings holding characters above U+FFFF, which no ULID contains.
- JavaScript numbers are doubles, but every value the loop reaches is an integer at most 2^48 - 1. Doubles represent those exactly, so `%` and `/` act there as they do on the model's unbounded integers.
- The rest of the repository is not part of this model: the end-to-end tests under `playwright/e2e`, the HTTP service wrappers, the fixtures, the `faker`-based data factories, and the Postgres cleanup in `playwright/config/database.js` and `global-setup.js`. Each is network or database I/O, or a call into a library whose code is not available.
