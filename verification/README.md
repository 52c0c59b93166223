# base62num in Dafny

A model of `base62num`, a small Rust library that converts between a machine
word (`usize`) and its Base62 text. Everything the library does is in
`src/lib.rs`:

- the alphabet `ALPHANUMERIC`, which holds `A`-`Z`, then `a`-`z`, then `0`-`9`, so
  digit `i` is the `i`-th symbol;
- `to_char` (digit to symbol) and `to_num` (symbol to digit, or
  `NonAlphanumeric`);
- `encode`, which divides by 62 repeatedly, collects the remainders least
  significant first and reverses them;
- `decode`, which folds over the characters left to right, looking each one up
  and then computing `acc * 62 + digit` with checked arithmetic;
- the two-variant error `Base62Error` (`NonAlphanumeric`, `Overflow`).

The project has five modules:

- `Types` (`types.dfy`) holds the 64-bit `Usize`, `Base62Error`, `Option` and
  `Result`, and Rust's `checked_mul` / `checked_add`.
- `Alphabet` (`alphabet.dfy`) holds the table and the two lookups. It also
  gives a second, independent definition of the alphabet by character ranges
  (`DigitChar`, `CharDigit`). The table and both lookups are proved to agree
  with it.
- `Positional` (`positional.dfy`) defines base-62 positional notation:
  - `Value`, the number that a digit sequence (most significant first)
    denotes, built the way `decode` folds;
  - `Digits`, the canonical digits of a number;
  - the facts connecting the two.
- `Codec` (`codec.dfy`) holds `Encode` and `Decode` as imperative methods
  that follow the Rust loops step by step. It also holds `DecodeSpec`, a
  declarative description of what decoding yields. `DecodeSpec` looks at the
  longest prefix made only of alphabet symbols:
  - if that prefix denotes more than `2^64 - 1`, the result is `Overflow`;
  - otherwise, if a character follows it, the result is `NonAlphanumeric`;
  - otherwise, the result is the value of the whole text.

  `Decode`'s loop, with its checked multiplication and addition, is proved
  equal to `DecodeSpec` on every input. `Encode` is proved to produce the
  canonical digits of its input, spelled in the alphabet.
- `Properties` (`properties.dfy`) holds the lemmas that relate several calls:
  - if-and-only-if descriptions of each of decode's three outcomes;
  - the canonical round trip;
  - leading zero symbols;
  - the length of encoded text;
  - the library's documented examples.

Decisions fixed by the model:

- `usize` is 64 bits wide: `USIZE_MAX = 2^64 - 1`.
- Text is `seq<char>`. Each element is one character of the Rust `&str`.
- `to_num` searches the table with `str::find`, which returns a byte offset.
  Every alphabet symbol is one byte of ASCII, so the offset equals the
  position. `IndexOf` models the search as a position in the sequence.
- The alphabet order is the one the code uses: upper case letters, lower case
  letters, decimal digits. Many Base62 alphabets put the digits first; this
  library puts them last, as its own example `encode(123) == "B9"` shows.
- `encode(0)` is the empty text and `decode("")` is `Ok(0)`, exactly as the
  code does. Both are proved (`EncodeZeroExample`, `DecodeEmptyExample`).

## Model

| member | source | states |
|---|---|---|
| Alphabet.AlphabetByRanges | src/lib.rs:31 | The table has 62 symbols. Digits 0-25 are `A`-`Z`, 26-51 are `a`-`z` and 52-61 are `0`-`9`, in order. |
| Alphabet.AlphabetDistinct | src/lib.rs:31 | The 62 symbols of the table are pairwise distinct. |
| Alphabet.IsSymbolInTable | src/lib.rs:31 | A character is in the table exactly when it is an ASCII upper case letter, lower case letter or decimal digit. |
| Alphabet.ToChar | src/lib.rs:80-82 | `to_char(n)` is `Some` exactly when `n < 62`, and then it is the symbol of digit `n` in the three-run order. |
| Alphabet.IndexOf | src/lib.rs:111-112 | The search returns the first position holding the character, and `None` exactly when the character does not occur. |
| Alphabet.ToNumFindsTable | src/lib.rs:110-114 | Searching the table for `c` finds it exactly when `c` is a letter or decimal digit, at the position the ranges give. |
| Alphabet.ToNum | src/lib.rs:110-114 | `to_num(c)` is `Ok` exactly for the 62 symbols, with the symbol's digit (< 62). Every other character gives `Err(NonAlphanumeric)`. |
| Alphabet.ToNumOfToChar | src/lib.rs:110-114 | For every digit below 62, looking up the symbol of that digit gives the digit back. |
| Alphabet.ToCharOfToNum | src/lib.rs:80-82 | For every alphabet symbol, the symbol of its digit is the symbol itself. |
| Positional.Digits | src/lib.rs:99-107 | The repeated-division digits of `n` are all below 62 and have no leading zero digit. They are empty exactly when `n == 0`. |
| Positional.ValueOfDigits | src/lib.rs:96-108 | The digits produced by repeated division denote `n` again. |
| Positional.DigitsOfValue | src/lib.rs:96-108 | A digit sequence with no leading zero is the repeated-division digits of its own value, so canonical digits and numbers correspond one to one. |
| Positional.ValueBounds | src/lib.rs:133-139 | `k` digits denote less than `62^k`. With a non-zero leading digit they denote at least `62^(k-1)`. |
| Positional.DigitsLength | src/lib.rs:96-108 | A positive `n` has `k` digits exactly when `62^(k-1) <= n < 62^k`: its digit count meets the bounds, and any `k` that meets them is its digit count. |
| Positional.DigitsLengthMonotone | src/lib.rs:96-108 | `a <= b` implies that `a` has no more digits than `b`. |
| Positional.ValuePrefix | src/lib.rs:133-139 | Folding fewer characters never gives a larger accumulator, so once a prefix exceeds the bound every longer one does too. |
| Positional.ValueLeadingZero | src/lib.rs:133-139 | A leading zero digit does not change the folded value. |
| Codec.Reverse | src/lib.rs:107 | The result has the input's length and holds its characters in the opposite order. |
| Codec.Encode | src/lib.rs:96-108 | `encode(n)` spells the canonical digits of `n` and uses only alphabet symbols. It is empty exactly for `n == 0`, never starts with `'A'` and decodes back to `Ok(n)`. The `unreachable!()` arm is proved dead. |
| Codec.EncodedShape | src/lib.rs:96-108 | The spelling of `n`'s digits has only alphabet symbols, is empty only for zero, does not start with `'A'`, and decodes to `Ok(n)`. |
| Codec.EncodeStep | src/lib.rs:100-101 | The update `(n - rem) / 62` equals `n / 62`, and the remainder is below 62. |
| Codec.EncodeLoopStep | src/lib.rs:99-106 | One loop round keeps the invariant: the quotient's digits followed by the collected symbols, reversed, still spell the input. |
| Codec.RoundTrip | src/lib.rs:8-12 | For every `n <= 2^64 - 1`, decoding the encoding of `n` gives `Ok(n)`. |
| Codec.FirstInvalid | src/lib.rs:133-134 | The scan stops at the first character outside the alphabet: every character before it is a symbol and the one at it is not. |
| Codec.DecodeAllValid | src/lib.rs:133-139 | A text made only of symbols whose value fits in a usize decodes to that value. |
| Codec.DecodeAtFirstInvalid | src/lib.rs:133-134 | Reaching a non-symbol while the value read so far fits gives `NonAlphanumeric`. The lookup at a position comes before any arithmetic there. |
| Codec.DecodeOverflowPrefix | src/lib.rs:135-137 | A symbol-only prefix whose value exceeds `2^64 - 1` gives `Overflow`, whatever follows it. |
| Codec.DecodeStep | src/lib.rs:134-137 | One valid character multiplies the accumulator by 62 and adds the digit. If the result leaves the usize range, decoding overflows. |
| Codec.Decode | src/lib.rs:132-140 | The checked left fold gives exactly `DecodeSpec`: `Overflow` if the longest symbol-only prefix does not fit, else `NonAlphanumeric` if a non-symbol follows it, else `Ok` of the positional value. |
| Properties.DecodeOverflowIff | src/lib.rs:133-139 | `decode` gives `Overflow` exactly when some prefix made only of symbols denotes more than `2^64 - 1`. So an overflow at an earlier position beats an invalid character later. |
| Properties.DecodeNonAlphanumericIff | src/lib.rs:133-134 | `decode` gives `NonAlphanumeric` exactly when a non-symbol comes after only symbols whose value still fits. |
| Properties.DecodeOkIff | src/lib.rs:132-140 | `decode` succeeds exactly when every character is a symbol and the whole value fits, and then it returns that value. |
| Properties.CanonicalRoundTrip | src/lib.rs:132-140 | Take valid text with no leading `'A'` that decodes: re-encoding the value gives the text back. |
| Properties.GeneralCanonical | src/lib.rs:132-140 | Decoding any symbol-only text that fits and re-encoding the value gives the text with its leading `'A'`s removed (`StripA`), which is its canonical form. |
| Properties.DecodeLeadingZero | src/lib.rs:133-139 | Prefixing `'A'` never changes what `decode` returns, whether a value or an error. |
| Properties.DecodeSingleSymbol | src/lib.rs:110-114 | Each of the 62 symbols, on its own, decodes to its digit. |
| Properties.EncodedLength | src/lib.rs:96-108 | `encode(0)` is empty. For `n > 0`, `encode(n)` has `k` characters exactly when `62^(k-1) <= n < 62^k`, in both directions. |
| Properties.EncodedLengthMonotone | src/lib.rs:96-108 | A larger number never has a shorter encoding. |
| Properties.EncodeZeroExample | src/lib.rs:97-107 | `encode(0)` is the empty string. |
| Properties.DecodeEmptyExample | src/lib.rs:133 | `decode("")` is `Ok(0)`. |
| Properties.EncodeSevenExample | src/lib.rs:93 | `encode(7) == "H"`. |
| Properties.EncodeOneTwentyThreeExample | src/lib.rs:94 | `encode(123) == "B9"`. |
| Properties.DecodeSevenExample | src/lib.rs:124 | `decode("H") == Ok(7)`. |
| Properties.DecodeOneTwentyThreeExample | src/lib.rs:125 | `decode("B9") == Ok(123)`. |
| Properties.DecodeNonAlphanumericExample | src/lib.rs:126 | `decode("Base*62") == Err(NonAlphanumeric)`. |
| Properties.DecodeOverflowExample | src/lib.rs:127-130 | `decode("AStringTooLongCausesTheOverflowError") == Err(Overflow)`. Its first thirteen characters already denote at least `62^11 > 2^64 - 1`. |

## Left out

- `Display` and `Error::description` (src/lib.rs:62-78) are left out. They give one fixed message per error variant and have no behaviour to prove. `Debug` is left out too.
- Lookup cost is not modelled. `chars().nth` and `str::find` are linear scans. Here they are a sequence index and a front-to-back search (`IndexOf`).
- `usize` is fixed at 64 bits. A target whose `usize` is 32 bits overflows earlier. The model does not cover that width.
- Rust's `String`/`char`/UTF-8 machinery is not modelled. Text is a sequence of characters, and `collect` into a `String` is sequence construction.
- CheckedMul and CheckedAdd are Rust's `checked_mul` and `checked_add` on `usize` (src/lib.rs:135-136). Their bodies are the standard-library definition (`Some` of the exact result when it is at most `2^64 - 1`, else `None`), and they carry no contract of their own. `Decode`'s proof relies on exactly that definition.
- `Result` in the model always carries `Base62Error` on the error side. Only `to_num` and `decode` return it.
