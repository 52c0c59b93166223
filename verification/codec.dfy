/** The public surface of the codec: `encode` from a usize to Base62 text and
    `decode` back, with the reference description of what decoding yields. */
module Codec {
  import opened Types
  import opened Alphabet
  import opened Positional

  // ---------------------------------------------------------------------------
  // Text and digits
  // ---------------------------------------------------------------------------

  /** Every character of `s` is one of the 62 alphabet symbols. */
  predicate InAlphabet(s: string)
  {
    forall i :: 0 <= i < |s| ==> IsSymbol(s[i])
  }

  /** The text that writes the digits `ds`. */
  function Spell(ds: seq<nat>): (s: string)
    requires IsDigits(ds)
    ensures |s| == |ds|
    ensures forall i :: 0 <= i < |ds| ==> s[i] == DigitChar(ds[i])
  {
    if |ds| == 0 then [] else Spell(ds[..|ds| - 1]) + [DigitChar(ds[|ds| - 1])]
  }

  /** The digits that the text `s` writes. */
  function Unspell(s: string): (ds: seq<nat>)
    requires InAlphabet(s)
    ensures |ds| == |s| && IsDigits(ds)
    ensures forall i :: 0 <= i < |s| ==> ds[i] == CharDigit(s[i]).value
  {
    if |s| == 0 then [] else Unspell(s[..|s| - 1]) + [CharDigit(s[|s| - 1]).value]
  }

  /** Written digits are alphabet symbols. */
  lemma SpellInAlphabet(ds: seq<nat>)
    requires IsDigits(ds)
    ensures InAlphabet(Spell(ds))
  {
    var s := Spell(ds);
    forall i | 0 <= i < |s|
      ensures IsSymbol(s[i])
    {
      DigitCharInverse(ds[i]);
    }
  }

  /** Writing digits down and reading them back gives the digits. */
  lemma UnspellOfSpell(ds: seq<nat>)
    requires IsDigits(ds)
    ensures Unspell(Spell(ds)) == ds
  {
    var s := Spell(ds);
    SpellInAlphabet(ds);
    var back := Unspell(s);
    assert |back| == |ds|;
    forall i | 0 <= i < |ds|
      ensures back[i] == ds[i]
    {
      var d := ds[i];
      assert s[i] == DigitChar(d);
      DigitCharInverse(d);
      assert back[i] == CharDigit(s[i]).value;
    }
  }

  /** Reading a text and writing its digits back gives the text. */
  lemma SpellOfUnspell(s: string)
    requires InAlphabet(s)
    ensures Spell(Unspell(s)) == s
  {
    var back := Spell(Unspell(s));
    forall i | 0 <= i < |s|
      ensures back[i] == s[i]
    {
      CharDigitInverse(s[i]);
    }
  }

  /** The digits of a prefix are the prefix of the digits. */
  lemma UnspellPrefix(s: string, k: nat)
    requires InAlphabet(s) && k <= |s|
    ensures InAlphabet(s[..k])
    ensures Unspell(s[..k]) == Unspell(s)[..k]
  {
    var a := Unspell(s[..k]);
    var b := Unspell(s)[..k];
    forall i | 0 <= i < k
      ensures a[i] == b[i]
    {
      assert s[..k][i] == s[i];
    }
  }

  /** The characters of `s` in the opposite order. */
  function Reverse(s: string): (r: string)
    ensures |r| == |s|
    ensures forall i :: 0 <= i < |s| ==> r[i] == s[|s| - 1 - i]
  {
    if |s| == 0 then [] else [s[|s| - 1]] + Reverse(s[..|s| - 1])
  }

  // ---------------------------------------------------------------------------
  // Encoding
  // ---------------------------------------------------------------------------

  /** Encodes `num`: divide by the base until nothing is left, collecting the
      remainders least significant first, then reverse them. Zero has no
      remainders and encodes as the empty text. */
  method Encode(num: Usize) returns (r: string)
    ensures r == Spell(Digits(num))
    ensures InAlphabet(r)
    ensures |r| == 0 <==> num == 0
    ensures |r| > 0 ==> r[0] != 'A'
    ensures DecodeSpec(r) == Ok(num)
  {
    var digits: string := [];
    var n: Usize := num;
    while n > 0
      invariant Spell(Digits(num)) == Spell(Digits(n)) + Reverse(digits)
      decreases n
    {
      var rem := n % BASE;
      ghost var q := n / BASE;
      EncodeStep(n);
      EncodeLoopStep(n, digits, DigitChar(rem));
      n := (n - rem) / BASE;
      assert n == q;
      match ToChar(rem)
      case Some(c) =>
        assert c == DigitChar(rem);
        digits := digits + [c];
      case None =>
        assert false;
    }
    assert Spell(Digits(n)) == [];
    assert Spell(Digits(num)) == Reverse(digits);
    r := Reverse(digits);
    EncodedShape(num);
  }

  /** The canonical spelling of a number uses only alphabet symbols, is empty
      only for zero, never starts with the zero symbol and decodes back. */
  lemma EncodedShape(num: Usize)
    ensures InAlphabet(Spell(Digits(num)))
    ensures |Spell(Digits(num))| == 0 <==> num == 0
    ensures |Spell(Digits(num))| > 0 ==> Spell(Digits(num))[0] != 'A'
    ensures DecodeSpec(Spell(Digits(num))) == Ok(num)
  {
    var ds := Digits(num);
    SpellInAlphabet(ds);
    if |ds| > 0 {
      DigitCharInverse(ds[0]);
      assert CharDigit('A') == Some(0);
    }
    RoundTrip(num);
  }

  /** The encoder's update `(n - rem) / 62` is the quotient `n / 62`. */
  lemma EncodeStep(n: nat)
    ensures n % BASE < BASE
    ensures (n - n % BASE) / BASE == n / BASE
  {
  }

  /** One round of the encoder: the quotient's digits followed by the
      remainder's symbol are the digits of `n`. */
  lemma EncodeLoopStep(n: nat, digits: string, c: char)
    requires n > 0 && c == DigitChar(n % BASE)
    ensures Spell(Digits(n)) + Reverse(digits) == Spell(Digits(n / BASE)) + Reverse(digits + [c])
  {
    var front := Digits(n / BASE);
    assert Digits(n) == front + [n % BASE];
    assert (front + [n % BASE])[..|front|] == front;
    assert Spell(Digits(n)) == Spell(front) + [c];
    assert Reverse(digits + [c]) == [c] + Reverse(digits);
  }

  // ---------------------------------------------------------------------------
  // Decoding
  // ---------------------------------------------------------------------------

  /** Length of the longest prefix of `s` made of alphabet symbols: the
      position of the first character outside the alphabet, or `|s|`. */
  function FirstInvalid(s: string): (k: nat)
    ensures k <= |s|
    ensures forall i :: 0 <= i < k ==> IsSymbol(s[i])
    ensures k < |s| ==> !IsSymbol(s[k])
  {
    if |s| == 0 || !IsSymbol(s[0]) then 0 else 1 + FirstInvalid(s[1..])
  }

  /** A symbol-only prefix followed by a non-symbol (or by the end of the
      text) is the longest symbol-only prefix. */
  lemma FirstInvalidAt(s: string, i: nat)
    requires i <= |s| && InAlphabet(s[..i])
    requires i < |s| ==> !IsSymbol(s[i])
    ensures FirstInvalid(s) == i
  {
    forall j | 0 <= j < i
      ensures IsSymbol(s[j])
    {
      assert s[..i][j] == s[j];
    }
  }

  /** The longest symbol-only prefix is at least as long as any symbol-only
      prefix. */
  lemma FirstInvalidAtLeast(s: string, j: nat)
    requires j <= |s| && InAlphabet(s[..j])
    ensures j <= FirstInvalid(s)
  {
    forall i | 0 <= i < j
      ensures IsSymbol(s[i])
    {
      assert s[..j][i] == s[i];
    }
  }

  /** What decoding `s` yields, stated through the longest prefix of alphabet
      symbols: if that prefix already denotes more than a usize holds the
      result is `Overflow`; otherwise a character outside the alphabet after it
      gives `NonAlphanumeric`; otherwise the value of the whole text. */
  function DecodeSpec(s: string): Result<Usize>
  {
    var k := FirstInvalid(s);
    assert InAlphabet(s[..k]);
    var v := Value(Unspell(s[..k]));
    if v > USIZE_MAX then Err(Overflow)
    else if k < |s| then Err(NonAlphanumeric)
    else Ok(v)
  }

  /** Encoded text decodes to the number it came from. */
  lemma RoundTrip(n: Usize)
    ensures DecodeSpec(Spell(Digits(n))) == Ok(n)
  {
    var s := Spell(Digits(n));
    SpellInAlphabet(Digits(n));
    UnspellOfSpell(Digits(n));
    ValueOfDigits(n);
    assert Value(Unspell(s)) == n;
    DecodeAllValid(s);
  }

  /** The digits of one more character. */
  lemma UnspellSnoc(s: string, i: nat)
    requires i < |s| && InAlphabet(s[..i]) && IsSymbol(s[i])
    ensures InAlphabet(s[..i + 1])
    ensures Unspell(s[..i + 1]) == Unspell(s[..i]) + [CharDigit(s[i]).value]
  {
    assert s[..i + 1] == s[..i] + [s[i]];
    assert s[..i + 1][..i] == s[..i];
  }

  /** A text made only of alphabet symbols whose value fits decodes to it. */
  lemma DecodeAllValid(s: string)
    requires InAlphabet(s) && Value(Unspell(s)) <= USIZE_MAX
    ensures DecodeSpec(s) == Ok(Value(Unspell(s)))
  {
    assert s[..|s|] == s;
  }

  /** The first character outside the alphabet, reached before any prefix
      overflows, makes decoding fail with `NonAlphanumeric`. */
  lemma DecodeAtFirstInvalid(s: string, i: nat)
    requires i < |s| && InAlphabet(s[..i]) && !IsSymbol(s[i])
    requires Value(Unspell(s[..i])) <= USIZE_MAX
    ensures DecodeSpec(s) == Err(NonAlphanumeric)
  {
    FirstInvalidAt(s, i);
  }

  /** A prefix of alphabet symbols whose value does not fit in a usize makes
      decoding fail with `Overflow`, whatever follows it: overflow found
      earlier wins over an invalid character found later. */
  lemma DecodeOverflowPrefix(s: string, j: nat)
    requires j <= |s| && InAlphabet(s[..j])
    requires Value(Unspell(s[..j])) > USIZE_MAX
    ensures DecodeSpec(s) == Err(Overflow)
  {
    var k := FirstInvalid(s);
    FirstInvalidAtLeast(s, j);
    var p := s[..k];
    assert InAlphabet(p);
    UnspellPrefix(p, j);
    assert p[..j] == s[..j];
    ValuePrefix(Unspell(p), j);
  }

  /** One symbol more: the value read so far shifts up one place and takes
      the symbol's digit; if that does not fit, decoding overflows. */
  lemma DecodeStep(s: string, i: nat, x: nat)
    requires i < |s| && InAlphabet(s[..i])
    requires IsSymbol(s[i]) && x == CharDigit(s[i]).value
    ensures InAlphabet(s[..i + 1])
    ensures Value(Unspell(s[..i + 1])) == Value(Unspell(s[..i])) * BASE + x
    ensures Value(Unspell(s[..i])) * BASE + x > USIZE_MAX ==> DecodeSpec(s) == Err(Overflow)
  {
    UnspellSnoc(s, i);
    ValueSnoc(Unspell(s[..i]), x);
    if Value(Unspell(s[..i + 1])) > USIZE_MAX {
      DecodeOverflowPrefix(s, i + 1);
    }
  }

  /** Decodes `input` left to right: look the character up (a character
      outside the alphabet fails at once), then shift the accumulator by one
      place and add the digit, failing if either step leaves the usize range.
      The empty text decodes to zero. */
  method Decode(input: string) returns (r: Result<Usize>)
    ensures r == DecodeSpec(input)
  {
    var acc: Usize := 0;
    var i := 0;
    while i < |input|
      invariant i <= |input|
      invariant InAlphabet(input[..i])
      invariant acc == Value(Unspell(input[..i]))
    {
      var c := input[i];
      match ToNum(c) {
        case Err(e) =>
          DecodeAtFirstInvalid(input, i);
          return Err(e);
        case Ok(x) =>
          DecodeStep(input, i, x);
          match CheckedMul(acc, BASE) {
            case None =>
              return Err(Overflow);
            case Some(mul) =>
              match CheckedAdd(mul, x) {
                case None =>
                  return Err(Overflow);
                case Some(sum) =>
                  acc := sum;
              }
          }
      }
      i := i + 1;
    }
    assert input[..i] == input;
    DecodeAllValid(input);
    return Ok(acc);
  }
}
