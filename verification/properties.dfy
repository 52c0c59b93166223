/** Properties of the codec that relate several calls or whole families of
    inputs: the complete description of decoding's three outcomes, canonical
    text, leading zero symbols, the length of encoded text, and the examples
    the library documents. */
module Properties {
  import opened Types
  import opened Alphabet
  import opened Positional
  import opened Codec

  /** Some prefix made only of alphabet symbols denotes more than a usize
      holds. */
  predicate SomePrefixOverflows(s: string)
  {
    exists j :: 0 <= j <= |s| && InAlphabet(s[..j]) && Value(Unspell(s[..j])) > USIZE_MAX
  }

  /** Some character is outside the alphabet, every character before it is a
      symbol, and the value read up to it fits in a usize. */
  predicate InvalidBeforeOverflow(s: string)
  {
    exists k :: 0 <= k < |s| && !IsSymbol(s[k]) && InAlphabet(s[..k])
                && Value(Unspell(s[..k])) <= USIZE_MAX
  }

  /** Decoding fails with `Overflow` exactly when some prefix of symbols does
      not fit; no character outside the alphabet comes before that point. */
  lemma DecodeOverflowIff(s: string)
    ensures DecodeSpec(s) == Err(Overflow) <==> SomePrefixOverflows(s)
  {
    var k := FirstInvalid(s);
    assert InAlphabet(s[..k]);
    if SomePrefixOverflows(s) {
      var j :| 0 <= j <= |s| && InAlphabet(s[..j]) && Value(Unspell(s[..j])) > USIZE_MAX;
      DecodeOverflowPrefix(s, j);
    }
  }

  /** Decoding fails with `NonAlphanumeric` exactly when a character outside
      the alphabet is reached while the value read so far still fits. */
  lemma DecodeNonAlphanumericIff(s: string)
    ensures DecodeSpec(s) == Err(NonAlphanumeric) <==> InvalidBeforeOverflow(s)
  {
    var k := FirstInvalid(s);
    assert InAlphabet(s[..k]);
    if InvalidBeforeOverflow(s) {
      var i :| 0 <= i < |s| && !IsSymbol(s[i]) && InAlphabet(s[..i])
               && Value(Unspell(s[..i])) <= USIZE_MAX;
      DecodeAtFirstInvalid(s, i);
    }
  }

  /** Decoding succeeds exactly when every character is a symbol and the value
      of the whole text fits, and then it yields that value. */
  lemma DecodeOkIff(s: string)
    ensures DecodeSpec(s).Ok? <==> InAlphabet(s) && Value(Unspell(s)) <= USIZE_MAX
    ensures DecodeSpec(s).Ok? ==> DecodeSpec(s).value == Value(Unspell(s))
  {
    if InAlphabet(s) {
      assert s[..|s|] == s;
      FirstInvalidAt(s, |s|);
    }
  }

  /** Decoding text with no leading zero symbol and re-encoding the value
      gives the text back. */
  lemma CanonicalRoundTrip(s: string)
    requires InAlphabet(s) && (|s| == 0 || s[0] != 'A')
    requires DecodeSpec(s).Ok?
    ensures Spell(Digits(DecodeSpec(s).value)) == s
  {
    DecodeOkIff(s);
    var ds := Unspell(s);
    if |s| > 0 {
      CharDigitInverse(s[0]);
      assert ds[0] != 0;
    }
    DigitsOfValue(ds);
    SpellOfUnspell(s);
  }

  /** `s` without its leading zero symbols: what remains after every leading
      `'A'` is dropped. */
  function StripA(s: string): (r: string)
    ensures |r| <= |s| && r == s[|s| - |r|..]
    ensures |r| == 0 || r[0] != 'A'
    ensures forall i :: 0 <= i < |s| - |r| ==> s[i] == 'A'
  {
    if |s| > 0 && s[0] == 'A' then StripA(s[1..]) else s
  }

  /** Decoding any valid text that fits and re-encoding the value gives the
      canonical form of the text: the text without its leading zero
      symbols. */
  lemma {:induction false} GeneralCanonical(s: string)
    requires InAlphabet(s) && DecodeSpec(s).Ok?
    ensures Spell(Digits(DecodeSpec(s).value)) == StripA(s)
    decreases |s|
  {
    if |s| > 0 && s[0] == 'A' {
      var t := s[1..];
      assert s == "A" + t;
      assert InAlphabet(t) by {
        forall i | 0 <= i < |t|
          ensures IsSymbol(t[i])
        {
          assert t[i] == s[i + 1];
        }
      }
      DecodeLeadingZero(t);
      GeneralCanonical(t);
    } else {
      CanonicalRoundTrip(s);
    }
  }

  /** A leading zero symbol never changes what decoding yields, whether a value
      or an error. */
  lemma DecodeLeadingZero(s: string)
    ensures DecodeSpec("A" + s) == DecodeSpec(s)
  {
    var t := "A" + s;
    var k := FirstInvalid(s);
    assert IsSymbol('A');
    assert t[1..] == s;
    assert FirstInvalid(t) == k + 1;
    assert InAlphabet(s[..k]);
    assert t[..k + 1] == "A" + s[..k];
    UnspellLeadingZero(s[..k]);
    ValueLeadingZero(Unspell(s[..k]));
  }

  /** A leading zero symbol reads as a leading zero digit. */
  lemma UnspellLeadingZero(s: string)
    requires InAlphabet(s)
    ensures InAlphabet("A" + s)
    ensures Unspell("A" + s) == [0] + Unspell(s)
  {
    var t := "A" + s;
    assert IsSymbol('A');
    assert forall i :: 0 < i < |t| ==> t[i] == s[i - 1];
    var a := Unspell(t);
    var b := [0] + Unspell(s);
    forall i | 0 <= i < |t|
      ensures a[i] == b[i]
    {
      if i > 0 {
        assert t[i] == s[i - 1];
      }
    }
  }

  /** Each of the 62 symbols on its own decodes to its digit. */
  lemma DecodeSingleSymbol(d: nat)
    requires d < BASE
    ensures DecodeSpec([ToChar(d).value]) == Ok(d)
  {
    var s := [ToChar(d).value];
    DigitCharInverse(d);
    assert Unspell(s) == [d];
    DecodeAllValid(s);
  }

  /** The encoding of a positive `n` has `k` characters exactly when
      62^(k-1) <= n < 62^k; zero encodes as the empty text. */
  lemma EncodedLength(n: Usize)
    ensures n == 0 ==> |Spell(Digits(n))| == 0
    ensures n > 0 ==> Pow(BASE, |Spell(Digits(n))| - 1) <= n < Pow(BASE, |Spell(Digits(n))|)
    ensures forall k: nat :: 0 < k && Pow(BASE, k - 1) <= n < Pow(BASE, k) ==> |Spell(Digits(n))| == k
  {
    if n > 0 {
      DigitsLength(n);
    }
  }

  /** A larger number never has a shorter encoding. */
  lemma EncodedLengthMonotone(a: Usize, b: Usize)
    requires a <= b
    ensures |Spell(Digits(a))| <= |Spell(Digits(b))|
  {
    DigitsLengthMonotone(a, b);
  }

  /** Zero encodes as the empty text: the division loop never runs. */
  lemma EncodeZeroExample()
    ensures Spell(Digits(0)) == ""
  {
  }

  /** The empty text decodes to zero: the accumulator is never touched. */
  lemma DecodeEmptyExample()
    ensures DecodeSpec("") == Ok(0)
  {
    DecodeAllValid("");
  }

  /** The documented encoding 7 -> "H". */
  lemma EncodeSevenExample()
    ensures Spell(Digits(7)) == "H"
  {
    assert Digits(7) == [7];
    assert DigitChar(7) == 'H';
  }

  /** The documented decoding "H" -> 7. */
  lemma DecodeSevenExample()
    ensures DecodeSpec("H") == Ok(7)
  {
    DecodeSingleSymbol(7);
    assert ToChar(7).value == 'H';
  }

  /** The documented encoding 123 -> "B9", as 123 = 1 * 62 + 61. */
  lemma EncodeOneTwentyThreeExample()
    ensures Spell(Digits(123)) == "B9"
  {
    assert Digits(1) == [1];
    assert Digits(123) == [1] + [61];
    assert DigitChar(1) == 'B' && DigitChar(61) == '9';
    assert Spell([1] + [61]) == [DigitChar(1), DigitChar(61)];
  }

  /** The documented decoding "B9" -> 123. */
  lemma DecodeOneTwentyThreeExample()
    ensures DecodeSpec("B9") == Ok(123)
  {
    EncodeOneTwentyThreeExample();
    RoundTrip(123);
  }

  /** The documented rejection of a character outside the alphabet. */
  lemma DecodeNonAlphanumericExample()
    ensures DecodeSpec("Base*62") == Err(NonAlphanumeric)
  {
    var bad := "Base*62";
    assert bad[..4] == "Base";
    assert InAlphabet("Base");
    ValueBounds(Unspell("Base"));
    assert Pow(BASE, 4) == 14776336;
    DecodeAtFirstInvalid(bad, 4);
  }

  /** The documented overflow: after the leading zero symbol, twelve symbols
      led by a non-zero one already denote at least 62^11 > 2^64 - 1. */
  lemma DecodeOverflowExample()
    ensures DecodeSpec("AStringTooLongCausesTheOverflowError") == Err(Overflow)
  {
    OverflowExampleHead();
    OverflowExamplePrefix();
    DecodeOverflowPrefix("AStringTooLongCausesTheOverflowError", 13);
  }

  /** The overflow example starts with the thirteen symbols
      "AStringTooLon". */
  lemma OverflowExampleHead()
    ensures |"AStringTooLongCausesTheOverflowError"| == 36
    ensures "AStringTooLongCausesTheOverflowError"[..13] == "AStringTooLon"
  {
    var long := "AStringTooLongCausesTheOverflowError";
    assert long == "AStringTooLon" + "gCausesTheOverflowError";
  }

  /** The first thirteen symbols of the overflow example do not fit. */
  lemma OverflowExamplePrefix()
    ensures InAlphabet("AStringTooLon")
    ensures Value(Unspell("AStringTooLon")) > USIZE_MAX
  {
    var tail := "StringTooLon";
    assert "AStringTooLon" == "A" + tail;
    assert InAlphabet(tail);
    UnspellLeadingZero(tail);
    ValueLeadingZero(Unspell(tail));
    assert Unspell(tail)[0] == 18;
    ValueBounds(Unspell(tail));
    PowElevenBound();
  }

  /** 62^11 = 52036560683837093888 exceeds 2^64 - 1. */
  lemma PowElevenBound()
    ensures Pow(BASE, 11) > USIZE_MAX
  {
    assert Pow(BASE, 4) == 14776336;
    assert Pow(BASE, 8) == Pow(BASE, 4) * Pow(BASE, 4) by {
      PowAdd(BASE, 4, 4);
    }
    assert Pow(BASE, 11) == Pow(BASE, 8) * Pow(BASE, 3) by {
      PowAdd(BASE, 8, 3);
    }
  }

  /** Powers of one base multiply by adding exponents. */
  lemma {:induction false} PowAdd(b: nat, x: nat, y: nat)
    ensures Pow(b, x + y) == Pow(b, x) * Pow(b, y)
    decreases x
  {
    if x > 0 {
      PowAdd(b, x - 1, y);
      assert Pow(b, x + y) == b * Pow(b, x - 1 + y);
    }
  }
}
