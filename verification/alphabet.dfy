/** The fixed 62-symbol alphabet of the codec and the two lookups over it:
    digit to symbol (`to_char`) and symbol to digit (`to_num`). */
module Alphabet {
  import opened Types

  /** Digit `i` is written as `ALPHANUMERIC[i]`: upper case letters are 0-25, lower
      case letters 26-51 and decimal digits 52-61. */
  const ALPHANUMERIC: string := "ABCDEFGHIJKLMNOPQRSTUVWXYZabcdefghijklmnopqrstuvwxyz0123456789"

  /** The radix. */
  const BASE: nat := 62

  // ---------------------------------------------------------------------------
  // Reference definition of the alphabet by character ranges
  // ---------------------------------------------------------------------------

  /** The symbol of digit `d`, computed from the three character ranges rather
      than read from the table. */
  function DigitChar(d: nat): char
    requires d < BASE
  {
    if d < 26 then ('A' as int + d) as char
    else if d < 52 then ('a' as int + (d - 26)) as char
    else ('0' as int + (d - 52)) as char
  }

  /** The digit a symbol stands for, computed from the character ranges; `None`
      for every character outside them. */
  function CharDigit(c: char): Option<nat>
  {
    if 'A' <= c <= 'Z' then Some(c as int - 'A' as int)
    else if 'a' <= c <= 'z' then Some(c as int - 'a' as int + 26)
    else if '0' <= c <= '9' then Some(c as int - '0' as int + 52)
    else None
  }

  /** Reading back the symbol of a digit gives the digit. */
  lemma DigitCharInverse(d: nat)
    requires d < BASE
    ensures CharDigit(DigitChar(d)) == Some(d)
  {
  }

  /** Writing the digit of a symbol gives the symbol back. */
  lemma CharDigitInverse(c: char)
    ensures CharDigit(c).Some? ==> CharDigit(c).value < BASE && DigitChar(CharDigit(c).value) == c
  {
  }

  // The three runs the table is made of.
  const UPPER: string := "ABCDEFGHIJKLMNOPQRSTUVWXYZ"
  const LOWER: string := "abcdefghijklmnopqrstuvwxyz"
  const DECIMAL: string := "0123456789"

  /** The table is the three runs laid end to end. */
  lemma AlphabetRuns()
    ensures ALPHANUMERIC == UPPER + LOWER + DECIMAL
  {
    AlphabetEndsInDecimal();
    LettersRun();
  }

  lemma AlphabetEndsInDecimal()
    ensures ALPHANUMERIC == "ABCDEFGHIJKLMNOPQRSTUVWXYZabcdefghijklmnopqrstuvwxyz" + DECIMAL
  {
  }

  lemma LettersRun()
    ensures "ABCDEFGHIJKLMNOPQRSTUVWXYZabcdefghijklmnopqrstuvwxyz" == UPPER + LOWER
  {
    assert "ABCDEFGHIJKLMNOPQRSTUVWXYZabcdefghijklmnopqrstuvwxyz"
        == "ABCDEFGHIJKLMNOPQRSTUVWXYZ" + LOWER;
  }

  /** Each run holds consecutive characters from its first one. */
  lemma UpperRun()
    ensures forall i :: 0 <= i < 26 ==> UPPER[i] == ('A' as int + i) as char
  {
  }

  lemma LowerRun()
    ensures forall i :: 0 <= i < 26 ==> LOWER[i] == ('a' as int + i) as char
  {
  }

  lemma DecimalRun()
    ensures forall i :: 0 <= i < 10 ==> DECIMAL[i] == ('0' as int + i) as char
  {
  }

  /** The table agrees with the range-based definition at every index. */
  lemma AlphabetByRanges()
    ensures |ALPHANUMERIC| == BASE
    ensures forall i :: 0 <= i < BASE ==> ALPHANUMERIC[i] == DigitChar(i)
  {
    AlphabetRuns();
    UpperRun();
    LowerRun();
    DecimalRun();
    forall i | 0 <= i < BASE
      ensures ALPHANUMERIC[i] == DigitChar(i)
    {
      if i < 26 {
        assert ALPHANUMERIC[i] == UPPER[i];
      } else if i < 52 {
        assert ALPHANUMERIC[i] == LOWER[i - 26];
      } else {
        assert ALPHANUMERIC[i] == DECIMAL[i - 52];
      }
    }
  }

  /** The alphabet has 62 pairwise distinct symbols. */
  lemma AlphabetDistinct()
    ensures |ALPHANUMERIC| == BASE
    ensures forall i, j :: 0 <= i < j < BASE ==> ALPHANUMERIC[i] != ALPHANUMERIC[j]
  {
    AlphabetByRanges();
    forall i, j | 0 <= i < j < BASE
      ensures ALPHANUMERIC[i] != ALPHANUMERIC[j]
    {
      DigitCharInverse(i);
      DigitCharInverse(j);
    }
  }

  /** `c` is one of the 62 symbols, judged by the character ranges. */
  predicate IsSymbol(c: char)
  {
    CharDigit(c).Some?
  }

  /** The range-based judgement agrees with membership in the table. */
  lemma IsSymbolInTable(c: char)
    ensures IsSymbol(c) <==> c in ALPHANUMERIC
  {
    AlphabetByRanges();
    if IsSymbol(c) {
      CharDigitInverse(c);
      assert ALPHANUMERIC[CharDigit(c).value] == c;
    } else if c in ALPHANUMERIC {
      var i :| 0 <= i < |ALPHANUMERIC| && ALPHANUMERIC[i] == c;
      DigitCharInverse(i);
    }
  }

  // ---------------------------------------------------------------------------
  // The lookups of the codec
  // ---------------------------------------------------------------------------

  /** The `num`-th character of the table, or `None` past its end. */
  function ToChar(num: nat): (r: Option<char>)
    ensures r.Some? <==> num < BASE
    ensures r.Some? ==> r.value == DigitChar(num)
  {
    AlphabetByRanges();
    if num < |ALPHANUMERIC| then Some(ALPHANUMERIC[num]) else None
  }

  /** Position of the first occurrence of `c` in `s`, scanning from the front. */
  function IndexOf(s: string, c: char): (r: Option<nat>)
    ensures r.None? <==> c !in s
    ensures r.Some? ==> r.value < |s| && s[r.value] == c
    ensures r.Some? ==> forall j :: 0 <= j < r.value ==> s[j] != c
  {
    if |s| == 0 then None
    else if s[0] == c then Some(0)
    else
      match IndexOf(s[1..], c)
      case None => None
      case Some(i) => Some(i + 1)
  }

  /** The digit a character stands for: its position in the table, or
      `NonAlphanumeric` when the character is not in it. Every symbol is one
      byte wide, so the byte offset found by the search is also the position.
      The result agrees with the range-based reading of the character: the
      ASCII letters and decimal digits map to their place in the three runs,
      and every other character is rejected. */
  function ToNum(c: char): (r: Result<nat>)
    ensures r.Ok? <==> IsSymbol(c)
    ensures r.Ok? ==> r.value < BASE && r.value == CharDigit(c).value && DigitChar(r.value) == c
    ensures r.Err? ==> r.error == NonAlphanumeric
  {
    var found := IndexOf(ALPHANUMERIC, c);
    ToNumFindsTable(c);
    CharDigitInverse(c);
    if found.Some? then Ok(found.value) else Err(NonAlphanumeric)
  }

  /** What the search in the table finds for `c`, read through the ranges:
      the position of `c` exactly when `c` is in a range. */
  lemma ToNumFindsTable(c: char)
    ensures IndexOf(ALPHANUMERIC, c).Some? <==> IsSymbol(c)
    ensures IndexOf(ALPHANUMERIC, c).Some? ==> IndexOf(ALPHANUMERIC, c).value == CharDigit(c).value
  {
    AlphabetDistinct();
    AlphabetByRanges();
    IsSymbolInTable(c);
    match IndexOf(ALPHANUMERIC, c)
    case Some(i) =>
      DigitCharInverse(i);
    case None =>
  }

  /** Digit to symbol and back gives the digit. */
  lemma ToNumOfToChar(i: nat)
    requires i < BASE
    ensures ToChar(i).Some? && ToNum(ToChar(i).value) == Ok(i)
  {
    DigitCharInverse(i);
  }

  /** Symbol to digit and back gives the symbol. */
  lemma ToCharOfToNum(c: char)
    requires c in ALPHANUMERIC
    ensures ToNum(c).Ok? && ToChar(ToNum(c).value) == Some(c)
  {
    IsSymbolInTable(c);
  }
}
