/**
 * `normalize_arabic_numbers`: a character-wise translation of the Arabic-Indic
 * digits ٠١٢٣٤٥٦٧٨٩ to the ASCII digits 0123456789.
 */
module ArabicDigits {

  /** One of the ten Arabic-Indic digits U+0660–U+0669. */
  predicate IsArabicIndicDigit(c: char) {
    '٠' <= c <= '٩'
  }

  /** The translation table on one character. */
  function TranslateDigit(c: char): (d: char)
    ensures IsArabicIndicDigit(c) ==> '0' <= d <= '9' && d as int - '0' as int == c as int - '٠' as int
    ensures !IsArabicIndicDigit(c) ==> d == c
    ensures !IsArabicIndicDigit(d)
  {
    if IsArabicIndicDigit(c) then (c as int - '٠' as int + '0' as int) as char else c
  }

  /** `text.translate(str.maketrans('٠١٢٣٤٥٦٧٨٩', '0123456789'))`. */
  function NormalizeArabicNumbers(text: string): (r: string)
    ensures |r| == |text|
    ensures forall i :: 0 <= i < |text| ==> r[i] == TranslateDigit(text[i])
  {
    seq(|text|, i requires 0 <= i < |text| => TranslateDigit(text[i]))
  }

  /** The result holds no Arabic-Indic digit. */
  lemma NoArabicIndicDigitLeft(text: string)
    ensures forall i :: 0 <= i < |text| ==> !IsArabicIndicDigit(NormalizeArabicNumbers(text)[i])
  {
  }

  /** On a string without Arabic-Indic digits the translation changes nothing. */
  lemma {:induction false} IdentityWithoutArabicIndicDigits(text: string)
    requires forall i :: 0 <= i < |text| ==> !IsArabicIndicDigit(text[i])
    ensures NormalizeArabicNumbers(text) == text
  {
    var r := NormalizeArabicNumbers(text);
    assert forall i :: 0 <= i < |text| ==> r[i] == text[i];
  }

  /** Translating twice is translating once. */
  lemma {:induction false} Idempotent(text: string)
    ensures NormalizeArabicNumbers(NormalizeArabicNumbers(text)) == NormalizeArabicNumbers(text)
  {
    var r := NormalizeArabicNumbers(text);
    NoArabicIndicDigitLeft(text);
    IdentityWithoutArabicIndicDigits(r);
  }

  /** All ten digits, in order. */
  lemma TranslatesAllTen()
    ensures NormalizeArabicNumbers("٠١٢٣٤٥٦٧٨٩") == "0123456789"
  {
  }
}
