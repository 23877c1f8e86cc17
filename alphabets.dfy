/**
 * The two character tables of the link codec (src/config.py:7-12) and the
 * facts the codec needs about them: their sizes, that neither repeats a
 * character, that the display alphabet starts with a space and that the
 * transport alphabet has no ':'.
 *
 * Each table is written as the concatenation of short literal pieces, in the
 * order in which the source spells it out, so that distinctness can be proved
 * piece by piece (contiguous code-point runs, and two short punctuation runs).
 */
module Alphabets {

  // ---------------------------------------------------------------------------
  // Pieces

  const SYMBOL_MARKS: string := "@$%&"
  const DIGITS: string := "0123456789"
  const UPPER: string := "ABCDEFGHIJKLMNOPQRSTUVWXYZ"
  const LOWER: string := "abcdefghijklmnopqrstuvwxyz"

  // The punctuation head of ALPHABET; "{\}" in the Python literal is an
  // unrecognised escape, so it stands for a backslash followed by '}'.
  const PUNCT_A: string := " !?@#$%&№()[/]{\\}"
  const PUNCT_B: string := "<|>^_\"'`*+-=~.,:;"

  // Cyrillic capitals and small letters; 'Ё' and 'ё' lie outside the runs.
  const CYR_HEAD: string := "АБВГДЕ"
  const CYR_YO: string := "Ё"
  const CYR_MID: string := "ЖЗИЙКЛМНОПРСТУФХЦЧШЩЪЫЬЭЮЯабвгде"
  const CYR_YO_SMALL: string := "ё"
  const CYR_TAIL: string := "жзийклмнопрстуфхцчшщъыьэюя"

  // ---------------------------------------------------------------------------
  // The tables

  /** Transport alphabet (SYMBOLS): the characters of an encoded token. */
  const SYMBOLS: string := SYMBOL_MARKS + DIGITS + UPPER + LOWER

  /** Display alphabet (ALPHABET): the characters of ids and folder names. */
  const ALPHABET: string :=
    PUNCT_A + PUNCT_B + DIGITS + UPPER + LOWER
    + CYR_HEAD + CYR_YO + CYR_MID + CYR_YO_SMALL + CYR_TAIL

  // ---------------------------------------------------------------------------
  // Vocabulary

  predicate Distinct(s: string) {
    forall i, j :: 0 <= i < j < |s| ==> s[i] != s[j]
  }

  predicate Within(s: string, lo: char, hi: char) {
    forall i :: 0 <= i < |s| ==> lo <= s[i] <= hi
  }

  predicate Outside(s: string, lo: char, hi: char) {
    forall i :: 0 <= i < |s| ==> s[i] < lo || hi < s[i]
  }

  /** No character of x occurs in y. */
  predicate Apart(x: string, y: string) {
    forall i, j :: 0 <= i < |x| && 0 <= j < |y| ==> x[i] != y[j]
  }

  /** A run of consecutive code points. */
  predicate Consecutive(s: string) {
    forall i :: 0 <= i < |s| ==> s[i] as int == s[0] as int + i
  }

  // ---------------------------------------------------------------------------
  // Generic lemmas

  lemma ConsecutiveDistinct(s: string)
    requires |s| > 0 && Consecutive(s)
    ensures Distinct(s) && Within(s, s[0], s[|s| - 1])
  {
  }

  lemma DistinctConcat(x: string, y: string)
    requires Distinct(x) && Distinct(y) && Apart(x, y)
    ensures Distinct(x + y)
  {
    var s := x + y;
    forall i, j | 0 <= i < j < |s| ensures s[i] != s[j] {
      if j < |x| {
        assert s[i] == x[i] && s[j] == x[j];
      } else if i >= |x| {
        assert s[i] == y[i - |x|] && s[j] == y[j - |x|];
      } else {
        assert s[i] == x[i] && s[j] == y[j - |x|];
      }
    }
  }

  lemma ApartConcatRight(x: string, y: string, z: string)
    requires Apart(x, y) && Apart(x, z)
    ensures Apart(x, y + z)
  {
    var s := y + z;
    forall i, j | 0 <= i < |x| && 0 <= j < |s| ensures x[i] != s[j] {
      if j < |y| { assert s[j] == y[j]; } else { assert s[j] == z[j - |y|]; }
    }
  }

  lemma ApartConcatLeft(x: string, y: string, z: string)
    requires Apart(x, z) && Apart(y, z)
    ensures Apart(x + y, z)
  {
    var s := x + y;
    forall i, j | 0 <= i < |s| && 0 <= j < |z| ensures s[i] != z[j] {
      if i < |x| { assert s[i] == x[i]; } else { assert s[i] == y[i - |x|]; }
    }
  }

  lemma ApartSymmetric(x: string, y: string)
    requires Apart(x, y)
    ensures Apart(y, x)
  {
  }

  lemma ApartByRange(x: string, y: string, lo: char, hi: char)
    requires Outside(x, lo, hi) && Within(y, lo, hi)
    ensures Apart(x, y)
  {
  }

  lemma WithinOutside(s: string, lo: char, hi: char, lo': char, hi': char)
    requires Within(s, lo, hi) && (hi < lo' || hi' < lo)
    ensures Outside(s, lo', hi')
  {
  }

  lemma NotInApart(c: char, y: string)
    requires Apart([c], y)
    ensures c !in y
  {
    assert [c][0] == c;
    assert forall j :: 0 <= j < |y| ==> y[j] != c;
  }

  // ---------------------------------------------------------------------------
  // The concrete tables

  lemma DigitsRun()
    ensures Distinct(DIGITS) && Within(DIGITS, '0', '9')
  {
    assert Consecutive(DIGITS);
    ConsecutiveDistinct(DIGITS);
  }

  lemma UpperRun()
    ensures Distinct(UPPER) && Within(UPPER, 'A', 'Z')
  {
    assert Consecutive(UPPER);
    ConsecutiveDistinct(UPPER);
  }

  lemma LowerRun()
    ensures Distinct(LOWER) && Within(LOWER, 'a', 'z')
  {
    assert Consecutive(LOWER);
    ConsecutiveDistinct(LOWER);
  }

  lemma CyrillicHeadRun()
    ensures Distinct(CYR_HEAD) && Within(CYR_HEAD, 'А', 'Е')
  {
    assert Consecutive(CYR_HEAD);
    ConsecutiveDistinct(CYR_HEAD);
  }

  lemma CyrillicMidRun()
    ensures Distinct(CYR_MID) && Within(CYR_MID, 'Ж', 'е')
  {
    assert Consecutive(CYR_MID);
    ConsecutiveDistinct(CYR_MID);
  }

  lemma CyrillicTailRun()
    ensures Distinct(CYR_TAIL) && Within(CYR_TAIL, 'ж', 'я')
  {
    assert Consecutive(CYR_TAIL);
    ConsecutiveDistinct(CYR_TAIL);
  }

  /** Digits and Latin letters, in SYMBOLS order: distinct. */
  lemma LatinDistinct()
    ensures Distinct(DIGITS + UPPER + LOWER)
  {
    DigitsRun();
    UpperRun();
    LowerRun();
    WithinOutside(DIGITS, '0', '9', 'A', 'Z');
    ApartByRange(DIGITS, UPPER, 'A', 'Z');
    DistinctConcat(DIGITS, UPPER);
    WithinOutside(DIGITS, '0', '9', 'a', 'z');
    WithinOutside(UPPER, 'A', 'Z', 'a', 'z');
    ApartByRange(DIGITS, LOWER, 'a', 'z');
    ApartByRange(UPPER, LOWER, 'a', 'z');
    ApartConcatLeft(DIGITS, UPPER, LOWER);
    DistinctConcat(DIGITS + UPPER, LOWER);
  }

  /** The Cyrillic part of ALPHABET: distinct, between 'Ё' and 'ё'. */
  lemma CyrillicDistinct()
    ensures Distinct(CYR_HEAD + CYR_YO + CYR_MID + CYR_YO_SMALL + CYR_TAIL)
    ensures Within(CYR_HEAD + CYR_YO + CYR_MID + CYR_YO_SMALL + CYR_TAIL, 'Ё', 'ё')
  {
    CyrillicHeadRun();
    CyrillicMidRun();
    CyrillicTailRun();
    var c1 := CYR_HEAD + CYR_YO;
    assert Outside(CYR_YO, 'А', 'Е');
    ApartByRange(CYR_YO, CYR_HEAD, 'А', 'Е');
    ApartSymmetric(CYR_YO, CYR_HEAD);
    DistinctConcat(CYR_HEAD, CYR_YO);
    assert Within(c1, 'Ё', 'Е');
    var c2 := c1 + CYR_MID;
    WithinOutside(c1, 'Ё', 'Е', 'Ж', 'е');
    ApartByRange(c1, CYR_MID, 'Ж', 'е');
    DistinctConcat(c1, CYR_MID);
    assert Within(c2, 'Ё', 'е');
    var c3 := c2 + CYR_YO_SMALL;
    WithinOutside(c2, 'Ё', 'е', 'ё', 'ё');
    ApartByRange(c2, CYR_YO_SMALL, 'ё', 'ё');
    DistinctConcat(c2, CYR_YO_SMALL);
    WithinOutside(c2, 'Ё', 'е', 'ж', 'я');
    ApartByRange(c2, CYR_TAIL, 'ж', 'я');
    assert Outside(CYR_YO_SMALL, 'ж', 'я');
    ApartByRange(CYR_YO_SMALL, CYR_TAIL, 'ж', 'я');
    ApartConcatLeft(c2, CYR_YO_SMALL, CYR_TAIL);
    DistinctConcat(c3, CYR_TAIL);
    assert Within(c3 + CYR_TAIL, 'Ё', 'ё');
  }

  lemma PunctuationPiecesDistinct()
    ensures Distinct(PUNCT_A) && Distinct(PUNCT_B)
  {
  }

  lemma PunctuationPiecesApart()
    ensures Apart(PUNCT_A, PUNCT_B)
  {
    PunctuationApartLeft();
    PunctuationApartRight();
    assert PUNCT_B == "<|>^_\"'`" + "*+-=~.,:;";
    ApartConcatRight(PUNCT_A, "<|>^_\"'`", "*+-=~.,:;");
  }

  lemma PunctuationApartLeft() ensures Apart(PUNCT_A, "<|>^_\"'`") { }
  lemma PunctuationApartRight() ensures Apart(PUNCT_A, "*+-=~.,:;") { }

  lemma PunctuationDistinct()
    ensures Distinct(PUNCT_A + PUNCT_B)
  {
    PunctuationPiecesDistinct();
    PunctuationPiecesApart();
    DistinctConcat(PUNCT_A, PUNCT_B);
  }

  /** No punctuation character is a digit, a Latin letter or a Cyrillic letter. */
  lemma PunctuationOutside()
    ensures Outside(PUNCT_A + PUNCT_B, '0', '9')
    ensures Outside(PUNCT_A + PUNCT_B, 'A', 'Z')
    ensures Outside(PUNCT_A + PUNCT_B, 'a', 'z')
    ensures Outside(PUNCT_A + PUNCT_B, 'Ё', 'ё')
  {
    PunctuationOutsideDigits();
    PunctuationOutsideUpper();
    PunctuationOutsideLower();
    PunctuationOutsideCyrillic();
  }

  lemma PunctuationOutsideDigits() ensures Outside(PUNCT_A + PUNCT_B, '0', '9') { }
  lemma PunctuationOutsideUpper() ensures Outside(PUNCT_A + PUNCT_B, 'A', 'Z') { }
  lemma PunctuationOutsideLower() ensures Outside(PUNCT_A + PUNCT_B, 'a', 'z') { }
  lemma PunctuationOutsideCyrillic() ensures Outside(PUNCT_A + PUNCT_B, 'Ё', 'ё') { }

  lemma SymbolMarksFacts()
    ensures Distinct(SYMBOL_MARKS)
    ensures Outside(SYMBOL_MARKS, '0', '9') && Outside(SYMBOL_MARKS, 'A', 'Z') && Outside(SYMBOL_MARKS, 'a', 'z')
  {
  }

  lemma SymbolsDistinct()
    ensures |SYMBOLS| == 66
    ensures Distinct(SYMBOLS)
  {
    DigitsRun();
    UpperRun();
    LowerRun();
    LatinDistinct();
    SymbolMarksFacts();
    ApartByRange(SYMBOL_MARKS, DIGITS, '0', '9');
    ApartByRange(SYMBOL_MARKS, UPPER, 'A', 'Z');
    ApartByRange(SYMBOL_MARKS, LOWER, 'a', 'z');
    ApartConcatRight(SYMBOL_MARKS, DIGITS, UPPER);
    ApartConcatRight(SYMBOL_MARKS, DIGITS + UPPER, LOWER);
    DistinctConcat(SYMBOL_MARKS, DIGITS + UPPER + LOWER);
    assert SYMBOLS == SYMBOL_MARKS + (DIGITS + UPPER + LOWER);
  }

  /** ':' is not a transport character, so it can separate the halves of a token. */
  lemma ColonNotSymbol()
    ensures ':' !in SYMBOLS
  {
    DigitsRun();
    UpperRun();
    LowerRun();
    // ':' sits between '9' and 'A', so no run contains it
    assert Outside(":", '0', '9') && Outside(":", 'A', 'Z') && Outside(":", 'a', 'z');
    ApartByRange(":", DIGITS, '0', '9');
    ApartByRange(":", UPPER, 'A', 'Z');
    ApartByRange(":", LOWER, 'a', 'z');
    assert Apart(":", SYMBOL_MARKS);
    ApartConcatRight(":", SYMBOL_MARKS, DIGITS);
    ApartConcatRight(":", SYMBOL_MARKS + DIGITS, UPPER);
    ApartConcatRight(":", SYMBOL_MARKS + DIGITS + UPPER, LOWER);
    assert [':'] == ":";
    NotInApart(':', SYMBOLS);
  }

  lemma AlphabetShape()
    ensures |ALPHABET| == 162
    ensures ALPHABET[0] == ' '
  {
  }

  lemma AlphabetDistinct()
    ensures Distinct(ALPHABET)
  {
    var p := PUNCT_A + PUNCT_B;
    var l := DIGITS + UPPER + LOWER;
    var c := CYR_HEAD + CYR_YO + CYR_MID + CYR_YO_SMALL + CYR_TAIL;
    PunctuationDistinct();
    LatinDistinct();
    CyrillicDistinct();
    PunctuationLatinCyrillicApart();
    DistinctConcat(p, l);
    ApartConcatLeft(p, l, c);
    DistinctConcat(p + l, c);
    assert ALPHABET == p + l + c;
  }

  lemma PunctuationLatinCyrillicApart()
    ensures Apart(PUNCT_A + PUNCT_B, DIGITS + UPPER + LOWER)
    ensures Apart(PUNCT_A + PUNCT_B, CYR_HEAD + CYR_YO + CYR_MID + CYR_YO_SMALL + CYR_TAIL)
    ensures Apart(DIGITS + UPPER + LOWER, CYR_HEAD + CYR_YO + CYR_MID + CYR_YO_SMALL + CYR_TAIL)
  {
    var p := PUNCT_A + PUNCT_B;
    var l := DIGITS + UPPER + LOWER;
    var c := CYR_HEAD + CYR_YO + CYR_MID + CYR_YO_SMALL + CYR_TAIL;
    DigitsRun();
    UpperRun();
    LowerRun();
    CyrillicDistinct();
    PunctuationOutside();
    ApartByRange(p, DIGITS, '0', '9');
    ApartByRange(p, UPPER, 'A', 'Z');
    ApartByRange(p, LOWER, 'a', 'z');
    ApartByRange(p, c, 'Ё', 'ё');
    ApartConcatRight(p, DIGITS, UPPER);
    ApartConcatRight(p, DIGITS + UPPER, LOWER);
    WithinOutside(c, 'Ё', 'ё', '0', '9');
    WithinOutside(c, 'Ё', 'ё', 'A', 'Z');
    WithinOutside(c, 'Ё', 'ё', 'a', 'z');
    ApartByRange(c, DIGITS, '0', '9');
    ApartByRange(c, UPPER, 'A', 'Z');
    ApartByRange(c, LOWER, 'a', 'z');
    ApartConcatRight(c, DIGITS, UPPER);
    ApartConcatRight(c, DIGITS + UPPER, LOWER);
    ApartSymmetric(c, l);
  }
}
