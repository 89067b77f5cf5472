/** `SudokuValidator.validate`, the input filter of every cell: the empty
    text, or a piece of the string "123456789". */
module Validator {

  /** The digits a cell accepts, in order. */
  const Digits: string := "123456789"

  /** `a` occurs in `b` as a contiguous piece, Python's `a in b` on strings. */
  predicate IsSubstring(a: string, b: string) {
    exists i :: 0 <= i <= |b| - |a| && Window(b, i, |a|) == a
  }

  /** The `n` characters of `b` starting at `i`. */
  function Window(b: string, i: int, n: int): (w: string)
    requires 0 <= i && 0 <= n && i + n <= |b|
    ensures |w| == n && forall k :: 0 <= k < n ==> w[k] == b[i + k]
  {
    b[i..i + n]
  }

  /** `validate`: Acceptable (true) or Invalid (false). */
  function Validate(text: string): (ok: bool)
    ensures |text| == 0 ==> ok
    ensures ok ==> |text| <= 9
  {
    |text| == 0 || IsSubstring(text, Digits)
  }

  /** `text` is a run of consecutive ascending characters from '1' up to at most '9'. */
  predicate AscendingRun(text: string) {
    && |text| > 0
    && '1' <= text[0]
    && text[|text| - 1] <= '9'
    && forall k :: 0 <= k < |text| - 1 ==> text[k + 1] as int == text[k] as int + 1
  }

  /** The i-th character of "123456789" is the digit i + 1. */
  lemma DigitsAt(i: int)
    requires 0 <= i < 9
    ensures Digits[i] as int == '1' as int + i
  {
    assert Digits == ['1', '2', '3', '4', '5', '6', '7', '8', '9'];
  }

  /** The filter accepts exactly the empty text and the ascending runs of digits. */
  lemma ValidateIff(text: string)
    ensures Validate(text) <==> |text| == 0 || AscendingRun(text)
  {
    if |text| > 0 && IsSubstring(text, Digits) {
      PieceIsRun(text);
    }
    if |text| > 0 && AscendingRun(text) {
      RunIsPiece(text);
    }
  }

  /** A non-empty piece of "123456789" is an ascending run. */
  lemma PieceIsRun(text: string)
    requires |text| > 0 && IsSubstring(text, Digits)
    ensures AscendingRun(text)
  {
    var n := |text|;
    var i :| 0 <= i <= 9 - n && Window(Digits, i, n) == text;
    forall k | 0 <= k < n
      ensures text[k] as int == '1' as int + i + k
    {
      assert text[k] == Digits[i + k];
      DigitsAt(i + k);
    }
  }

  /** An ascending run of digits is the piece of "123456789" starting at its first digit. */
  lemma RunIsPiece(text: string)
    requires AscendingRun(text)
    ensures IsSubstring(text, Digits)
  {
    var n := |text|;
    var i := text[0] as int - '1' as int;
    RunStep(text, n - 1);
    assert i + n <= 9;
    forall k | 0 <= k < n
      ensures Window(Digits, i, n)[k] == text[k]
    {
      RunStep(text, k);
      DigitsAt(i + k);
    }
    assert Window(Digits, i, n) == text;
  }

  /** Each character of an ascending run is the first one plus its offset. */
  lemma {:induction false} RunStep(text: string, k: int)
    requires AscendingRun(text) && 0 <= k < |text|
    ensures text[k] as int == text[0] as int + k
  {
    if k > 0 {
      RunStep(text, k - 1);
    }
  }

  /** A single character passes the filter exactly when it is a digit 1..9;
      "0" and letters are refused. */
  lemma SingleCharacter(ch: char)
    ensures Validate([ch]) <==> '1' <= ch <= '9'
  {
    ValidateIff([ch]);
  }
}
