/** The ISBN acceptance rule applied when a book is added from the shell: the
    ISBN is typed twice, and the entry is accepted only when both copies agree,
    it is 10 to 13 characters long, and every character is a digit. A mismatch and
    a wrong length each print an error message; a non-digit prints nothing. In
    every failing case the shell asks again. */
module IsbnEntry {

  /** The outcome of one attempt: accepted, or which check failed first.
      NotDigits has no error message of its own. */
  datatype Verdict = Accepted | Mismatch | BadLength | NotDigits

  /** Character.isDigit, restricted to the ASCII digits. */
  predicate IsDigit(c: char)
  {
    '0' <= c <= '9'
  }

  /** The three conditions, as stated in the prompt "10-13 digits, digits only". */
  predicate Acceptable(isbn: string, confirm: string)
  {
    isbn == confirm && 10 <= |isbn| <= 13 && forall i :: 0 <= i < |isbn| ==> IsDigit(isbn[i])
  }

  /** One pass of the entry loop: the checks in the order the shell makes them,
      the digit check scanning with a flag and stopping at the first non-digit. */
  method CheckIsbn(isbn: string, confirm: string) returns (v: Verdict)
    ensures v == Accepted <==> Acceptable(isbn, confirm)
    ensures v == Mismatch <==> isbn != confirm
    ensures v == BadLength <==> isbn == confirm && (|isbn| < 10 || |isbn| > 13)
    ensures v == NotDigits <==>
      (isbn == confirm && 10 <= |isbn| <= 13 && exists i :: 0 <= i < |isbn| && !IsDigit(isbn[i]))
  {
    if isbn != confirm {
      return Mismatch;
    }
    if |isbn| < 10 || |isbn| > 13 {
      return BadLength;
    }
    var isValid := true;
    var i := 0;
    while i < |isbn|
      invariant 0 <= i <= |isbn|
      invariant isValid
      invariant forall j :: 0 <= j < i ==> IsDigit(isbn[j])
    {
      if !IsDigit(isbn[i]) {
        isValid := false;
        break;
      }
      i := i + 1;
    }
    v := if isValid then Accepted else NotDigits;
  }
}
