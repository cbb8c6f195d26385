/** Octets of the wire format, and the error numbers the buffer reports.
    An octet is the Dafny character with the same code.  Nothing below looks at a
    character beyond its code, so a statement over all characters covers all 256 octets. */
module Octets {

  const EINTR := 4
  const ENOENT := 2
  const EAGAIN := 11
  const EINVAL := 22

  const CONTINUE := ';'

  predicate Blank(c: char) {
    c == ' ' || c == '\t'
  }

  /** Characters the scanner takes verbatim outside quotes (before looking at ' and ;). */
  predicate Printable(c: char) {
    ' ' < c < '\U{7F}'
  }

  /** Characters the scanner takes inside quotes (before looking at ' and \). */
  predicate Quotable(c: char) {
    ' ' <= c < '\U{7F}'
  }

  predicate SevenBit(s: string) {
    forall i | 0 <= i < |s| :: s[i] < '\U{80}'
  }

  predicate IsHex(c: char) {
    '0' <= c <= '9' || 'a' <= c <= 'f'
  }

  function HexValue(c: char): nat
    requires IsHex(c)
  {
    if c <= '9' then c as int - '0' as int else c as int - 'a' as int + 10
  }

  function HexDigit(n: nat): char
    requires n < 16
  {
    if n < 10 then ('0' as int + n) as char else ('a' as int + n - 10) as char
  }

  /** The text ends in a mark that stands after `blank`. */
  predicate MarkedAfter(s: string, blank: char) {
    |s| >= 2 && s[|s| - 2] == blank && s[|s| - 1] == CONTINUE
  }

  /** Index of the first newline at or after `from`. */
  function FirstNewline(s: string, from: nat): (nl: nat)
    requires from < |s| && s[|s| - 1] == '\n'
    ensures from <= nl < |s| && s[nl] == '\n'
    ensures forall k | from <= k < nl :: s[k] != '\n'
    decreases |s| - from
  {
    if s[from] == '\n' then from else FirstNewline(s, from + 1)
  }

  function CountNewlines(s: string): nat {
    if s == "" then 0 else (if s[0] == '\n' then 1 else 0) + CountNewlines(s[1..])
  }
}
