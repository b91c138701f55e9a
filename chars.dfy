/** Character classes shared by the entry-line parser and the duration display. */
module Chars {
  predicate IsDigit(c: char) { '0' <= c <= '9' }
}
