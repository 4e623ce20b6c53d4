/** The token type of the similarity tester: an unsigned 16-bit code. */
module Tokens {

  type Token = t: nat | t < 0x1_0000

  /** Tokens below this bound may occur in the token sets of a language. */
  const REGULAR_TOKENS: nat := 512
  const NO_TOKEN: Token := 0
  const END_OF_LINE: Token := 0xFFFF
}
