/**
 * The short-code generator's building blocks: the 62-symbol alphabet, what a
 * well-formed short code is, and the random source the generator draws from.
 */
module ShortCodes {

  /** 'a' to 'z', in order. */
  const Lowercase: string := seq(26, k requires 0 <= k < 26 => ('a' as int + k) as char)
  /** 'A' to 'Z', in order. */
  const Uppercase: string := seq(26, k requires 0 <= k < 26 => ('A' as int + k) as char)
  /** '0' to '9', in order. */
  const Digits: string := seq(10, k requires 0 <= k < 10 => ('0' as int + k) as char)

  /**
   * The symbols a short code is drawn from, in the order the service lists
   * them; AlphabetSpelledOut shows it is the service's string literal.
   */
  const Alphabet: string := Lowercase + Uppercase + Digits

  /** Every generated short code has exactly this many symbols. */
  const CodeLength: nat := 6

  predicate IsAlphanumeric(c: char) {
    ('a' <= c <= 'z') || ('A' <= c <= 'Z') || ('0' <= c <= '9')
  }

  /** A short code: six symbols, each a lower-case letter, an upper-case letter or a digit. */
  predicate IsShortCode(s: string) {
    |s| == CodeLength && forall i :: 0 <= i < |s| ==> IsAlphanumeric(s[i])
  }

  /** The alphabet is exactly the 62 letters and digits, each listed once. */
  lemma AlphabetIsAlphanumeric()
    ensures |Alphabet| == 62
    ensures forall i :: 0 <= i < |Alphabet| ==> IsAlphanumeric(Alphabet[i])
    ensures forall c :: IsAlphanumeric(c) ==> c in Alphabet
    ensures forall i, j :: 0 <= i < j < |Alphabet| ==> Alphabet[i] != Alphabet[j]
  {
    AlphabetBySymbol();
    forall c | IsAlphanumeric(c) ensures c in Alphabet {
      var k := if 'a' <= c <= 'z' then c as int - 'a' as int
        else if 'A' <= c <= 'Z' then 26 + (c as int - 'A' as int)
        else 52 + (c as int - '0' as int);
      assert Alphabet[k] == Symbol(k) == c;
    }
  }

  /**
   * The process-wide random source. Its output is a caller-supplied stream:
   * the n-th raw draw is draws(n), and nextInt(bound) reduces the next raw
   * draw into [0, bound). Only that range is modelled, not the distribution.
   */
  class RandomSource {
    const draws: nat -> nat
    var position: nat

    constructor (draws: nat -> nat)
      ensures this.draws == draws && position == 0
    {
      this.draws := draws;
      position := 0;
    }

    method NextInt(bound: nat) returns (r: nat)
      requires bound > 0
      modifies this
      ensures r < bound
      ensures r == draws(old(position)) % bound
      ensures position == old(position) + 1
    {
      r := draws(position) % bound;
      position := position + 1;
    }
  }

  /**
   * The alphabet symbol that nextInt(62) selects from a raw draw, computed
   * from its position: 26 lower-case letters, 26 upper-case letters, 10
   * digits. SymbolIsAlphabetEntry ties it to the alphabet string itself.
   */
  function Symbol(draw: nat): (c: char)
    ensures IsAlphanumeric(c)
  {
    var k := draw % 62;
    if k < 26 then ('a' as int + k) as char
    else if k < 52 then ('A' as int + (k - 26)) as char
    else ('0' as int + (k - 52)) as char
  }

  lemma LowercaseSpelledOut()
    ensures Lowercase == "abcdefghijklmnopqrstuvwxyz"
  {
  }

  lemma UppercaseSpelledOut()
    ensures Uppercase == "ABCDEFGHIJKLMNOPQRSTUVWXYZ"
  {
  }

  lemma DigitsSpelledOut()
    ensures Digits == "0123456789"
  {
  }

  /** The alphabet, written out as the service writes it. */
  lemma AlphabetSpelledOut()
    ensures Alphabet == "abcdefghijklmnopqrstuvwxyzABCDEFGHIJKLMNOPQRSTUVWXYZ0123456789"
  {
    LowercaseSpelledOut();
    UppercaseSpelledOut();
    DigitsSpelledOut();
  }

  /** Position by position, the alphabet string lists Symbol(0) to Symbol(61). */
  lemma AlphabetBySymbol()
    ensures |Alphabet| == 62
    ensures forall i :: 0 <= i < 62 ==> Alphabet[i] == Symbol(i)
  {
  }

  /** nextInt(62) picks the same character from the alphabet string as Symbol does. */
  lemma SymbolIsAlphabetEntry(draw: nat)
    ensures |Alphabet| == 62 && Symbol(draw) == Alphabet[draw % |Alphabet|]
  {
    AlphabetBySymbol();
  }

  /**
   * The symbols the generator appends from n successive draws starting at
   * position start.
   */
  function CodeFrom(draws: nat -> nat, start: nat, n: nat): (code: string)
    ensures |code| == n
    ensures forall i :: 0 <= i < n ==> IsAlphanumeric(code[i])
  {
    if n == 0 then [] else CodeFrom(draws, start, n - 1) + [Symbol(draws(start + n - 1))]
  }

  /** The i-th symbol of the generated code comes from the i-th draw. */
  lemma {:induction false} CodeFromAt(draws: nat -> nat, start: nat, n: nat, i: nat)
    requires i < n
    ensures CodeFrom(draws, start, n)[i] == Symbol(draws(start + i))
  {
    if i < n - 1 {
      CodeFromAt(draws, start, n - 1, i);
    }
  }

  /** The code one call of the generator produces from position start. */
  function CodeAt(draws: nat -> nat, start: nat): (code: string)
    ensures IsShortCode(code)
  {
    CodeFrom(draws, start, CodeLength)
  }

  /**
   * Among the next n + 1 codes the generator would produce from position
   * pos, at least one is not in taken.
   */
  ghost predicate FreeWithin(draws: nat -> nat, pos: nat, taken: set<string>, n: nat)
    decreases n
  {
    CodeAt(draws, pos) !in taken || (n > 0 && FreeWithin(draws, pos + CodeLength, taken, n - 1))
  }

  /**
   * The codes the generator produced from position from up to, not
   * including, position to were all in taken.
   */
  ghost predicate TakenUntil(draws: nat -> nat, from: nat, to: nat, taken: set<string>)
    decreases to
  {
    from == to ||
    (from + CodeLength <= to && CodeAt(draws, to - CodeLength) in taken &&
     TakenUntil(draws, from, to - CodeLength, taken))
  }
}
