/** The parts of C++'s `std::string` that the g2o string tools rely on:
    the unsigned `size_type` with its modular arithmetic, the `npos`
    sentinel, the search members `find_first_of`, `find_first_not_of` and
    `find_last_not_of`, and the substring constructor `std::string(s, pos, n)`
    (which is also what `s.substr(pos, n)` returns).

    The searches take their character argument, a string in C++, as the set
    of its characters: only membership in it matters to them.

    Sizes are those of a 64-bit platform: `size_type` holds 0 .. 2^64 - 1 and
    `npos` is its largest value, so `npos + 1` wraps to 0. */
module CppString {

  const SIZE_MODULUS: int := 0x1_0000_0000_0000_0000

  /** `std::string::size_type`: an unsigned 64-bit integer. */
  type SizeType = x: int | 0 <= x < SIZE_MODULUS

  /** `std::string::npos`, the "no position" result of every search member. */
  const NPOS: SizeType := SIZE_MODULUS - 1

  /** Every `std::string` is shorter than `npos` (its `max_size()` is below it),
      so each index into it, and one past its end, is a position distinct
      from `npos`. */
  predicate Fits(s: seq<char>)
  {
    |s| < NPOS
  }

  /** Unsigned `a + b` on `size_type`, wrapping modulo 2^64. */
  function Add(a: SizeType, b: SizeType): (r: SizeType)
    ensures (r as int - (a + b)) % SIZE_MODULUS == 0
  {
    if a + b < SIZE_MODULUS then a + b else a + b - SIZE_MODULUS
  }

  /** Unsigned `a - b` on `size_type`, wrapping modulo 2^64. */
  function Sub(a: SizeType, b: SizeType): (r: SizeType)
    ensures (r as int - (a - b)) % SIZE_MODULUS == 0
  {
    if b <= a then a - b else a - b + SIZE_MODULUS
  }

  function Min(a: int, b: int): int
  {
    if a <= b then a else b
  }

  /** `std::string(s, pos, count)` and `s.substr(pos, count)`: the characters
      from `pos` on, at most `count` of them. A `pos` past the end throws
      `std::out_of_range`; the precondition states that no caller does so. */
  function Substr(s: seq<char>, pos: SizeType, count: SizeType): (r: seq<char>)
    requires pos <= |s|
    ensures |r| <= count && |r| <= |s| - pos
    ensures |r| == count || |r| == |s| - pos
    ensures s[pos..pos + |r|] == r
  {
    s[pos..pos + Min(count, |s| - pos)]
  }

  /** `s.find_first_of(chars, pos)`: the first index at or after `pos` whose
      character is one of `chars`, or `npos` if there is none (in particular
      when `pos >= s.size()`). */
  function FindFirstOf(s: seq<char>, chars: set<char>, pos: SizeType): (r: SizeType)
    requires Fits(s)
    ensures r == NPOS || (pos <= r < |s| && s[r] in chars)
    ensures forall i :: pos <= i < |s| && (r == NPOS || i < r) ==> s[i] !in chars
    decreases |s| - pos
  {
    if pos >= |s| then NPOS
    else if s[pos] in chars then pos
    else FindFirstOf(s, chars, pos + 1)
  }

  /** `s.find_first_not_of(chars, pos)`: the first index at or after `pos`
      whose character is none of `chars`, or `npos` if there is none. */
  function FindFirstNotOf(s: seq<char>, chars: set<char>, pos: SizeType): (r: SizeType)
    requires Fits(s)
    ensures r == NPOS || (pos <= r < |s| && s[r] !in chars)
    ensures forall i :: pos <= i < |s| && (r == NPOS || i < r) ==> s[i] in chars
    decreases |s| - pos
  {
    if pos >= |s| then NPOS
    else if s[pos] !in chars then pos
    else FindFirstNotOf(s, chars, pos + 1)
  }

  /** `s.find_last_not_of(chars)`: the last index whose character is none of
      `chars`, or `npos` if there is none. */
  function FindLastNotOf(s: seq<char>, chars: set<char>): (r: SizeType)
    requires Fits(s)
    ensures r == NPOS || (r < |s| && s[r] !in chars)
    ensures forall i :: 0 <= i < |s| && (r == NPOS || r < i) ==> s[i] in chars
  {
    LastNotOfBefore(s, chars, |s|)
  }

  /** The backward scan behind `FindLastNotOf`, over the first `n` characters. */
  function LastNotOfBefore(s: seq<char>, chars: set<char>, n: nat): (r: SizeType)
    requires Fits(s) && n <= |s|
    ensures r == NPOS || (r < n && s[r] !in chars)
    ensures forall i :: 0 <= i < n && (r == NPOS || r < i) ==> s[i] in chars
  {
    if n == 0 then NPOS
    else if s[n - 1] !in chars then n - 1
    else LastNotOfBefore(s, chars, n - 1)
  }
}
