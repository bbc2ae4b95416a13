/** C characters and NUL-terminated byte sequences as the library reads them. */
module CStrings {

  /** A C `char`. Its signedness is implementation-defined; the model takes it
      to be a signed byte, so comparisons see values in [-128, 127]. */
  newtype Char = x: int | -128 <= x < 128

  /** The terminator byte. */
  const NUL: Char := 0

  /** The bytes readable through a `const char *` form a C string when a
      terminator occurs among them. */
  predicate IsCString(s: seq<Char>)
  {
    NUL in s
  }

  /** `strlen`: the number of bytes before the first terminator. */
  function StrLen(s: seq<Char>): (n: nat)
    requires IsCString(s)
    ensures n < |s| && s[n] == NUL
    ensures forall i :: 0 <= i < n ==> s[i] != NUL
    decreases |s|
  {
    if s[0] == NUL then 0
    else
      assert s == [s[0]] + s[1..];
      1 + StrLen(s[1..])
  }

  /** The characters of a C string, without its terminator. */
  function Chars(s: seq<Char>): (t: seq<Char>)
    requires IsCString(s)
    ensures |t| < |s| && s[..|t|] == t && s[|t|] == NUL
    ensures NUL !in t
  {
    s[..StrLen(s)]
  }

  /** Writing a terminator after NUL-free characters gives back those
      characters, whatever follows the terminator in memory. */
  lemma {:induction false} StrLenOfTerminated(t: seq<Char>, rest: seq<Char>)
    requires NUL !in t
    ensures IsCString(t + [NUL] + rest)
    ensures StrLen(t + [NUL] + rest) == |t|
    ensures Chars(t + [NUL] + rest) == t
    decreases |t|
  {
    var s := t + [NUL] + rest;
    assert s[|t|] == NUL;
    if t != [] {
      assert s[1..] == t[1..] + [NUL] + rest;
      assert t == [t[0]] + t[1..];
      StrLenOfTerminated(t[1..], rest);
    }
  }
}
