/** Comparison: `exstr_compare` and `exstr_compare_string`. */
module Comparison {
  import opened Wrappers
  import opened CStrings
  import opened Buffer
  import opened Lifecycle

  /** `k` is the first index from `lo` on where `x` and `y` differ. */
  predicate IsFirstMismatch(x: seq<Char>, y: seq<Char>, lo: nat, k: int)
  {
    lo <= k < |x| && k < |y| && x[k] != y[k]
    && forall j :: lo <= j < k ==> x[j] == y[j]
  }

  /** The byte-by-byte loop walks `x` and `y` from `i` towards `n`, stopping
      at the first difference; every byte of `y` it reads must exist. */
  predicate ScanReadsInBounds(x: seq<Char>, y: seq<Char>, i: nat, n: nat)
  {
    n <= |y| || exists j :: i <= j < n && j < |y| && j < |x| && x[j] != y[j]
  }

  /** The loop shared by both comparisons: the difference `x[k] - y[k]`, as
      C `int`s, at the first index `k` in `[i, n)` where the bytes differ, or
      0 when they agree on the whole range. */
  function Scan(x: seq<Char>, y: seq<Char>, i: nat, n: nat): (r: int)
    requires i <= n <= |x| && ScanReadsInBounds(x, y, i, n)
    ensures r == 0 <==> n <= |y| && forall j :: i <= j < n ==> x[j] == y[j]
    ensures r != 0 ==> exists k :: k < n && IsFirstMismatch(x, y, i, k) && r == x[k] as int - y[k] as int
    decreases n - i
  {
    if i == n then 0
    else if x[i] != y[i] then x[i] as int - y[i] as int
    else
      assert ScanReadsInBounds(x, y, i + 1, n);
      Scan(x, y, i + 1, n)
  }

  /** The first mismatch from a given start is unique. */
  lemma FirstMismatchUnique(x: seq<Char>, y: seq<Char>, lo: nat, k: int, k': int)
    requires IsFirstMismatch(x, y, lo, k) && IsFirstMismatch(x, y, lo, k')
    ensures k == k'
  {
  }

  /** `exstr_compare(a, b)`: when the lengths differ the result is the
      longer operand's byte at the shorter one's length, whichever argument
      is longer and without looking at the common prefix; when they are equal
      it is 0 for identical content and otherwise the byte difference at the
      first mismatch. */
  function Compare(a: Exstr, b: Exstr): (r: int)
    requires WellFormed(a) && WellFormed(b)
    ensures a.length < b.length ==> r == b.data[a.length] as int
    ensures b.length < a.length ==> r == a.data[b.length] as int
    ensures a.length == b.length ==> (r == 0 <==> Content(a) == Content(b))
    ensures a.length == b.length && r != 0 ==>
              exists k :: IsFirstMismatch(Content(a), Content(b), 0, k)
                          && r == a.data[k] as int - b.data[k] as int
  {
    if a.length < b.length then b.data[a.length] as int
    else if b.length < a.length then a.data[b.length] as int
    else
      var r := Scan(a.data, b.data, 0, a.length);
      assert Content(a) == Content(b) <==> forall j :: 0 <= j < a.length ==> a.data[j] == b.data[j];
      assert r != 0 ==> exists k :: IsFirstMismatch(Content(a), Content(b), 0, k)
                                    && r == a.data[k] as int - b.data[k] as int by {
        if r != 0 {
          var k :| k < a.length && IsFirstMismatch(a.data, b.data, 0, k) && r == a.data[k] as int - b.data[k] as int;
          assert IsFirstMismatch(Content(a), Content(b), 0, k);
        }
      }
      r
  }

  /** The loop of `exstr_compare` on equal lengths, written as the C writes
      it: step through both blocks and return the first non-zero
      difference. */
  method CompareEqualLengths(a: Exstr, b: Exstr) returns (d: int)
    requires WellFormed(a) && WellFormed(b) && a.length == b.length
    ensures d == Compare(a, b)
  {
    var i := 0;
    while i < a.length
      invariant i <= a.length
      invariant forall j :: 0 <= j < i ==> a.data[j] == b.data[j]
    {
      d := a.data[i] as int - b.data[i] as int;
      if d != 0 {
        var r := Scan(a.data, b.data, 0, a.length);
        var k :| k < a.length && IsFirstMismatch(a.data, b.data, 0, k) && r == a.data[k] as int - b.data[k] as int;
        FirstMismatchUnique(a.data, b.data, 0, k, i);
        return;
      }
      i := i + 1;
    }
    d := 0;
  }

  /** On operands of different lengths the order of the arguments does not
      matter. */
  lemma CompareIgnoresOrder(a: Exstr, b: Exstr)
    requires WellFormed(a) && WellFormed(b) && a.length != b.length
    ensures Compare(a, b) == Compare(b, a)
  {
  }

  /** On operands of different lengths the shorter operand's bytes do not
      matter, only its length. */
  lemma CompareSkipsPrefix(a: Exstr, a': Exstr, b: Exstr)
    requires WellFormed(a) && WellFormed(a') && WellFormed(b)
    requires a.length == a'.length < b.length
    ensures Compare(a, b) == Compare(a', b) == Compare(b, a')
  {
  }

  /** "ab" against "abc": positive in both argument orders, although "ab"
      sorts first. "abc" against "abd" is negative and "abc" against itself
      is zero. */
  lemma CompareExample()
    ensures var ab := Exstr(2, 3, [97, 98, 0]);
            var abc := Exstr(3, 4, [97, 98, 99, 0]);
            var abd := Exstr(3, 4, [97, 98, 100, 0]);
            Compare(ab, abc) == 99 && Compare(abc, ab) == 99
            && Compare(abc, abd) == -1 && Compare(abc, abc) == 0
  {
    var abc := Exstr(3, 4, [97, 98, 99, 0]);
    var abd := Exstr(3, 4, [97, 98, 100, 0]);
    assert Content(abc) != Content(abd) by {
      assert Content(abc)[2] != Content(abd)[2];
    }
    var k :| IsFirstMismatch(Content(abc), Content(abd), 0, k)
             && Compare(abc, abd) == abc.data[k] as int - abd.data[k] as int;
    assert Content(abc)[0] == Content(abd)[0] && Content(abc)[1] == Content(abd)[1];
  }

  /** A clone compares equal to its source. */
  lemma CloneComparesEqual(source: Exstr, fill: int -> Char)
    requires WellFormed(source)
    ensures Clone(Some(source), true, fill).Some?
    ensures Compare(Clone(Some(source), true, fill).value, source) == 0
  {
  }

  /** The reads of `exstr_compare_string(a, s)` stay inside `s`. */
  predicate CompareStringDefined(a: Exstr, s: seq<Char>)
  {
    a.length <= |a.data| && ScanReadsInBounds(a.data, s, 0, a.length)
  }

  /** `exstr_compare_string(a, s)`: only the buffer's `length` bytes are
      compared with the string; the result is 0 exactly when they are a
      prefix of `s`, and otherwise the byte difference at the first
      mismatch. */
  function CompareString(a: Exstr, s: seq<Char>): (r: int)
    requires CompareStringDefined(a, s)
    ensures r == 0 <==> a.length <= |s| && Content(a) == s[..a.length]
    ensures r != 0 ==>
              exists k :: k < a.length && IsFirstMismatch(a.data, s, 0, k)
                          && r == a.data[k] as int - s[k] as int
  {
    Scan(a.data, s, 0, a.length)
  }

  /** Building a buffer from a C string and comparing it with that string
      gives 0. */
  lemma FromStringComparesEqual(s: seq<Char>)
    requires IsCString(s)
    ensures FromString(Some(s), true).Some?
    ensures CompareStringDefined(FromString(Some(s), true).value, s)
    ensures CompareString(FromString(Some(s), true).value, s) == 0
  {
  }

  /** The buffer "ab" compares equal to the string "abc": a buffer that is a
      proper prefix of the string yields 0. */
  lemma CompareStringPrefixExample()
    ensures var ab := Exstr(2, 3, [97, 98, 0]);
            CompareStringDefined(ab, [97, 98, 99, 0]) && CompareString(ab, [97, 98, 99, 0]) == 0
  {
    var ab := Exstr(2, 3, [97, 98, 0]);
    assert Content(ab) == [97, 98, 99, 0][..2];
  }

  /** Comparison with an implicit zero byte after the shorter sequence, the
      `strcmp` order implied by the operations' names and by their source
      comments that a 0 result means equal strings: the byte difference at the
      first mismatch, where running off the end of one sequence reads a
      zero. NUL-free sequences compare 0 exactly when they are equal. */
  function LexDiff(x: seq<Char>, y: seq<Char>): (r: int)
    ensures NUL !in x && NUL !in y ==> (r == 0 <==> x == y)
    decreases |x|
  {
    if |x| == 0 && |y| == 0 then 0
    else if |x| == 0 then -(y[0] as int)
    else if |y| == 0 then x[0] as int
    else if x[0] != y[0] then x[0] as int - y[0] as int
    else
      assert x == [x[0]] + x[1..] && y == [y[0]] + y[1..];
      LexDiff(x[1..], y[1..])
  }

  /** Swapping the operands negates the intended comparison. */
  lemma {:induction false} LexDiffAntisymmetric(x: seq<Char>, y: seq<Char>)
    ensures LexDiff(x, y) == -LexDiff(y, x)
    decreases |x|
  {
    if |x| > 0 && |y| > 0 && x[0] == y[0] {
      LexDiffAntisymmetric(x[1..], y[1..]);
    }
  }

  /** A proper prefix compares as the negated next byte of the longer
      sequence: negative whenever that byte is positive. */
  lemma {:induction false} LexDiffPrefix(x: seq<Char>, y: seq<Char>)
    requires |x| < |y| && x == y[..|x|]
    ensures LexDiff(x, y) == -(y[|x|] as int)
    decreases |x|
  {
    if |x| > 0 {
      assert x[0] == y[0];
      assert x[1..] == y[1..][..|x| - 1];
      LexDiffPrefix(x[1..], y[1..]);
    }
  }

  /** `exstr_compare` as its name and its source comment that 0 means equal
      strings imply: the contents compared with an implicit
      terminator after the shorter one. Swapping the operands negates the
      result, NUL-free contents compare 0 exactly when equal, and a proper
      prefix compares below the longer content when the next byte is
      positive. */
  function CompareIntended(a: Exstr, b: Exstr): (r: int)
    requires WellFormed(a) && WellFormed(b)
    ensures r == -LexDiff(Content(b), Content(a))
    ensures NUL !in Content(a) && NUL !in Content(b) ==> (r == 0 <==> Content(a) == Content(b))
    ensures a.length < b.length && Content(a) == Content(b)[..a.length] ==> r == -(b.data[a.length] as int)
  {
    LexDiffAntisymmetric(Content(a), Content(b));
    assert a.length < b.length && Content(a) == Content(b)[..a.length]
           ==> LexDiff(Content(a), Content(b)) == -(b.data[a.length] as int) by {
      if a.length < b.length && Content(a) == Content(b)[..a.length] {
        LexDiffPrefix(Content(a), Content(b));
      }
    }
    LexDiff(Content(a), Content(b))
  }

  /** `exstr_compare_string` as its name and its source comment that 0 means
      equal strings imply: the buffer's content against the string's
      characters, so a proper prefix no longer compares 0. */
  function CompareStringIntended(a: Exstr, s: seq<Char>): (r: int)
    requires WellFormed(a) && IsCString(s)
    ensures NUL !in Content(a) ==> (r == 0 <==> Content(a) == Chars(s))
    ensures a.length < |Chars(s)| && Content(a) == Chars(s)[..a.length] ==> r == -(s[a.length] as int)
  {
    assert a.length < |Chars(s)| && Content(a) == Chars(s)[..a.length]
           ==> LexDiff(Content(a), Chars(s)) == -(s[a.length] as int) by {
      if a.length < |Chars(s)| && Content(a) == Chars(s)[..a.length] {
        LexDiffPrefix(Content(a), Chars(s));
      }
    }
    LexDiff(Content(a), Chars(s))
  }

  /** Under the intended comparison "ab" sorts before both the buffer
      "abc" and the string "abc". */
  lemma CompareIntendedExample()
    ensures var ab := Exstr(2, 3, [97, 98, 0]);
            var abc := Exstr(3, 4, [97, 98, 99, 0]);
            CompareIntended(ab, abc) < 0 && CompareIntended(abc, ab) > 0
            && CompareStringIntended(ab, [97, 98, 99, 0]) < 0
  {
    var ab := Exstr(2, 3, [97, 98, 0]);
    var abc := Exstr(3, 4, [97, 98, 99, 0]);
    assert Content(ab) == Content(abc)[..2];
    StrLenOfTerminated([97, 98, 99], []);
    assert [97, 98, 99, 0] == [97, 98, 99] + [NUL] + [];
    assert Chars([97, 98, 99, 0]) == [97, 98, 99];
  }
}
