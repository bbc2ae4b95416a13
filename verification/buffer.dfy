/** The `exstr` record, its capacity policy and reallocation. */
module Buffer {
  import opened Wrappers
  import opened CStrings

  /** Length chosen by the constructors when asked for length 0. */
  const DefaultLength: nat := 128

  /** A dynamic string: logical length, allocated capacity and the bytes of
      the allocation. The `null_term` field of the C record is never read and
      is not part of the model. */
  datatype Exstr = Exstr(length: nat, capacity: nat, data: seq<Char>)

  /** The allocation behind `data` is exactly `capacity` bytes long. */
  predicate Allocated(b: Exstr)
  {
    |b.data| == b.capacity
  }

  /** The record invariant every successful constructor establishes and the
      library's own integrity check tests: `length < capacity`, so the byte at
      `length` lies inside the allocation. */
  predicate WellFormed(b: Exstr)
  {
    Allocated(b) && b.length < b.capacity
  }

  /** A well-formed buffer whose byte at `length` is the terminator. */
  predicate Valid(b: Exstr)
  {
    WellFormed(b) && b.data[b.length] == NUL
  }

  /** The logical bytes of a buffer, without the terminator slot. */
  function Content(b: Exstr): (c: seq<Char>)
    requires b.length <= |b.data|
    ensures |c| == b.length
  {
    b.data[..b.length]
  }

  /** `get_capacity`: the capacity that holds a length and one terminator. */
  function CapacityFor(length: nat): (c: nat)
    ensures length < c <= length + 1
  {
    length + 1
  }

  /** The bytes of a block after `realloc(prior, n)`: the first `min(|prior|, n)`
      bytes are kept and every later byte is whatever the allocator left at
      that offset, given by `fill`. With `prior == []` this is `malloc(n)`. */
  function Reallocated(prior: seq<Char>, n: nat, fill: int -> Char): (r: seq<Char>)
    ensures |r| == n
    ensures forall i :: 0 <= i < n && i < |prior| ==> r[i] == prior[i]
    ensures forall i :: |prior| <= i < n ==> r[i] == fill(i)
  {
    seq(n, i => if 0 <= i < |prior| then prior[i] else fill(i))
  }

  /** `memcpy(dst + at, src, |src|)` with the source bytes read before any
      write, so overlapping moves behave as `memmove`. */
  function Write(dst: seq<Char>, at: nat, src: seq<Char>): (r: seq<Char>)
    requires at + |src| <= |dst|
    ensures |r| == |dst|
    ensures forall i :: 0 <= i < |src| ==> r[at + i] == src[i]
    ensures forall i :: 0 <= i < at ==> r[i] == dst[i]
    ensures forall i :: at + |src| <= i < |dst| ==> r[i] == dst[i]
  {
    dst[..at] + src + dst[at + |src|..]
  }

  /** `exstr_realloc(str, length, force)`: unless the call is forced, a
      requested length not above the capacity is accepted as it stands;
      otherwise the block is reallocated to `CapacityFor(length)` bytes.
      `ok` says whether the allocator succeeded. */
  function Realloc(b: Exstr, length: nat, force: bool, ok: bool, fill: int -> Char): (r: Returned<Exstr>)
    requires Allocated(b)
    ensures Allocated(r.state) && r.state.length == b.length
    ensures !force && length <= b.capacity ==> r == Returned(true, b)
    ensures (force || b.capacity < length) && !ok ==> r == Returned(false, b)
    ensures (force || b.capacity < length) && ok ==>
              r.ok && r.state.capacity == length + 1
              && forall i :: 0 <= i < b.capacity && i <= length ==> r.state.data[i] == b.data[i]
  {
    if !force && length <= b.capacity then Returned(true, b)
    else
      var capacity := CapacityFor(length);
      if ok then Returned(true, Exstr(b.length, capacity, Reallocated(b.data, capacity, fill)))
      else Returned(false, b)
  }

  /** A successful reallocation to a length at least the buffer's own keeps
      the buffer well-formed and keeps its content and terminator slot. */
  lemma ReallocKeepsContent(b: Exstr, length: nat, force: bool, ok: bool, fill: int -> Char)
    requires WellFormed(b) && b.length <= length
    ensures Realloc(b, length, force, ok, fill).ok ==>
              var r := Realloc(b, length, force, ok, fill).state;
              WellFormed(r) && forall i :: 0 <= i <= b.length ==> r.data[i] == b.data[i]
  {
  }

  /** The unforced path accepts `length == capacity`, which leaves no room for
      the terminator that `CapacityFor` reserves: the call reports success
      while the capacity stays equal to the requested length. */
  lemma ReallocUnforcedShortfall()
    ensures var b := Exstr(4, 5, [1, 2, 3, 4, 0]);
            var r := Realloc(b, 5, false, true, _ => 0);
            r.ok && r.state.capacity == 5 && r.state.capacity < CapacityFor(5)
  {
  }

  /** `exstr_realloc` with the test it evidently intends, `length < capacity`:
      every successful call leaves room for the requested length plus a
      terminator, and an unforced call that needs no growth changes nothing. */
  function ReallocIntended(b: Exstr, length: nat, force: bool, ok: bool, fill: int -> Char): (r: Returned<Exstr>)
    requires Allocated(b)
    ensures Allocated(r.state) && r.state.length == b.length
    ensures r.ok ==> length < r.state.capacity
    ensures !r.ok ==> r.state == b
    ensures r.ok <==> ok || (!force && length < b.capacity)
    ensures forall i :: 0 <= i < b.capacity && i <= length ==> r.state.data[i] == b.data[i]
  {
    if !force && length < b.capacity then Returned(true, b)
    else
      var capacity := CapacityFor(length);
      if ok then Returned(true, Exstr(b.length, capacity, Reallocated(b.data, capacity, fill)))
      else Returned(false, b)
  }

  /** Forced reallocation, the only kind the library performs, is the same
      under the written and the intended test. */
  lemma ReallocForcedAgrees(b: Exstr, length: nat, ok: bool, fill: int -> Char)
    requires Allocated(b)
    ensures Realloc(b, length, true, ok, fill) == ReallocIntended(b, length, true, ok, fill)
  {
  }
}
