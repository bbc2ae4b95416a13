/** Constructors and copies: `exstr_init`, `exstr_new`, `exstr_from_string`,
    `exstr_clone`, `exstr_copy` and `exstr_copy_string`.

    Every allocation a call makes is modelled by one flag `ok` (all of them
    succeed, or the call takes its failure exit), and the bytes a fresh block
    holds before they are written by `fill`. A constructor that fails yields
    `None`: the C code returns NULL or false and the caller must not use the
    object. */
module Lifecycle {
  import opened Wrappers
  import opened CStrings
  import opened Buffer

  /** `exstr_init(str, length)`: length 0 picks the default length; the
      block is allocated but no terminator is written, so its bytes are the
      allocator's. */
  function Init(length: nat, ok: bool, fill: int -> Char): (r: Option<Exstr>)
    ensures r.Some? <==> ok
    ensures r.Some? ==>
              WellFormed(r.value) && 0 < r.value.length
              && r.value.capacity == r.value.length + 1
              && (length != 0 ==> r.value.length == length)
              && (length == 0 ==> r.value.length == DefaultLength)
              && forall i :: 0 <= i < r.value.capacity ==> r.value.data[i] == fill(i)
  {
    if !ok then None
    else
      var n := if length == 0 then DefaultLength else length;
      var capacity := CapacityFor(n);
      Some(Exstr(n, capacity, Reallocated([], capacity, fill)))
  }

  /** `exstr_new(length)`: a heap object initialised exactly as `exstr_init`
      does; a failure of either allocation yields NULL. */
  function New(length: nat, ok: bool, fill: int -> Char): (r: Option<Exstr>)
    ensures r.Some? <==> ok
    ensures r.Some? ==>
              WellFormed(r.value) && r.value.capacity == r.value.length + 1
              && r.value.length == (if length == 0 then DefaultLength else length)
  {
    Init(length, ok, fill)
  }

  /** The buffer `strcpy`/`memcpy` builds from a C string: its length is the
      string's length and its block is exactly the characters plus the
      terminator. */
  function FromChars(s: seq<Char>): (b: Exstr)
    requires IsCString(s)
    ensures Valid(b) && b.capacity == b.length + 1 && b.length < |s|
            && forall i :: 0 <= i < b.length ==> b.data[i] == s[i] && b.data[i] != NUL
  {
    var n := StrLen(s);
    // the copy fills the whole `n + 1`-byte block
    Exstr(n, CapacityFor(n), s[..n + 1])
  }

  /** `exstr_from_string(source)`: NULL in, NULL out; otherwise a buffer
      holding the source's characters and terminator. */
  function FromString(source: Option<seq<Char>>, ok: bool): (r: Option<Exstr>)
    requires source.Some? ==> IsCString(source.value)
    ensures r.Some? <==> source.Some? && ok
    ensures r.Some? ==>
              source.Some? && Valid(r.value) && r.value.capacity == r.value.length + 1
              && r.value.length < |source.value| && source.value[r.value.length] == NUL
              && forall i :: 0 <= i < r.value.length ==> r.value.data[i] == source.value[i] && source.value[i] != NUL
  {
    if source.None? || !ok then None else Some(FromChars(source.value))
  }

  /** The deep copy shared by `exstr_clone` and `exstr_copy`: length and
      capacity are taken over, the first `length + 1` bytes are copied into a
      fresh block of `capacity` bytes and the rest are the allocator's. */
  function Duplicate(src: Exstr, fill: int -> Char): (b: Exstr)
    requires WellFormed(src)
    ensures WellFormed(b) && b.length == src.length && b.capacity == src.capacity
            && (forall i :: 0 <= i <= src.length ==> b.data[i] == src.data[i])
            && forall i :: src.length < i < b.capacity ==> b.data[i] == fill(i)
  {
    var block := Write(Reallocated([], src.capacity, fill), 0, src.data[..src.length + 1]);
    assert block[..src.length + 1] == src.data[..src.length + 1];
    Exstr(src.length, src.capacity, block)
  }

  /** `exstr_clone(source)`: NULL in, NULL out; otherwise a deep copy with
      the same length, capacity, content and terminator slot. */
  function Clone(source: Option<Exstr>, ok: bool, fill: int -> Char): (r: Option<Exstr>)
    requires source.Some? ==> WellFormed(source.value)
    ensures r.Some? <==> source.Some? && ok
    ensures r.Some? ==>
              source.Some? && WellFormed(r.value)
              && r.value.length == source.value.length
              && r.value.capacity == source.value.capacity
              && Content(r.value) == Content(source.value)
              && r.value.data[r.value.length] == source.value.data[source.value.length]
              && (Valid(r.value) <==> Valid(source.value))
  {
    if source.None? || !ok then None
    else
      var b := Duplicate(source.value, fill);
      assert Content(b) == b.data[..b.length + 1][..b.length];
      assert b.data[b.length] == b.data[..b.length + 1][b.length];
      Some(b)
  }

  /** The object `exstr_copy` and `exstr_copy_string` leave behind when the
      allocation fails: length and capacity are already overwritten and the
      old block is released, but no new block takes its place. An empty
      block with a positive capacity stands for that NULL pointer. */
  function Released(length: nat, capacity: nat): (b: Exstr)
    requires 0 < capacity
    ensures b.length == length && b.capacity == capacity && !Allocated(b)
  {
    Exstr(length, capacity, [])
  }

  /** `exstr_copy(source, dest)`: false with dest untouched when either
      pointer is NULL; otherwise dest's old block is released and dest
      becomes a deep copy of source, or, if the new block cannot be
      allocated, is left with source's length and capacity and no block. */
  function Copy(source: Option<Exstr>, dest: Option<Exstr>, ok: bool, fill: int -> Char): (r: Returned<Option<Exstr>>)
    requires source.Some? ==> WellFormed(source.value)
    ensures r.ok <==> source.Some? && dest.Some? && ok
    ensures source.None? || dest.None? ==> r == Returned(false, dest)
    ensures source.Some? && dest.Some? && !ok ==>
              r.state.Some? && !Allocated(r.state.value)
              && r.state.value.length == source.value.length
              && r.state.value.capacity == source.value.capacity
    ensures r.ok ==> r.state == Clone(source, ok, fill)
  {
    if source.None? || dest.None? then Returned(false, dest)
    else if !ok then Returned(false, Some(Released(source.value.length, source.value.capacity)))
    else Returned(true, Some(Duplicate(source.value, fill)))
  }

  /** `exstr_copy_string(source, dest)`: false with dest untouched when
      either pointer is NULL; otherwise dest holds exactly the source's
      characters and terminator, with capacity one more than its length, or,
      if the new block cannot be allocated, has that length and capacity and
      no block. The source is only read once both pointers are known to be
      non-NULL. */
  function CopyString(source: Option<seq<Char>>, dest: Option<Exstr>, ok: bool): (r: Returned<Option<Exstr>>)
    requires source.Some? && dest.Some? ==> IsCString(source.value)
    ensures r.ok <==> source.Some? && dest.Some? && ok
    ensures source.None? || dest.None? ==> r == Returned(false, dest)
    ensures source.Some? && dest.Some? && !ok ==>
              r.state.Some? && !Allocated(r.state.value)
              && r.state.value.length < |source.value| && source.value[r.state.value.length] == NUL
              && (forall i :: 0 <= i < r.state.value.length ==> source.value[i] != NUL)
              && r.state.value.capacity == r.state.value.length + 1
    ensures r.ok ==> source.Some? && dest.Some? && r.state == FromString(source, ok)
  {
    if source.None? || dest.None? then Returned(false, dest)
    else if !ok then
      var n := StrLen(source.value);
      Returned(false, Some(Released(n, CapacityFor(n))))
    else Returned(true, Some(FromChars(source.value)))
  }

  /** Building a buffer from NUL-free characters followed by a terminator
      gives back exactly those characters. */
  lemma {:induction false} FromStringRoundTrip(t: seq<Char>, rest: seq<Char>)
    requires NUL !in t
    ensures IsCString(t + [NUL] + rest)
    ensures Content(FromString(Some(t + [NUL] + rest), true).value) == t
  {
    StrLenOfTerminated(t, rest);
  }
}
