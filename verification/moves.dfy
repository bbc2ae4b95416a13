/** The byte moves of insertion and deletion written as loops over a block,
    the way `memmove` and `memcpy` carry them out, each shown to produce the
    block the functional model describes. */
module Moves {
  import opened Wrappers
  import opened CStrings
  import opened Buffer
  import opened Insertion
  import opened Deletion

  /** The block after `exstr_insert_at`: the tail from `index` through the
      terminator slot is moved right by `|src|`, last byte first so that the
      overlapping source bytes are read before they are overwritten, then
      `src` is copied into the gap. */
  method InsertAtInPlace(src: seq<Char>, dest: Exstr, index: nat) returns (data: seq<Char>)
    requires Allocated(dest) && index <= dest.length && dest.length + |src| < dest.capacity
    ensures data == InsertAt(src, dest, index).data
  {
    var k := |src|;
    var a := new Char[dest.capacity](i requires 0 <= i < dest.capacity => dest.data[i]);
    var j := dest.length + 1 - index;
    while j > 0
      invariant 0 <= j <= dest.length + 1 - index
      invariant forall i :: 0 <= i < index + k + j ==> a[i] == dest.data[i]
      invariant forall i :: index + j <= i <= dest.length ==> a[i + k] == dest.data[i]
      invariant forall i :: dest.length + k < i < dest.capacity ==> a[i] == dest.data[i]
    {
      j := j - 1;
      a[index + j + k] := a[index + j];
    }
    var m := 0;
    while m < k
      invariant 0 <= m <= k
      invariant forall i :: 0 <= i < index ==> a[i] == dest.data[i]
      invariant forall i :: 0 <= i < m ==> a[index + i] == src[i]
      invariant forall i :: index <= i <= dest.length ==> a[i + k] == dest.data[i]
      invariant forall i :: dest.length + k < i < dest.capacity ==> a[i] == dest.data[i]
    {
      a[index + m] := src[m];
      m := m + 1;
    }
    data := a[..];
    var r := InsertAt(src, dest, index);
    forall i | 0 <= i < dest.capacity
      ensures data[i] == r.data[i]
    {
      if i < index {
      } else if i < index + k {
        assert a[index + (i - index)] == src[i - index];
        assert r.data[index + (i - index)] == src[i - index];
      } else if i <= dest.length + k {
        assert a[(i - k) + k] == dest.data[i - k];
        assert r.data[(i - k) + |src|] == dest.data[i - k];
      }
    }
  }

  /** The block after `exstr_delete_range`: a forward copy of the `to - from`
      bytes after the range over the range. The two regions are adjacent and
      never overlap. */
  method DeleteRangeInPlace(b: Exstr, from: nat, to: nat) returns (data: seq<Char>)
    requires WellFormed(b) && RangeAccepted(b, from, to) && 2 * to - from <= b.capacity
    ensures data == DeleteRange(Some(b), from, to).state.value.data
  {
    var a := new Char[b.capacity](i requires 0 <= i < b.capacity => b.data[i]);
    var j := 0;
    while j < to - from
      invariant 0 <= j <= to - from
      invariant forall i :: 0 <= i < from ==> a[i] == b.data[i]
      invariant forall i :: from <= i < from + j ==> a[i] == b.data[i + (to - from)]
      invariant forall i :: from + j <= i < b.capacity ==> a[i] == b.data[i]
    {
      a[from + j] := a[to + j];
      j := j + 1;
    }
    data := a[..];
  }
}
