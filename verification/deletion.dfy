/** Deletion: `exstr_delete_range` and `exstr_delete_at`. */
module Deletion {
  import opened Wrappers
  import opened Buffer

  /** The range check of `exstr_delete_range`: a non-empty range that starts
      inside the content and ends at most at the length. */
  predicate RangeAccepted(b: Exstr, from: nat, to: nat)
  {
    !(from >= to || from >= b.length || to > b.length)
  }

  /** `exstr_delete_range(str, from, to)`: after the range check, the
      `to - from` bytes that follow the range are copied over it. The length
      is not reduced and nothing after the range moves, so the bytes from
      `to` on stay where they were, terminator included. The copy reads bytes
      `[to, 2*to - from)`, which must lie inside the allocation. */
  function DeleteRange(str: Option<Exstr>, from: nat, to: nat): (r: Returned<Option<Exstr>>)
    requires str.Some? ==> WellFormed(str.value)
    requires str.Some? && RangeAccepted(str.value, from, to) ==> 2 * to - from <= str.value.capacity
    ensures r.ok <==> str.Some? && from < to <= str.value.length
    ensures !r.ok ==> r.state == str
    ensures r.ok ==>
              r.state.Some? && WellFormed(r.state.value)
              && r.state.value.length == str.value.length
              && r.state.value.capacity == str.value.capacity
              && (forall i :: from <= i < to ==> r.state.value.data[i] == str.value.data[i + (to - from)])
              && (forall i :: 0 <= i < from ==> r.state.value.data[i] == str.value.data[i])
              && (forall i :: to <= i < str.value.capacity ==> r.state.value.data[i] == str.value.data[i])
  {
    if str.None? || !RangeAccepted(str.value, from, to) then Returned(false, str)
    else
      var b := str.value;
      var data := Write(b.data, from, b.data[to..2 * to - from]);
      assert forall i :: from <= i < to ==> data[i] == b.data[i + (to - from)] by {
        forall i | from <= i < to
          ensures data[i] == b.data[i + (to - from)]
        {
          assert data[from + (i - from)] == b.data[to..2 * to - from][i - from];
        }
      }
      Returned(true, Some(Exstr(b.length, b.capacity, data)))
  }

  /** `exstr_delete_at(str, index)`: the range `[index, index + 1)`. For a
      well-formed buffer the read it makes, of byte `index + 1`, is always
      inside the allocation, so no further precondition is needed. On success
      byte `index` takes the value of byte `index + 1` and nothing else
      changes. */
  function DeleteAt(str: Option<Exstr>, index: nat): (r: Returned<Option<Exstr>>)
    requires str.Some? ==> WellFormed(str.value)
    ensures r.ok <==> str.Some? && index < str.value.length
    ensures !r.ok ==> r.state == str
    ensures r.ok ==>
              r.state.Some? && r.state.value.length == str.value.length
              && r.state.value.capacity == str.value.capacity
              && r.state.value.data == str.value.data[index := str.value.data[index + 1]]
  {
    DeleteRange(str, index, index + 1)
  }

  /** A successful delete never disturbs the terminator slot, which lies at
      or after `to`. */
  lemma DeleteRangeKeepsTerminator(b: Exstr, from: nat, to: nat)
    requires Valid(b)
    requires RangeAccepted(b, from, to) ==> 2 * to - from <= b.capacity
    ensures DeleteRange(Some(b), from, to).ok ==> Valid(DeleteRange(Some(b), from, to).state.value)
  {
  }

  /** Deleting `[2, 4)` from "abcdef" copies "ef" over "cd" and keeps length
      6, leaving "abefef"; the reversed range `[4, 2)` is refused and the
      buffer is unchanged. */
  lemma DeleteRangeExample()
    ensures var b := Exstr(6, 7, [97, 98, 99, 100, 101, 102, 0]);
            var r := DeleteRange(Some(b), 2, 4);
            r.ok && r.state.value.length == 6
            && Content(r.state.value) == [97, 98, 101, 102, 101, 102]
            && DeleteRange(Some(b), 4, 2) == Returned(false, Some(b))
  {
    var b := Exstr(6, 7, [97, 98, 99, 100, 101, 102, 0]);
    var r := DeleteRange(Some(b), 2, 4);
    assert r.state.value.data == [97, 98, 101, 102, 101, 102, 0];
  }

  /** Deletion as the operation's name promises: the bytes from `to` through
      the terminator slot move left to `from` and the length drops by
      `to - from`. Every accepted range stays inside the content, so a
      well-formed buffer is all the call needs; the content loses exactly the
      range, the terminator slot follows the new end and the capacity is
      kept. */
  function DeleteRangeIntended(str: Option<Exstr>, from: nat, to: nat): (r: Returned<Option<Exstr>>)
    requires str.Some? ==> WellFormed(str.value)
    ensures r.ok <==> str.Some? && from < to <= str.value.length
    ensures !r.ok ==> r.state == str
    ensures r.ok ==>
              r.state.Some? && WellFormed(r.state.value)
              && r.state.value.capacity == str.value.capacity
              && Content(r.state.value) == Content(str.value)[..from] + Content(str.value)[to..]
              && r.state.value.data[r.state.value.length] == str.value.data[str.value.length]
  {
    if str.None? || !RangeAccepted(str.value, from, to) then Returned(false, str)
    else
      var b := str.value;
      var after := Exstr(b.length - (to - from), b.capacity, Write(b.data, from, b.data[to..b.length + 1]));
      ghost var kept := Content(b)[..from] + Content(b)[to..];
      assert |Content(after)| == |kept|;
      forall i | 0 <= i < after.length
        ensures Content(after)[i] == kept[i]
      {
        if i >= from {
          assert after.data[from + (i - from)] == b.data[to..b.length + 1][i - from];
        }
      }
      assert after.data[from + (b.length - to)] == b.data[to..b.length + 1][b.length - to];
      Returned(true, Some(after))
  }

  /** The intended deletion of `[2, 4)` from "abcdef" leaves "abef". */
  lemma DeleteRangeIntendedExample()
    ensures var b := Exstr(6, 7, [97, 98, 99, 100, 101, 102, 0]);
            var r := DeleteRangeIntended(Some(b), 2, 4);
            r.ok && r.state.value.length == 4 && Content(r.state.value) == [97, 98, 101, 102]
  {
    var b := Exstr(6, 7, [97, 98, 99, 100, 101, 102, 0]);
    assert Content(b)[..2] + Content(b)[4..] == [97, 98, 101, 102];
  }
}
