/** Insertion: `exstr_insert_at` and the public insert and append family
    built on it. */
module Insertion {
  import opened Wrappers
  import opened CStrings
  import opened Buffer

  /** `exstr_insert_at(source, dest, index, k)`: the bytes from `index`
      through the terminator slot at `length` move right by `k`, the inserted
      bytes fill the gap and the length grows by `k`. The move reads its
      source bytes before writing, i.e. it has `memmove` semantics. The caller
      must already have made room for `length + k + 1` bytes. */
  function InsertAt(src: seq<Char>, dest: Exstr, index: nat): (r: Exstr)
    requires Allocated(dest) && index <= dest.length && dest.length + |src| < dest.capacity
    ensures Allocated(r) && r.capacity == dest.capacity
    ensures r.length == dest.length + |src|
    ensures forall i :: 0 <= i < index ==> r.data[i] == dest.data[i]
    ensures forall i :: 0 <= i < |src| ==> r.data[index + i] == src[i]
    ensures forall i :: index <= i <= dest.length ==> r.data[i + |src|] == dest.data[i]
    ensures forall i :: r.length < i < r.capacity ==> r.data[i] == dest.data[i]
  {
    var k := |src|;
    var moved := Write(dest.data, index + k, dest.data[index..dest.length + 1]);
    assert forall i :: index <= i <= dest.length ==> moved[i + k] == dest.data[i] by {
      forall i | index <= i <= dest.length
        ensures moved[i + k] == dest.data[i]
      {
        assert moved[(index + k) + (i - index)] == dest.data[index..dest.length + 1][i - index];
      }
    }
    Exstr(dest.length + k, dest.capacity, Write(moved, index, src))
  }

  /** Inserting into a block that holds a buffer's content and terminator
      slot splices the content and carries the terminator slot to the new
      end. */
  lemma InsertAtSplices(bytes: seq<Char>, before: Exstr, grown: Exstr, index: nat)
    requires WellFormed(before) && Allocated(grown) && index <= before.length
    requires grown.length == before.length && before.length + |bytes| < grown.capacity
    requires forall i :: 0 <= i <= before.length ==> grown.data[i] == before.data[i]
    ensures var after := InsertAt(bytes, grown, index);
            Content(after) == Content(before)[..index] + bytes + Content(before)[index..]
            && after.data[after.length] == before.data[before.length]
  {
    var after := InsertAt(bytes, grown, index);
    var spliced := Content(before)[..index] + bytes + Content(before)[index..];
    assert |Content(after)| == |spliced|;
    forall i | 0 <= i < after.length
      ensures Content(after)[i] == spliced[i]
    {
      if i < index {
        assert spliced[i] == before.data[i];
      } else if i < index + |bytes| {
        assert after.data[index + (i - index)] == bytes[i - index];
      } else {
        assert after.data[(i - |bytes|) + |bytes|] == grown.data[i - |bytes|];
        assert spliced[i] == Content(before)[index..][i - |bytes| - index];
      }
    }
    assert after.data[before.length + |bytes|] == grown.data[before.length];
  }

  /** What a successful insert of `bytes` at `index` leaves: the content is
      the old content with `bytes` spliced in at `index`, the old terminator
      slot now sits at the new length, and the forced reallocation to
      `new length + 1` makes the capacity two more than the new length. */
  predicate Spliced(before: Exstr, after: Exstr, index: nat, bytes: seq<Char>)
    requires WellFormed(before) && index <= before.length
  {
    && WellFormed(after)
    && after.length == before.length + |bytes|
    && after.capacity == after.length + 2
    && Content(after) == Content(before)[..index] + bytes + Content(before)[index..]
    && after.data[after.length] == before.data[before.length]
  }

  /** The part shared by the three inserts once their pointers are known to
      be non-NULL: reject `index >= length`, force a reallocation for the
      combined length, then insert. */
  function Splice(bytes: seq<Char>, dest: Exstr, index: nat, ok: bool, fill: int -> Char): (r: Returned<Exstr>)
    requires WellFormed(dest)
    ensures r.ok <==> index < dest.length && ok
    ensures !r.ok ==> r.state == dest
    ensures r.ok ==> Spliced(dest, r.state, index, bytes)
  {
    if index >= dest.length then Returned(false, dest)
    else
      var newLength := dest.length + |bytes|;
      var grown := Realloc(dest, newLength + 1, true, ok, fill);
      if !grown.ok then Returned(false, dest)
      else
        ReallocKeepsContent(dest, newLength + 1, true, ok, fill);
        InsertAtSplices(bytes, dest, grown.state, index);
        Returned(true, InsertAt(bytes, grown.state, index))
  }

  /** `exstr_insert(source, dest, index)`: inserts the source buffer's
      content. False, with dest unchanged, when either pointer is NULL, when
      `index >= dest.length` or when the reallocation fails. */
  function Insert(source: Option<Exstr>, dest: Option<Exstr>, index: nat, ok: bool, fill: int -> Char)
    : (r: Returned<Option<Exstr>>)
    requires source.Some? ==> WellFormed(source.value)
    requires dest.Some? ==> WellFormed(dest.value)
    ensures r.ok <==> source.Some? && dest.Some? && index < dest.value.length && ok
    ensures !r.ok ==> r.state == dest
    ensures r.ok ==> r.state.Some? && Spliced(dest.value, r.state.value, index, Content(source.value))
  {
    if source.None? || dest.None? || index >= dest.value.length then Returned(false, dest)
    else
      var r := Splice(Content(source.value), dest.value, index, ok, fill);
      Returned(r.ok, Some(r.state))
  }

  /** `exstr_insert_string(source, dest, index)`: as `Insert`, inserting the
      characters of a C string. The source is only read once the pointer and
      index checks have passed. */
  function InsertString(source: Option<seq<Char>>, dest: Option<Exstr>, index: nat, ok: bool, fill: int -> Char)
    : (r: Returned<Option<Exstr>>)
    requires dest.Some? ==> WellFormed(dest.value)
    requires source.Some? && dest.Some? && index < dest.value.length ==> IsCString(source.value)
    ensures r.ok <==> source.Some? && dest.Some? && index < dest.value.length && ok
    ensures !r.ok ==> r.state == dest
    ensures r.ok ==> r.state.Some? && Spliced(dest.value, r.state.value, index, Chars(source.value))
  {
    if source.None? || dest.None? || index >= dest.value.length then Returned(false, dest)
    else
      var r := Splice(Chars(source.value), dest.value, index, ok, fill);
      Returned(r.ok, Some(r.state))
  }

  /** `exstr_insert_char(c, dest, index)`: as `Insert`, inserting one byte
      (which may itself be NUL). */
  function InsertChar(c: Char, dest: Option<Exstr>, index: nat, ok: bool, fill: int -> Char)
    : (r: Returned<Option<Exstr>>)
    requires dest.Some? ==> WellFormed(dest.value)
    ensures r.ok <==> dest.Some? && index < dest.value.length && ok
    ensures !r.ok ==> r.state == dest
    ensures r.ok ==> r.state.Some? && Spliced(dest.value, r.state.value, index, [c])
  {
    if dest.None? || index >= dest.value.length then Returned(false, dest)
    else
      var r := Splice([c], dest.value, index, ok, fill);
      Returned(r.ok, Some(r.state))
  }

  /** `exstr_append(source, dest)`: an insert at `index == dest.length`,
      which the insert's index check rejects, so it never succeeds and never
      changes dest. Dest must not be NULL: its length is read first. */
  function Append(source: Option<Exstr>, dest: Option<Exstr>, ok: bool, fill: int -> Char)
    : (r: Returned<Option<Exstr>>)
    requires source.Some? ==> WellFormed(source.value)
    requires dest.Some? && WellFormed(dest.value)
    ensures r == Returned(false, dest)
  {
    Insert(source, dest, dest.value.length, ok, fill)
  }

  /** `exstr_append_string(source, dest)`: never succeeds, dest unchanged. */
  function AppendString(source: Option<seq<Char>>, dest: Option<Exstr>, ok: bool, fill: int -> Char)
    : (r: Returned<Option<Exstr>>)
    requires dest.Some? && WellFormed(dest.value)
    ensures r == Returned(false, dest)
  {
    InsertString(source, dest, dest.value.length, ok, fill)
  }

  /** `exstr_append_char(c, dest)`: never succeeds, dest unchanged. */
  function AppendChar(c: Char, dest: Option<Exstr>, ok: bool, fill: int -> Char)
    : (r: Returned<Option<Exstr>>)
    requires dest.Some? && WellFormed(dest.value)
    ensures r == Returned(false, dest)
  {
    InsertChar(c, dest, dest.value.length, ok, fill)
  }

  /** A buffer of length 0 accepts no insert at all, whatever is inserted. */
  lemma InsertIntoEmptyFails(source: Option<Exstr>, s: Option<seq<Char>>, c: Char, dest: Exstr,
                             index: nat, ok: bool, fill: int -> Char)
    requires source.Some? ==> WellFormed(source.value)
    requires WellFormed(dest) && dest.length == 0
    ensures Insert(source, Some(dest), index, ok, fill) == Returned(false, Some(dest))
    ensures InsertString(s, Some(dest), index, ok, fill) == Returned(false, Some(dest))
    ensures InsertChar(c, Some(dest), index, ok, fill) == Returned(false, Some(dest))
  {
  }

  /** A successful insert keeps a terminated buffer terminated. */
  lemma InsertKeepsTerminator(source: Option<Exstr>, dest: Exstr, index: nat, ok: bool, fill: int -> Char)
    requires source.Some? ==> WellFormed(source.value)
    requires Valid(dest)
    ensures Insert(source, Some(dest), index, ok, fill).ok ==>
              Valid(Insert(source, Some(dest), index, ok, fill).state.value)
  {
  }

  /** The buffer "ac": inserting 'b' at index 1 gives "abc", while appending
      'b' (an insert at index 2) is refused. */
  lemma InsertCharExample(fill: int -> Char)
    ensures var ac := Exstr(2, 3, [97, 99, 0]);
            var r := InsertChar(98, Some(ac), 1, true, fill);
            r.ok && Content(r.state.value) == [97, 98, 99] && r.state.value.capacity == 5
            && !AppendChar(98, Some(ac), true, fill).ok
  {
    var ac := Exstr(2, 3, [97, 99, 0]);
    assert Content(ac)[..1] + [98] + Content(ac)[1..] == [97, 98, 99];
  }

  /** Appending as the operation's name promises: the new bytes go after the
      old content, at `index == length`, which the written index check
      forbids. A non-NULL dest with a successful reallocation always
      succeeds, the content becomes the old content followed by `bytes`, and
      the terminator slot moves to the new end. */
  function AppendIntended(bytes: seq<Char>, dest: Option<Exstr>, ok: bool, fill: int -> Char)
    : (r: Returned<Option<Exstr>>)
    requires dest.Some? ==> WellFormed(dest.value)
    ensures r.ok <==> dest.Some? && ok
    ensures !r.ok ==> r.state == dest
    ensures r.ok ==> (r.state.Some? && WellFormed(r.state.value)
                      && Content(r.state.value) == Content(dest.value) + bytes
                      && r.state.value.data[r.state.value.length] == dest.value.data[dest.value.length])
  {
    if dest.None? then Returned(false, dest)
    else
      var d := dest.value;
      var grown := Realloc(d, d.length + |bytes| + 1, true, ok, fill);
      if !grown.ok then Returned(false, dest)
      else
        ReallocKeepsContent(d, d.length + |bytes| + 1, true, ok, fill);
        InsertAtSplices(bytes, d, grown.state, d.length);
        var after := InsertAt(bytes, grown.state, d.length);
        assert Content(d)[..d.length] == Content(d) && Content(d)[d.length..] == [];
        assert Content(after) == Content(d) + bytes;
        Returned(true, Some(after))
  }
}
