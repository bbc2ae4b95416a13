# exstr in Dafny

A model of `libexstr`, a dynamically resizable, NUL-terminated C byte
buffer, with proofs about it. The C record `exstr` holds a logical `length`,
an allocated `capacity` and a `char *` block. The library builds it, copies
it, inserts into it, deletes from it and compares it. The model follows the
code as written. Where the code does something other than what the function
names and comments lead one to expect, the model says so in lemmas, and a
corrected definition is proved beside it (see "## Findings"). The expected
behaviour is read from the header's "Appends to the end" for the append
family (src/exstr.h:131), from the names `exstr_delete_range` and
`exstr_delete_at`, and from the comparisons' source comments that a 0 result
means equal strings (src/exstr.c:346, 364).

Modules, in dependency order:

- `Wrappers` (`wrappers.dfy`): `Option` stands for a pointer that may be
  NULL. `Returned(ok, state)` is the boolean a mutating call returns together
  with the object it leaves behind.
- `CStrings` (`cstrings.dfy`): `Char` is a signed byte. This file also holds
  C strings and `strlen`.
- `Buffer` (`buffer.dfy`): the record `Exstr(length, capacity, data)` and
  its invariants. `Allocated` means `|data| == capacity`. `WellFormed` adds
  `length < capacity`. `Valid` adds the terminator at `length`. The file
  also holds `get_capacity`, `realloc` semantics and `exstr_realloc`.
- `Lifecycle` (`lifecycle.dfy`): `exstr_init`, `exstr_new`,
  `exstr_from_string`, `exstr_clone`, `exstr_copy` and `exstr_copy_string`.
- `Insertion` (`insertion.dfy`): `exstr_insert_at` and the insert and
  append family.
- `Deletion` (`deletion.dfy`): `exstr_delete_range` and `exstr_delete_at`.
- `Comparison` (`comparison.dfy`): `exstr_compare` and
  `exstr_compare_string`.
- `Moves` (`moves.dfy`): the byte moves of insert and delete written as
  loops over an array, each proved equal to the functional block.

Two things the C program gets from outside are parameters here:

- **Allocation success.** Each call takes one flag `ok`. Either every
  allocation the call makes succeeds, or the call takes its failure exit.
- **Uninitialised bytes.** The bytes a fresh or grown block holds before
  they are written come from `fill: int -> Char`, which gives the byte at
  each offset.

A constructor that fails yields `None`. `exstr_copy` and
`exstr_copy_string` return false: with dest untouched when a pointer is
NULL, and with dest holding no block (`Lifecycle.Released`) when the
allocation fails.

The model follows the code even where it differs from what an operation's
name or comments lead one to expect:

- The append functions never succeed.
- `exstr_delete_range` does not shorten the buffer.
- `exstr_init` and `exstr_new` write no terminator.
- `exstr_compare` on unequal lengths looks only at one byte of the longer
  operand.
- `exstr_compare_string` returns 0 for a buffer that is a proper prefix of
  the string.

## Model

| member | source | states |
|---|---|---|
| `CStrings.StrLen` | src/exstr.c:125 | `strlen` returns the index of the first NUL: every byte before it is non-zero and the byte at it is the terminator |
| `CStrings.StrLenOfTerminated` | src/exstr.c:125-137 | NUL-free characters followed by a terminator have exactly their own count as `strlen`, and `Chars` gives them back |
| `Buffer.CapacityFor` | src/exstr.c:21-23 | `get_capacity` leaves room for the length and exactly one terminator byte |
| `Buffer.Realloc` | src/exstr.c:37-56 | an unforced request no larger than the capacity succeeds and changes nothing; otherwise success sets capacity to length + 1 and keeps the old bytes, and allocation failure returns false with the buffer unchanged |
| `Buffer.ReallocKeepsContent` | src/exstr.c:45-53 | a successful reallocation to at least the current length keeps the buffer well-formed and keeps its content and terminator slot |
| `Buffer.ReallocUnforcedShortfall` | src/exstr.c:40-43 | the unforced test accepts a request equal to the capacity, so the call reports success with no room left for the terminator |
| `Buffer.ReallocIntended` | src/exstr.c:37-56 | with the test `length < capacity`, every successful reallocation leaves capacity above the requested length, and failure leaves the buffer unchanged |
| `Buffer.ReallocForcedAgrees` | src/exstr.c:252 | forced reallocation, the only kind the library performs, behaves the same under the written and the corrected test |
| `Lifecycle.Init` | src/exstr.c:58-77 | succeeds exactly when allocation does; length is the requested one, or 128 when 0 is requested, so it is never 0; capacity is length + 1; the bytes are the allocator's, with no terminator written |
| `Lifecycle.New` | src/exstr.c:80-108 | NULL exactly on allocation failure; otherwise length is the requested one (or 128) and capacity is length + 1 |
| `Lifecycle.FromString` | src/exstr.c:110-143 | NULL for a NULL source or on allocation failure; otherwise the buffer is terminated, its NUL-free content is the source's bytes before the first NUL, and its capacity is length + 1 |
| `Lifecycle.Clone` | src/exstr.c:145-174 | NULL for a NULL source or on allocation failure; otherwise length, capacity and content are the source's, the byte at the length is the source's byte there, and so the clone is terminated exactly when the source is |
| `Lifecycle.Released` | src/exstr.c:183-192 | the object a failed copy leaves: length and capacity already overwritten, and no allocated block |
| `Lifecycle.Copy` | src/exstr.c:176-196 | false with dest unchanged when either pointer is NULL; false with dest holding the source's length and capacity but no block when allocation fails; otherwise true, and dest becomes exactly what `exstr_clone` of the source gives, for a source distinct from dest |
| `Lifecycle.CopyString` | src/exstr.c:198-222 | false with dest unchanged when either pointer is NULL, and the source is read only when both are non-NULL; false with dest holding the string's length, capacity length + 1 and no block when allocation fails; otherwise true, and dest becomes exactly what `exstr_from_string` of the source gives, for a source distinct from dest |
| `Lifecycle.FromStringRoundTrip` | src/exstr.c:110-143 | building from NUL-free characters plus a terminator, with any memory after it, gives back exactly those characters |
| `Insertion.InsertAt` | src/exstr.c:227-238 | bytes before `index` are unchanged, the inserted bytes fill `[index, index+k)`, and the old bytes `index..length`, terminator slot included, sit k places to the right; bytes past the new terminator slot are untouched; length grows by k |
| `Insertion.InsertAtSplices` | src/exstr.c:227-238 | on a block holding the buffer's content and terminator slot, the insert makes the content `old[..index] + src + old[index..]` and moves the old terminator slot to the new length |
| `Insertion.Splice` | src/exstr.c:248-256 | shared by the three inserts: it fails, changing nothing, exactly when `index >= length` or allocation fails; otherwise the content is spliced, the terminator slot moves to the end and capacity is new length + 2 |
| `Insertion.Insert` | src/exstr.c:240-257 | succeeds exactly when both pointers are non-NULL, `index < dest.length` and allocation succeeds; on failure dest is unchanged; on success the source's content is spliced in at `index` and capacity is new length + 2 |
| `Insertion.InsertString` | src/exstr.c:259-278 | as `Insert`, splicing in the C string's characters; the string need only be terminated when the pointer and index checks pass |
| `Insertion.InsertChar` | src/exstr.c:280-292 | as `Insert`, splicing in the single byte |
| `Insertion.Append` | src/exstr.c:296-298 | always returns false and leaves dest unchanged, because it inserts at `index == length`, which the insert rejects |
| `Insertion.AppendString` | src/exstr.c:300-302 | always returns false and leaves dest unchanged |
| `Insertion.AppendChar` | src/exstr.c:304-306 | always returns false and leaves dest unchanged |
| `Insertion.InsertIntoEmptyFails` | src/exstr.c:240-292 | no insert into a length-0 buffer succeeds, at any index |
| `Insertion.InsertKeepsTerminator` | src/exstr.c:227-256 | a successful insert into a terminated buffer leaves it terminated |
| `Insertion.InsertCharExample` | src/exstr.c:280-306 | with "ac", inserting 'b' at 1 gives "abc" with capacity 5, while appending 'b' fails |
| `Insertion.AppendIntended` | src/exstr.h:130-158 | an append that inserts at the end succeeds exactly when dest is non-NULL and allocation succeeds; the content becomes old content followed by the new bytes, and the terminator slot follows |
| `Deletion.DeleteRange` | src/exstr.c:312-323 | accepts exactly `from < to <= length`, leaving the buffer unchanged otherwise; on acceptance length and capacity are unchanged, bytes `[from, to)` become bytes `[to, 2*to-from)`, and every other byte is unchanged |
| `Deletion.DeleteAt` | src/exstr.c:308-310 | for any well-formed buffer the one-byte range is in bounds; it succeeds exactly when `index < length`, and then byte `index` takes the value of byte `index+1` and nothing else changes |
| `Deletion.DeleteRangeKeepsTerminator` | src/exstr.c:318-320 | an accepted delete leaves a terminated buffer terminated |
| `Deletion.DeleteRangeExample` | src/exstr.c:312-323 | deleting `[2, 4)` from "abcdef" leaves length 6 and content "abefef"; `[4, 2)` is refused with the buffer unchanged |
| `Deletion.DeleteRangeIntended` | src/exstr.c:312-323 | the range-closing delete accepts the same ranges and needs only a well-formed buffer; the content becomes `old[..from] + old[to..]`, the terminator slot follows and capacity is kept |
| `Deletion.DeleteRangeIntendedExample` | src/exstr.c:312-323 | the range-closing delete of `[2, 4)` from "abcdef" leaves "abef" |
| `Comparison.Scan` | src/exstr.c:338-347 | the comparison loop returns 0 exactly when the ranges agree, and otherwise the byte difference at the first mismatch |
| `Comparison.Compare` | src/exstr.c:325-349 | on unequal lengths it returns the longer operand's byte at the shorter's length; on equal lengths it is 0 exactly for identical content, and otherwise the difference at the first mismatch |
| `Comparison.CompareEqualLengths` | src/exstr.c:333-348 | the pointer-stepping loop with an early return computes the same value as `Compare` |
| `Comparison.CompareIgnoresOrder` | src/exstr.c:326-332 | on unequal lengths, swapping the arguments does not change the result |
| `Comparison.CompareSkipsPrefix` | src/exstr.c:326-332 | on unequal lengths, the shorter operand's bytes do not affect the result |
| `Comparison.CompareExample` | src/exstr.c:325-349 | "ab" against "abc" gives 99 in both orders; "abc" against "abd" gives -1; "abc" against itself gives 0 |
| `Comparison.CloneComparesEqual` | src/exstr.c:157-171 | a clone compares equal to its source |
| `Comparison.CompareString` | src/exstr.c:351-366 | 0 exactly when the buffer's `length` bytes are a prefix of the string; otherwise the byte difference at the first mismatch |
| `Comparison.FromStringComparesEqual` | src/exstr.c:110-143 | a buffer built from a C string compares 0 against that string |
| `Comparison.CompareStringPrefixExample` | src/exstr.c:357-365 | the buffer "ab" compares 0 against the string "abc" |
| `Comparison.LexDiff` | src/exstr.c:325-366 | comparing with an implicit zero after the shorter sequence: NUL-free sequences compare 0 exactly when equal |
| `Comparison.LexDiffAntisymmetric` | src/exstr.c:325-366 | swapping the operands of the intended comparison negates it |
| `Comparison.LexDiffPrefix` | src/exstr.c:326-332 | a proper prefix compares as the negated next byte of the longer sequence |
| `Comparison.CompareIntended` | src/exstr.c:325-349 | the intended buffer comparison is antisymmetric, is 0 exactly for equal NUL-free content, and ranks a proper prefix by the negated next byte |
| `Comparison.CompareStringIntended` | src/exstr.c:351-366 | the intended string comparison is 0 exactly when the NUL-free content equals the string's characters, and a proper prefix is no longer 0 |
| `Comparison.CompareIntendedExample` | src/exstr.c:325-366 | under the intended comparison "ab" sorts before the buffer "abc" and before the string "abc" |
| `Moves.InsertAtInPlace` | src/exstr.c:229-232 | a backward byte-by-byte move of the tail, then a copy into the gap, yields the block `InsertAt` describes |
| `Moves.DeleteRangeInPlace` | src/exstr.c:320 | a forward byte-by-byte copy over the range yields the block `DeleteRange` describes |

## Left out

- `exstr_free` and `clear_data` (src/exstr.c:28-32, 368-375) are left out. They only release memory, and the model has no ownership or lifetime.
- `exstr_clear` and `exstr_zero` are called by test/exstr-test.c but are defined in no source file of this model. They are not part of this model.
- The `null_term` field of the record is written but never read, so the record has no such field.
- `Lifecycle.Copy`, `Lifecycle.CopyString`: after a failed allocation dest's `str` field is NULL. The model represents that as an empty block with a positive capacity, and has no separate NULL pointer inside a record.
- Allocation is one flag per call. `exstr_new`, `exstr_from_string` and `exstr_clone` allocate twice, and a failure of either returns NULL. The model does not say which allocation failed.
- `Lifecycle.Clone`: the C code frees the uninitialised `str` field of a freshly allocated record before allocating. That is undefined behaviour, and the model treats it as absent.
- `Insertion.InsertAt`: the shift is a `memcpy` over overlapping ranges, which is undefined in C. It is modelled with `memmove` semantics.
- Self-insertion, where source and dest are the same object, cannot be stated with immutable values. The model treats source as the value it had before the call.
- `Lifecycle.Copy`, `Lifecycle.CopyString`: source and dest are assumed distinct, because aliasing cannot be stated with immutable values. In the C code `exstr_copy(x, x)` frees `x`'s block (src/exstr.c:188) and then copies the fresh uninitialised block onto itself (:189-193), losing the content. `exstr_copy_string(x->str, x)` reads the freed block (:219). The model instead copies the source's value from before the call.
- `Insertion.Append`, `Insertion.AppendString`, `Insertion.AppendChar`: the C code reads `dest->length` before any NULL check, so a non-NULL dest is a precondition.
- `Deletion.DeleteRange`: reading past the allocation is undefined, so the accepted case requires `2*to - from <= capacity`.
- `Comparison.CompareString`: a precondition requires every byte the loop reads, up to the first mismatch, to lie inside the string.
- `Comparison.Compare`, `Comparison.CompareString`, `Lifecycle.Init`: the C code dereferences its object arguments without a NULL check (src/exstr.c:327-330, 353-354, 60-67). The comparisons therefore take buffers, not optional buffers. `Init` takes no object and returns the one it initialises, so a NULL `str` is not modelled.
- `size_t` arithmetic is unbounded (`nat`), so overflow is not modelled. `int` differences of two chars cannot overflow.
- `char` is modelled as signed, because its signedness is implementation-defined.
- The C-standard version checks (src/exstr.h:15-23) and the test file's console output are build and reporting code, not behaviour.
- Working appends (src/exstr.h:131), shrinking deletes (the operation names) and `strcmp`-style comparison (the 0-result comments at src/exstr.c:346 and 364) are what the code evidently intends. The main model follows the code instead. The intended behaviour appears only in the corrected members listed under Findings.

## Findings

| source | as written | input that shows it | evidently intended | confidence | as-written member | corrected member |
|---|---|---|---|---|---|---|
| src/exstr.c:296-306 | append calls insert at `index == dest.length`, and insert rejects `index >= length` | any well-formed dest and any source: append returns false | append adds the bytes after the content | high; not executed | `Insertion.Append` | `Insertion.AppendIntended` |
| src/exstr.c:312-323 | copies `to - from` bytes from `to` over the range; the length stays the same and the tail does not move | "abcdef", range `[2, 4)`: length stays 6 and content becomes "abefef" | content "abef" with length 4 | high; not executed | `Deletion.DeleteRangeExample` | `Deletion.DeleteRangeIntended` |
| src/exstr.c:326-332 | on unequal lengths, returns the longer operand's byte at the shorter's length, whatever the argument order and prefix | "ab" vs "abc" returns 99, and "abc" vs "ab" also returns 99 | "ab" sorts before "abc", and the sign flips with the argument order | high; not executed | `Comparison.CompareExample` | `Comparison.CompareIntended` |
| src/exstr.c:357-365 | compares only the buffer's `length` bytes, never the string's terminator | buffer "ab" vs string "abc" returns 0 | non-zero, with the shorter one first | high; not executed | `Comparison.CompareStringPrefixExample` | `Comparison.CompareStringIntended` |
| src/exstr.c:41 | unforced reallocation is skipped when `length <= capacity` | capacity 5 with requested length 5, unforced: returns true with capacity 5 | capacity of at least 6 (`get_capacity(5)`). Another reading is possible: if callers are meant to pass the length plus one, as every caller in the library does, then `<=` is right, and `get_capacity`'s extra byte over-allocates by one (capacity = new length + 2) | medium (no caller in the library passes `force == false`, and the intended convention is ambiguous); not executed | `Buffer.ReallocUnforcedShortfall` | `Buffer.ReallocIntended` |
