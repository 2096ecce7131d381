# SimpleVector in Dafny

A model of `SimpleVector<Type>`, a growable contiguous array with an owned buffer
(`items_`), a logical size (`size_`) and a capacity (`capacity_`), together with the
capacity hint `ReserveProxyObj` and the free comparison operators.

- `vector_spec.dfy` (module `VectorSpec`): the observable state of a vector (its live
  elements `[0, size)` and its capacity) and, for every mutator, the state it leaves
  behind, as functions on values; lemmas relating the mutators to one another; and a
  lemma that `size <= capacity` survives any admissible run of operations while the
  capacity never drops.
- `buffer_ops.dfy` (module `BufferOps`): the element loops run on the buffer:
  `std::fill`/`std::generate`, `std::copy` into a fresh buffer, and the overlapping
  one-place shifts of `Insert` (`std::copy_backward`) and `Erase` (`std::copy`).
- `simple_vector.dfy` (module `Vector`): the class `SimpleVector<T>` with the fields
  `items: array<T>`, `size` and `capacity`, the invariant `Valid()`
  (`size <= capacity == items.Length`), every constructor, accessor and mutator, the
  free `Reserve` and the six comparison operators. Each mutator is proved against its
  function in `VectorSpec` and states what happens to the buffer (kept or freshly
  allocated, and which slots are untouched).
- `lexicographic.dfy` (module `Lexicographic`): `std::equal` and
  `std::lexicographical_compare` on sequences, proved equal to sequence equality and to
  a reference definition of lexicographic order; the order is irreflexive, asymmetric,
  transitive and total when the element order is a strict total order.

The value `Type()` is the constant field `dflt`, passed to each constructor; a freshly
allocated buffer holds it in every slot. The element type's `operator<` is the
parameter `less` of the ordering operators, and its `operator==` is Dafny equality.
Insert and Erase take an index instead of an iterator.

Where the documented design and the code differ, the model follows the code: the copy
constructor keeps the source's capacity rather than its size (line 59), and move
assignment copies rather than moves (lines 79-85). Both are under "## Findings", with
the intended versions beside them.

## Model

| member | source | states |
|---|---|---|
| `VectorSpec.GrownCapacity` | simple-vector/simple_vector.h:202 | the growth rule gives 1 for capacity 0 and twice the capacity otherwise, so there is always room for one more element |
| `VectorSpec.Resize` | simple-vector/simple_vector.h:142-157 | the size becomes n; elements below min(size, n) are kept; new slots hold Type(); the capacity is kept when n fits and becomes max(n, 2 * capacity) when it does not; size <= capacity still holds |
| `VectorSpec.Clear` | simple-vector/simple_vector.h:136-138 | no live elements remain and the capacity is unchanged |
| `VectorSpec.Reserve` | simple-vector/simple_vector.h:276-284 | the live elements are kept and the capacity becomes max(c, capacity): a no-op when c does not exceed it, exactly c otherwise |
| `VectorSpec.PushBack` | simple-vector/simple_vector.h:197-219 | one more element, x, at the end, with the earlier ones unchanged; the capacity is kept when there was room and follows the growth rule when the vector was full |
| `VectorSpec.Insert` | simple-vector/simple_vector.h:225-252 | x lands at index, the prefix before index is unchanged and the suffix moves up by one; a full vector grows by the growth rule first, otherwise the capacity is kept |
| `VectorSpec.Erase` | simple-vector/simple_vector.h:260-267 | the element at index is gone, the prefix is unchanged and the suffix moves down by one; the capacity is unchanged |
| `VectorSpec.PopBack` | simple-vector/simple_vector.h:255-257 | exactly the last element is dropped; the capacity is unchanged |
| `VectorSpec.ClearIsResizeToZero` | simple-vector/simple_vector.h:136-138 | Clear() is Resize(0) whatever Type() is |
| `VectorSpec.ClearIdempotent` | simple-vector/simple_vector.h:135-138 | a second Clear() changes nothing |
| `VectorSpec.ReserveIdempotent` | simple-vector/simple_vector.h:276-284 | a second Reserve(c) changes nothing |
| `VectorSpec.PushBackIsInsertAtEnd` | simple-vector/simple_vector.h:197-252 | PushBack(x) and Insert(end(), x) leave the same elements and the same capacity |
| `VectorSpec.InsertThenErase` | simple-vector/simple_vector.h:225-267 | Erase at the index just inserted at restores the original elements; the capacity never shrinks back |
| `VectorSpec.PushBackThenPopBack` | simple-vector/simple_vector.h:197-257 | PopBack undoes PushBack on the elements |
| `VectorSpec.Apply` | simple-vector/simple_vector.h:136-284 | every mutator, called within its precondition, keeps size <= capacity and never lowers the capacity |
| `VectorSpec.RunKeepsInvariant` | simple-vector/simple_vector.h:136-284 | after any sequence of admissible mutator calls size <= capacity still holds and the capacity is at least what it was |
| `BufferOps.Fill` | simple-vector/simple_vector.h:146 | every slot of [from, to) holds the value and no other slot changes |
| `BufferOps.CopyPrefix` | simple-vector/simple_vector.h:279-280 | the first n slots of the destination equal those of the source and the rest of the destination is untouched |
| `BufferOps.ShiftRight` | simple-vector/simple_vector.h:233 | each slot of (lo, hi] receives the old value of the slot below it; every other slot is untouched |
| `BufferOps.ShiftLeft` | simple-vector/simple_vector.h:263-264 | each slot of [lo, hi - 1) receives the old value of the slot above it; every other slot is untouched |
| `Vector.ReserveProxyObj.GetCapacity` | simple-vector/simple_vector.h:18-20 | the requested capacity the hint carries, the value it was built from |
| `Vector.Reserve` | simple-vector/simple_vector.h:25-27 | the hint carries exactly the requested capacity |
| `Vector.SimpleVector.Empty` | simple-vector/simple_vector.h:35 | no elements, capacity 0, and the invariant holds |
| `Vector.SimpleVector.OfSize` | simple-vector/simple_vector.h:38-42 | n elements, all Type(), capacity n |
| `Vector.SimpleVector.Filled` | simple-vector/simple_vector.h:45-49 | n elements, all equal to value, capacity n |
| `Vector.SimpleVector.FromList` | simple-vector/simple_vector.h:52-56 | the listed values in order, capacity equal to their number |
| `Vector.SimpleVector.CopyAsWritten` | simple-vector/simple_vector.h:58-62 | the copy has the source's elements and a buffer of source-size slots but claims the source's capacity, so the invariant holds exactly when the source was full |
| `Vector.SimpleVector.Copy` | simple-vector/simple_vector.h:58-62 | the copy has the source's elements, capacity equal to their number, and the invariant holds |
| `Vector.SimpleVector.Move` | simple-vector/simple_vector.h:64-69 | the new vector takes over the source's buffer, size and capacity; the source is left with size 0 and capacity 0 |
| `Vector.SimpleVector.FromReserveAsWritten` | simple-vector/simple_vector.h:87-90 | size 0 and the hinted capacity but no buffer, so the invariant holds only for a hint of 0 |
| `Vector.SimpleVector.FromReserve` | simple-vector/simple_vector.h:87-90 | no elements and a buffer of exactly the hinted capacity |
| `Vector.SimpleVector.GetSize` | simple-vector/simple_vector.h:93-95 | the number of live elements |
| `Vector.SimpleVector.GetCapacity` | simple-vector/simple_vector.h:98-100 | for a valid vector, the length of the buffer, never below the size |
| `Vector.SimpleVector.IsEmpty` | simple-vector/simple_vector.h:103-105 | true exactly when there are no live elements |
| `Vector.SimpleVector.Get` | simple-vector/simple_vector.h:113-115 | the live element at index (index < size required: unchecked access) |
| `Vector.SimpleVector.Set` | simple-vector/simple_vector.h:108-110 | writing through operator[] replaces exactly the element at index |
| `Vector.SimpleVector.At` | simple-vector/simple_vector.h:119-133 | fails with out-of-range exactly when index >= size, otherwise yields the element at index; reads only |
| `Vector.SimpleVector.Reserve` | simple-vector/simple_vector.h:276-284 | the new state is VectorSpec.Reserve of the old; a larger capacity allocates a fresh buffer whose spare slots hold Type(), otherwise the buffer is kept |
| `Vector.SimpleVector.Resize` | simple-vector/simple_vector.h:142-157 | the new state is VectorSpec.Resize of the old; within capacity the buffer is kept and only [size, n) is written, otherwise a fresh buffer with Type() in its spare slots |
| `Vector.SimpleVector.Clear` | simple-vector/simple_vector.h:136-138 | the new state is VectorSpec.Clear of the old and no slot of the buffer changes |
| `Vector.SimpleVector.PushBack` | simple-vector/simple_vector.h:197-219 | the new state is VectorSpec.PushBack of the old and At(size - 1) then yields the pushed item |
| `Vector.SimpleVector.Insert` | simple-vector/simple_vector.h:225-252 | the new state is VectorSpec.Insert of the old and the returned position is index |
| `Vector.SimpleVector.PopBack` | simple-vector/simple_vector.h:255-257 | the new state is VectorSpec.PopBack of the old; the buffer is not touched |
| `Vector.SimpleVector.Erase` | simple-vector/simple_vector.h:260-267 | for index < size, the new state is VectorSpec.Erase of the old, the returned position is index and the slots from the new size on are untouched |
| `Vector.SimpleVector.Swap` | simple-vector/simple_vector.h:270-274 | buffers, sizes and capacities are exchanged, also when a vector is swapped with itself |
| `Vector.SimpleVector.CopyAssignAsWritten` | simple-vector/simple_vector.h:71-77 | the target gets rhs's elements through the copy constructor as written (so rhs's capacity for a buffer of rhs-size slots); rhs is untouched; self-assignment changes nothing |
| `Vector.SimpleVector.CopyAssign` | simple-vector/simple_vector.h:71-77 | the target becomes a valid copy of rhs; rhs is untouched; self-assignment changes nothing |
| `Vector.SimpleVector.MoveAssignAsWritten` | simple-vector/simple_vector.h:79-85 | like copy assignment as written: rhs keeps its elements |
| `Vector.SimpleVector.MoveAssign` | simple-vector/simple_vector.h:79-85 | the target takes over rhs's buffer, size and capacity and rhs is left empty with capacity 0 |
| `Vector.Equal` | simple-vector/simple_vector.h:292-298 | true exactly when the sizes agree and the live elements are pairwise equal, that is when the element sequences are equal |
| `Vector.NotEqual` | simple-vector/simple_vector.h:300-303 | true exactly when the element sequences differ |
| `Vector.Less` | simple-vector/simple_vector.h:305-308 | true exactly when the elements of lhs come lexicographically before those of rhs (reference definition) |
| `Vector.Greater` | simple-vector/simple_vector.h:315-318 | true only for different vectors; for a strict total element order exactly when rhs < lhs |
| `Vector.LessEq` | simple-vector/simple_vector.h:310-313 | true for equal vectors; for a strict total element order exactly when lhs < rhs or lhs == rhs |
| `Vector.GreaterEq` | simple-vector/simple_vector.h:320-323 | for a strict total element order, exactly when rhs < lhs or lhs == rhs |
| `Vector.Trichotomy` | simple-vector/simple_vector.h:292-323 | for an irreflexive element order exactly one of <, == and > holds |
| `Vector.LessIsStrictTotalOrder` | simple-vector/simple_vector.h:305-308 | for a strict total element order, < on vectors is irreflexive, asymmetric, transitive and total on different vectors |
| `Vector.EqualIsEquivalence` | simple-vector/simple_vector.h:292-298 | == is reflexive, symmetric and transitive |
| `Vector.EraseCheckAdmitsEnd` | simple-vector/simple_vector.h:260-265 | on a valid vector, the check as written admits exactly one index for which the shift of Erase cannot run, index == size; the shift is defined exactly for the indices the corrected Erase admits |
| `Vector.CopyAsWrittenOverclaims` | simple-vector/simple_vector.h:58-62 | a copy, as written, of an empty vector with capacity 1 claims capacity 1 on a buffer of 0 slots |
| `Vector.FromReserveAsWrittenOverclaims` | simple-vector/simple_vector.h:87-90 | a vector built, as written, from Reserve(5) claims 5 slots of an empty buffer |
| `Vector.MoveAssignAsWrittenKeepsSource` | simple-vector/simple_vector.h:79-85 | moving, as written, out of {1, 2} leaves the source holding 1, 2 |
| `Lexicographic.RangesEqual` | simple-vector/simple_vector.h:295 | std::equal over two ranges holds exactly when they have the same length and agree pointwise, i.e. are equal |
| `Lexicographic.LexCompare` | simple-vector/simple_vector.h:307 | std::lexicographical_compare holds exactly when the reference lexicographic order holds |
| `Lexicographic.LexIrreflexive` | simple-vector/simple_vector.h:307 | no sequence is less than itself when no element is |
| `Lexicographic.LexAsymmetric` | simple-vector/simple_vector.h:307 | s < t excludes t < s for a strict element order |
| `Lexicographic.LexConnected` | simple-vector/simple_vector.h:307 | different sequences are ordered one way or the other for a connected element order |
| `Lexicographic.LexTransitive` | simple-vector/simple_vector.h:307 | the order is transitive for a strict total element order |
| `Lexicographic.ConverseIfTotal` | simple-vector/simple_vector.h:317 | for a strict total element order, !(s < t) && s != t holds exactly when t < s |

## Left out

- Iterators (`begin`, `end`, `cbegin`, `cend`) and pointer arithmetic: positions are indices into the live range.
- Move versus copy: each pair of overloads (`PushBack`, `Insert`) is one method with value semantics; the value a `std::swap` leaves in the caller's argument and `std::make_move_iterator` are not modelled, and neither is `noexcept`.
- Aliasing of a by-reference argument: `Insert` and `PushBack` take the value as passed. In C++, `v.Insert(v.begin(), v[1])` reads its argument after the `std::copy_backward` at line 233 has shifted the referenced slot, so it inserts the old `v[0]`; and on the growth paths a reference into the old buffer dangles once `Reserve` replaces it. The model captures neither.
- Element equality: the element type's `operator==` is Dafny equality, which is reflexive. `Vector.EqualIsEquivalence`, the clause of `Vector.Greater` that greater vectors differ and the clause of `Vector.LessEq` that equal vectors compare less-or-equal rely on that; an element type whose `==` is not reflexive (a floating-point NaN makes `v == v` false) is not modelled.
- PushBack: the growth branch of the `const Type&` overload (line 204) passes a const reference to `std::swap`, which cannot bind to it; the model stores the item in the slot, which is what the other branch and the other overload do.
- The buffer owner `ArrayPtr` (array_ptr.h) is not part of this model: a buffer is a Dafny array whose fresh slots hold Type(); a null buffer is an array of length 0; releasing a buffer on destruction is not modelled, and neither is what a moved-from `ArrayPtr` holds (the model gives the source a fresh empty array).
- Allocation failure and the exception-safety of the growth paths: they depend on the allocator, which is outside the model.
- `size_t` is an unbounded natural number: the wrap-around of `capacity_ * 2` and of `--size_` on an empty vector are not modelled; `PopBack` on an empty vector and unchecked `operator[]` out of range are excluded by preconditions.
- Self-assignment is detected by object identity (`rhs != this`) instead of by address.
- Type() is a constant `dflt` per vector; `Swap` and the assignments require both vectors to agree on it, as two vectors of one element type do.
- Writing through the reference returned by the non-const `At` is not modelled separately: it is `Set` after the bounds check of `At`.

## Findings

| source | as written | input that shows it | evidently intended | confidence | as-written member | corrected member |
|---|---|---|---|---|---|---|
| simple-vector/simple_vector.h:58-62 | the copy allocates `other.GetSize()` slots but sets `capacity_` to `other.GetCapacity()` | copy of an empty vector after `Reserve(1)`: capacity 1, buffer of 0 slots, so a following `PushBack` writes past the buffer | capacity equal to the number of slots allocated, `other.GetSize()` | not executed | `Vector.SimpleVector.CopyAsWritten`, `Vector.CopyAsWrittenOverclaims` | `Vector.SimpleVector.Copy` |
| simple-vector/simple_vector.h:87-90 | `capacity_` is set from the hint but `items_` is never allocated | `SimpleVector<int> v(Reserve(5))`: capacity 5 and no buffer, so `PushBack` writes slot 0 of a null buffer | allocate a buffer of the hinted capacity | not executed | `Vector.SimpleVector.FromReserveAsWritten`, `Vector.FromReserveAsWrittenOverclaims` | `Vector.SimpleVector.FromReserve` |
| simple-vector/simple_vector.h:79-85 | move assignment builds `tmp` by copying `rhs`, so `rhs` keeps its elements | `v = std::move(w)` with `w == {1, 2}` leaves `w == {1, 2}` | take over `rhs`'s buffer and leave `rhs` empty with capacity 0 | not executed | `Vector.SimpleVector.MoveAssignAsWritten`, `Vector.MoveAssignAsWrittenKeepsSource` | `Vector.SimpleVector.MoveAssign` |
| simple-vector/simple_vector.h:261 | `Erase` asserts `pos <= end()` | `v.Erase(v.end())`: the assertion passes and the copy reads from `begin() + size + 1` to `begin() + size` | `pos < end()`, i.e. index < size | not executed | `Vector.EraseCheckAdmitsEnd` | `Vector.SimpleVector.Erase` |
