/** SimpleVector<Type>: a growable array that owns a buffer `items` of `capacity`
    slots, of which the first `size` hold the live elements. The value of Type()
    is the constant `dflt`; a freshly allocated buffer holds it in every slot. */
module Vector {
  import S = VectorSpec
  import Lex = Lexicographic
  import opened BufferOps

  datatype Error = OutOfRange

  datatype Result<T> = Success(value: T) | Failure(error: Error)

  /** The capacity hint produced by the free function Reserve(n). */
  datatype ReserveProxyObj = ReserveProxyObj(capacityToReserve: nat)
  {
    /** The capacity the hint asks for: the argument it was built from. */
    function GetCapacity(): (r: nat)
      ensures ReserveProxyObj(r) == this
    {
      capacityToReserve
    }
  }

  /** Reserve(n) outside the class: a hint that carries exactly n. */
  function Reserve(capacityToReserve: nat): (r: ReserveProxyObj)
    ensures r.GetCapacity() == capacityToReserve
  {
    ReserveProxyObj(capacityToReserve)
  }

  class SimpleVector<T> {
    /** Type(), the value a default-constructed element has. */
    const dflt: T
    var items: array<T>
    var size: nat
    var capacity: nat

    /** The live prefix lies inside the allocated buffer, so it can be read. */
    ghost predicate Observable()
      reads this
    {
      size <= items.Length
    }

    /** The class invariant: size <= capacity, and the capacity is what was allocated. */
    ghost predicate Valid()
      reads this
    {
      size <= capacity && capacity == items.Length
    }

    /** The live elements [0, size). */
    function Elements(): (s: seq<T>)
      reads this, items
      requires Observable()
    {
      items[..size]
    }

    ghost function State(): (st: S.State<T>)
      reads this, items
      requires Observable()
    {
      S.State(Elements(), capacity)
    }

    /** SimpleVector(): no elements, no storage. */
    constructor Empty(dflt: T)
      ensures Valid() && this.dflt == dflt && fresh(items)
      ensures Elements() == [] && capacity == 0
    {
      this.dflt := dflt;
      items := new T[0];
      size, capacity := 0, 0;
    }

    /** SimpleVector(n): n elements equal to Type(). */
    constructor OfSize(dflt: T, n: nat)
      ensures Valid() && this.dflt == dflt && fresh(items)
      ensures |Elements()| == n && capacity == n
      ensures forall i :: 0 <= i < n ==> Elements()[i] == dflt
    {
      this.dflt := dflt;
      var buffer := new T[n](_ => dflt);
      Fill(buffer, 0, n, dflt);
      items := buffer;
      size, capacity := n, n;
    }

    /** SimpleVector(n, value): n copies of value. */
    constructor Filled(dflt: T, n: nat, value: T)
      ensures Valid() && this.dflt == dflt && fresh(items)
      ensures |Elements()| == n && capacity == n
      ensures forall i :: 0 <= i < n ==> Elements()[i] == value
    {
      this.dflt := dflt;
      var buffer := new T[n](_ => dflt);
      Fill(buffer, 0, n, value);
      items := buffer;
      size, capacity := n, n;
    }

    /** SimpleVector(std::initializer_list): the listed values in order. */
    constructor FromList(dflt: T, init: seq<T>)
      ensures Valid() && this.dflt == dflt && fresh(items)
      ensures Elements() == init && capacity == |init|
    {
      this.dflt := dflt;
      var buffer := new T[|init|](i requires 0 <= i < |init| => init[i]);
      items := buffer;
      size, capacity := |init|, |init|;
    }

    /** The copy constructor as written: a buffer of other.size slots, but the
        capacity of other is claimed, so Valid() fails whenever other had spare room. */
    constructor CopyAsWritten(other: SimpleVector<T>)
      requires other.Observable()
      ensures dflt == other.dflt && fresh(items)
      ensures items.Length == size == other.size && capacity == other.capacity
      ensures Elements() == other.Elements()
      ensures Valid() <==> other.size == other.capacity
    {
      dflt := other.dflt;
      var d := other.dflt;
      var buffer := new T[other.size](_ => d);
      CopyPrefix(other.items, buffer, other.size);
      items := buffer;
      size, capacity := other.size, other.capacity;
    }

    /** The copy constructor as intended: the capacity is the size of the copy. */
    constructor Copy(other: SimpleVector<T>)
      requires other.Observable()
      ensures Valid() && dflt == other.dflt && fresh(items)
      ensures Elements() == other.Elements() && capacity == other.size
    {
      dflt := other.dflt;
      var d := other.dflt;
      var buffer := new T[other.size](_ => d);
      CopyPrefix(other.items, buffer, other.size);
      items := buffer;
      size, capacity := other.size, other.size;
    }

    /** The move constructor: take over other's buffer, size and capacity; other
        is left empty with no storage. */
    constructor Move(other: SimpleVector<T>)
      modifies other
      ensures dflt == other.dflt
      ensures items == old(other.items) && size == old(other.size) && capacity == old(other.capacity)
      ensures other.size == 0 && other.capacity == 0 && other.items.Length == 0 && other.Valid()
      ensures fresh(other.items)
    {
      dflt := other.dflt;
      items, size, capacity := other.items, other.size, other.capacity;
      new;
      other.items := new T[0];
      other.size, other.capacity := 0, 0;
    }

    /** SimpleVector(ReserveProxyObj) as written: the capacity is set but nothing
        is allocated, so Valid() fails for any hint above 0. */
    constructor FromReserveAsWritten(dflt: T, obj: ReserveProxyObj)
      ensures this.dflt == dflt && fresh(items) && items.Length == 0
      ensures size == 0 && capacity == obj.GetCapacity()
      ensures Valid() <==> obj.GetCapacity() == 0
    {
      this.dflt := dflt;
      items := new T[0];
      size, capacity := 0, obj.GetCapacity();
    }

    /** SimpleVector(ReserveProxyObj) as intended: an empty vector whose buffer has
        the reserved number of slots. */
    constructor FromReserve(dflt: T, obj: ReserveProxyObj)
      ensures Valid() && this.dflt == dflt && fresh(items)
      ensures Elements() == [] && capacity == obj.GetCapacity()
    {
      this.dflt := dflt;
      items := new T[obj.GetCapacity()](_ => dflt);
      size, capacity := 0, obj.GetCapacity();
    }

    function GetSize(): (r: nat)
      reads this, items
      requires Observable()
      ensures r == |Elements()|
    {
      size
    }

    function GetCapacity(): (r: nat)
      reads this, items
      requires Observable()
      ensures Valid() ==> |Elements()| <= r == items.Length
    {
      capacity
    }

    function IsEmpty(): (r: bool)
      reads this, items
      requires Observable()
      ensures r <==> Elements() == []
    {
      size == 0
    }

    /** operator[] const: unchecked, so the index must be live. */
    function Get(index: nat): (r: T)
      reads this, items
      requires Observable() && index < size
      ensures r == Elements()[index]
    {
      items[index]
    }

    /** Writing through operator[]: unchecked, so the index must be live. */
    method Set(index: nat, value: T)
      requires Valid() && index < size
      modifies items
      ensures Valid() && Elements() == old(Elements())[index := value]
    {
      items[index] := value;
    }

    /** At(index): out of range exactly when index >= size, otherwise the element. */
    function At(index: nat): (r: Result<T>)
      reads this, items
      requires Observable()
      ensures r.Failure? <==> index >= |Elements()|
      ensures r.Success? ==> r.value == Elements()[index]
    {
      if index >= size then Failure(OutOfRange) else Success(items[index])
    }

    /** Reserve(c): when c exceeds the capacity, move the live elements into a
        fresh buffer of exactly c slots; otherwise nothing happens. */
    method Reserve(newCapacity: nat)
      requires Valid()
      modifies this
      ensures Valid() && State() == S.Reserve(old(State()), newCapacity)
      ensures newCapacity <= old(capacity) ==> items == old(items)
      ensures newCapacity > old(capacity) ==>
        fresh(items) && forall k :: size <= k < capacity ==> items[k] == dflt
      ensures size == old(size)
    {
      if newCapacity > capacity {
        var d := dflt;
        var buffer := new T[newCapacity](_ => d);
        CopyPrefix(items, buffer, size);
        items := buffer;
        capacity := newCapacity;
      }
    }

    /** Resize(n): truncate; or fill [size, n) with Type() in place; or move into a
        fresh buffer of max(n, 2 * capacity) slots whose other slots hold Type(). */
    method Resize(newSize: nat)
      requires Valid()
      modifies this, items
      ensures Valid() && State() == S.Resize(old(State()), newSize, dflt)
      ensures newSize <= old(capacity) ==> (items == old(items) &&
        forall k :: 0 <= k < items.Length && !(old(size) <= k < newSize) ==> items[k] == old(items[k]))
      ensures newSize > old(capacity) ==>
        fresh(items) && forall k :: size <= k < capacity ==> items[k] == dflt
    {
      ghost var before := State();
      if newSize <= size {
        size := newSize;
      } else if newSize <= capacity {
        Fill(items, size, newSize, dflt);
        size := newSize;
      } else {
        var newCapacity := S.Max(newSize, capacity * 2);
        var d := dflt;
        var buffer := new T[newCapacity](_ => d);
        CopyPrefix(items, buffer, size);
        Fill(buffer, size, newCapacity, dflt);
        items := buffer;
        size, capacity := newSize, newCapacity;
      }
      assert Elements() == S.Resize(before, newSize, dflt).elements;
    }

    /** Clear() is Resize(0): nothing is live any more, buffer and capacity are kept. */
    method Clear()
      requires Valid()
      modifies this, items
      ensures Valid() && State() == S.Clear(old(State()))
      ensures items == old(items) && forall k :: 0 <= k < items.Length ==> items[k] == old(items[k])
    {
      Resize(0);
    }

    /** PushBack(item): store item in slot size, growing first by the growth rule
        when the vector is full. Both overloads are modelled by this one method. */
    method PushBack(item: T)
      requires Valid()
      modifies this, items
      ensures Valid() && State() == S.PushBack(old(State()), item)
      ensures At(size - 1) == Success(item)
      ensures old(size) < old(capacity) ==> (items == old(items) &&
        forall k :: size <= k < items.Length ==> items[k] == old(items[k]))
      ensures old(size) == old(capacity) ==>
        fresh(items) && forall k :: size <= k < capacity ==> items[k] == dflt
    {
      ghost var before := State();
      if size < capacity {
        items[size] := item;
        size := size + 1;
      } else {
        var newCapacity := S.GrownCapacity(capacity);
        Reserve(newCapacity);
        items[size] := item;
        size := size + 1;
      }
      assert Elements() == before.elements + [item];
    }

    /** Insert(pos, value) at index = pos - begin(): grow a full vector by the
        growth rule, shift [index, size) one place up, store value at index.
        Returns the index of the inserted element. */
    method Insert(index: nat, value: T) returns (pos: nat)
      requires Valid() && index <= size
      modifies this, items
      ensures pos == index
      ensures Valid() && State() == S.Insert(old(State()), index, value)
      ensures old(size) < old(capacity) ==> (items == old(items) &&
        forall k :: size <= k < items.Length ==> items[k] == old(items[k]))
      ensures old(size) >= old(capacity) ==>
        fresh(items) && forall k :: size <= k < capacity ==> items[k] == dflt
    {
      ghost var before := State();
      if size >= capacity {
        var newCapacity := S.GrownCapacity(capacity);
        Reserve(newCapacity);
        capacity := newCapacity;
      }
      assert items[..size] == before.elements;
      ShiftRight(items, index, size);
      items[index] := value;
      size := size + 1;
      pos := index;
      ghost var inserted := before.elements[..index] + [value] + before.elements[index..];
      forall k | 0 <= k < size
        ensures Elements()[k] == inserted[k]
      {
        if k > index {
          assert inserted[k] == before.elements[k - 1];
        }
      }
      assert Elements() == inserted;
    }

    /** PopBack(): the last element stops being live; its slot is not touched. */
    method PopBack()
      requires Valid() && size > 0
      modifies this
      ensures Valid() && State() == S.PopBack(old(State()))
      ensures items == old(items)
    {
      size := size - 1;
    }

    /** Erase(pos) at index = pos - begin() < size: shift (index, size) one place
        down and drop the last slot. Returns index, where the successor now is. */
    method Erase(index: nat) returns (pos: nat)
      requires Valid() && index < size
      modifies this, items
      ensures pos == index
      ensures Valid() && State() == S.Erase(old(State()), index)
      ensures items == old(items)
      ensures forall k :: size <= k < items.Length ==> items[k] == old(items[k])
    {
      ghost var before := State();
      ShiftLeft(items, index, size);
      size := size - 1;
      pos := index;
      assert Elements() == before.elements[..index] + before.elements[index + 1..];
    }

    /** swap(other): exchange buffers, sizes and capacities. Both vectors hold the
        same element type, so they agree on Type(). */
    method Swap(other: SimpleVector<T>)
      requires other.dflt == dflt
      modifies this, other
      ensures items == old(other.items) && size == old(other.size) && capacity == old(other.capacity)
      ensures other.items == old(items) && other.size == old(size) && other.capacity == old(capacity)
    {
      var bufferOfThis, sizeOfThis, capacityOfThis := items, size, capacity;
      items, size, capacity := other.items, other.size, other.capacity;
      other.items, other.size, other.capacity := bufferOfThis, sizeOfThis, capacityOfThis;
    }

    /** Copy assignment as written: build a copy of rhs with the copy constructor
        as written and swap it in, so the capacity of rhs is claimed for a buffer
        of rhs.size slots. Assigning a vector to itself does nothing. */
    method CopyAssignAsWritten(rhs: SimpleVector<T>)
      requires rhs.dflt == dflt && rhs.Observable()
      modifies this
      ensures rhs == this ==> unchanged(this)
      ensures rhs != this ==> (fresh(items) && items.Length == size == rhs.size &&
        Elements() == rhs.Elements() && capacity == rhs.capacity)
      ensures rhs != this ==> unchanged(rhs)
    {
      if rhs != this {
        var copy := new SimpleVector.CopyAsWritten(rhs);
        Swap(copy);
      }
    }

    /** Copy assignment built on the intended copy constructor: this becomes a
        valid copy of rhs whose capacity is its size. */
    method CopyAssign(rhs: SimpleVector<T>)
      requires rhs.dflt == dflt && rhs.Observable()
      modifies this
      ensures rhs == this ==> unchanged(this)
      ensures rhs != this ==> (Valid() && fresh(items) && Elements() == rhs.Elements() &&
        capacity == rhs.size)
      ensures rhs != this ==> unchanged(rhs)
    {
      if rhs != this {
        var copy := new SimpleVector.Copy(rhs);
        Swap(copy);
      }
    }

    /** Move assignment as written: the body is that of copy assignment (rhs is
        copied, through the copy constructor as written), so rhs is not reset. */
    method MoveAssignAsWritten(rhs: SimpleVector<T>)
      requires rhs.dflt == dflt && rhs.Observable()
      modifies this
      ensures rhs == this ==> unchanged(this)
      ensures rhs != this ==> (fresh(items) && items.Length == size == rhs.size &&
        Elements() == rhs.Elements() && capacity == rhs.capacity)
      ensures rhs != this ==> unchanged(rhs) && rhs.Elements() == old(rhs.Elements())
    {
      if rhs != this {
        var copy := new SimpleVector.CopyAsWritten(rhs);
        Swap(copy);
      }
    }

    /** Move assignment as intended: take over the buffer, size and capacity of
        rhs and leave rhs empty with no storage. */
    method MoveAssign(rhs: SimpleVector<T>)
      requires rhs.dflt == dflt
      modifies this, rhs
      ensures rhs == this ==> unchanged(this)
      ensures rhs != this ==>
        items == old(rhs.items) && size == old(rhs.size) && capacity == old(rhs.capacity)
      ensures rhs != this ==> rhs.size == 0 && rhs.capacity == 0 && rhs.Valid() && fresh(rhs.items)
    {
      if rhs != this {
        var moved := new SimpleVector.Move(rhs);
        Swap(moved);
      }
    }
  }

  /** operator==: the sizes agree and std::equal finds every pair of live
      elements equal. */
  function Equal<T(==)>(lhs: SimpleVector<T>, rhs: SimpleVector<T>): (r: bool)
    reads lhs, lhs.items, rhs, rhs.items
    requires lhs.Observable() && rhs.Observable()
    ensures r <==> lhs.Elements() == rhs.Elements()
    ensures r <==> lhs.size == rhs.size && forall i :: 0 <= i < lhs.size ==> lhs.items[i] == rhs.items[i]
  {
    if lhs.GetSize() == rhs.GetSize() then Lex.RangesEqual(lhs.Elements(), rhs.Elements()) else false
  }

  /** operator!=: the negation of operator==. */
  function NotEqual<T(==)>(lhs: SimpleVector<T>, rhs: SimpleVector<T>): (r: bool)
    reads lhs, lhs.items, rhs, rhs.items
    requires lhs.Observable() && rhs.Observable()
    ensures r <==> lhs.Elements() != rhs.Elements()
  {
    !Equal(lhs, rhs)
  }

  /** operator<: std::lexicographical_compare over the live elements. */
  function Less<T>(lhs: SimpleVector<T>, rhs: SimpleVector<T>, less: (T, T) -> bool): (r: bool)
    reads lhs, lhs.items, rhs, rhs.items
    requires lhs.Observable() && rhs.Observable()
    ensures r <==> Lex.LexLess(lhs.Elements(), rhs.Elements(), less)
  {
    Lex.LexCompare(lhs.Elements(), rhs.Elements(), less)
  }

  /** operator>: !(lhs < rhs) && lhs != rhs; for a strict total element order
      this is rhs < lhs. */
  function Greater<T(==,!new)>(lhs: SimpleVector<T>, rhs: SimpleVector<T>, less: (T, T) -> bool): (r: bool)
    reads lhs, lhs.items, rhs, rhs.items
    requires lhs.Observable() && rhs.Observable()
    ensures r ==> lhs.Elements() != rhs.Elements()
    ensures Lex.StrictTotalOrder(less) ==> (r <==> Lex.LexLess(rhs.Elements(), lhs.Elements(), less))
  {
    Lex.ConverseIfTotal(lhs.Elements(), rhs.Elements(), less);
    !Less(lhs, rhs, less) && NotEqual(lhs, rhs)
  }

  /** operator<=: !(lhs > rhs); for a strict total element order this is
      lhs < rhs or lhs == rhs. */
  function LessEq<T(==,!new)>(lhs: SimpleVector<T>, rhs: SimpleVector<T>, less: (T, T) -> bool): (r: bool)
    reads lhs, lhs.items, rhs, rhs.items
    requires lhs.Observable() && rhs.Observable()
    ensures lhs.Elements() == rhs.Elements() ==> r
    ensures Lex.StrictTotalOrder(less) ==>
      (r <==> Lex.LexLess(lhs.Elements(), rhs.Elements(), less) || lhs.Elements() == rhs.Elements())
  {
    !Greater(lhs, rhs, less)
  }

  /** operator>=: !(lhs < rhs); for a strict total element order this is
      rhs < lhs or lhs == rhs. */
  function GreaterEq<T(==,!new)>(lhs: SimpleVector<T>, rhs: SimpleVector<T>, less: (T, T) -> bool): (r: bool)
    reads lhs, lhs.items, rhs, rhs.items
    requires lhs.Observable() && rhs.Observable()
    ensures Lex.StrictTotalOrder(less) ==>
      (r <==> Lex.LexLess(rhs.Elements(), lhs.Elements(), less) || lhs.Elements() == rhs.Elements())
  {
    Lex.ConverseIfTotal(lhs.Elements(), rhs.Elements(), less);
    Lex.IrreflexiveIfTotal(lhs.Elements(), less);
    !Less(lhs, rhs, less)
  }

  /** Exactly one of lhs < rhs, lhs == rhs and lhs > rhs holds whenever no element
      is less than itself. */
  lemma Trichotomy<T(!new)>(lhs: SimpleVector<T>, rhs: SimpleVector<T>, less: (T, T) -> bool)
    requires lhs.Observable() && rhs.Observable()
    requires Lex.Irreflexive(less)
    ensures (if Less(lhs, rhs, less) then 1 else 0) + (if Equal(lhs, rhs) then 1 else 0)
      + (if Greater(lhs, rhs, less) then 1 else 0) == 1
  {
    if Equal(lhs, rhs) {
      Lex.LexIrreflexive(lhs.Elements(), less);
    }
  }

  /** operator< is a strict total order on vectors when operator< of the element
      type is one on elements. */
  lemma LessIsStrictTotalOrder<T(!new)>(a: SimpleVector<T>, b: SimpleVector<T>, c: SimpleVector<T>,
                                          less: (T, T) -> bool)
    requires a.Observable() && b.Observable() && c.Observable()
    requires Lex.StrictTotalOrder(less)
    ensures !Less(a, a, less)
    ensures Less(a, b, less) ==> !Less(b, a, less)
    ensures Less(a, b, less) && Less(b, c, less) ==> Less(a, c, less)
    ensures NotEqual(a, b) ==> Less(a, b, less) || Less(b, a, less)
  {
    Lex.LexIrreflexive(a.Elements(), less);
    Lex.LexAsymmetric(a.Elements(), b.Elements(), less);
    Lex.LexTransitive(a.Elements(), b.Elements(), c.Elements(), less);
    Lex.LexConnected(a.Elements(), b.Elements(), less);
  }

  /** operator== is an equivalence relation. */
  lemma EqualIsEquivalence<T>(a: SimpleVector<T>, b: SimpleVector<T>, c: SimpleVector<T>)
    requires a.Observable() && b.Observable() && c.Observable()
    ensures Equal(a, a)
    ensures Equal(a, b) ==> Equal(b, a)
    ensures Equal(a, b) && Equal(b, c) ==> Equal(a, c)
  {
  }

  /** The range check of Erase as written (pos <= end()), on indices. */
  predicate EraseCheckAsWritten(index: nat, size: nat) {
    index <= size
  }

  /** On a valid vector, the check as written lets through exactly one index for
      which the shift of Erase cannot run: index == size, that is Erase(end()),
      whose copy range [size + 1, size) is empty-reversed. The shift is defined
      exactly for the indices the corrected Erase admits, index < size. */
  lemma EraseCheckAdmitsEnd<T>(v: SimpleVector<T>, index: nat)
    requires v.Valid()
    ensures (EraseCheckAsWritten(index, v.size) && !CanShiftLeft(v.items, index, v.size))
      <==> index == v.size
    ensures CanShiftLeft(v.items, index, v.size) <==> S.Admissible(v.State(), S.EraseOp(index))
  {
  }

  /** A vector copied, as written, from one with spare capacity claims a slot it
      does not have. */
  method CopyAsWrittenOverclaims() returns (copy: SimpleVector<int>)
    ensures copy.capacity == 1 && copy.items.Length == 0 && !copy.Valid()
  {
    var v := new SimpleVector<int>.Empty(0);
    v.Reserve(1);
    copy := new SimpleVector<int>.CopyAsWritten(v);
  }

  /** A vector built, as written, from the hint Reserve(5) claims five slots of a
      buffer that has none. */
  method FromReserveAsWrittenOverclaims() returns (v: SimpleVector<int>)
    ensures v.capacity == 5 && v.items.Length == 0 && !v.Valid()
  {
    v := new SimpleVector<int>.FromReserveAsWritten(0, Reserve(5));
  }

  /** Moving, as written, out of {1, 2} leaves the source holding 1, 2. */
  method MoveAssignAsWrittenKeepsSource() returns (target: SimpleVector<int>, source: SimpleVector<int>)
    ensures source.Observable() && source.Elements() == [1, 2]
    ensures target.Observable() && target.Elements() == [1, 2]
  {
    target := new SimpleVector<int>.Empty(0);
    source := new SimpleVector<int>.FromList(0, [1, 2]);
    target.MoveAssignAsWritten(source);
  }

  /** Clients: what callers can conclude from the contracts alone. */
  method ScenarioInsertErase() {
    var v := new SimpleVector<int>.FromList(0, [1, 2, 3]);
    var at := v.Insert(1, 9);
    assert v.Elements() == [1, 2, 3][..1] + [9] + [1, 2, 3][1..];
    assert v.Elements() == [1, 9, 2, 3] && at == 1;
    at := v.Erase(0);
    assert v.Elements() == [9, 2, 3];
    assert v.At(5) == Failure(OutOfRange);
    assert v.At(2) == Success(3);
  }

  method ScenarioPushBack() {
    var w := new SimpleVector<int>.Empty(0);
    w.PushBack(4);
    assert w.GetSize() == 1 && w.GetCapacity() == 1;
    w.PushBack(5);
    assert w.GetSize() == 2 && w.GetCapacity() == 2;
    w.Clear();
    assert w.IsEmpty() && w.GetCapacity() == 2;
  }

  method ScenarioReserve() {
    var r := new SimpleVector<int>.Empty(0);
    r.Reserve(10);
    assert r.GetCapacity() == 10 && r.Elements() == [];
    r.Resize(2);
    assert r.Elements() == [0, 0] && r.GetCapacity() == 10;
  }

  /** A moved-from vector is empty, valid and usable again. */
  method ScenarioMove() {
    var a := new SimpleVector<int>.FromList(0, [1, 2]);
    var b := new SimpleVector<int>.Move(a);
    assert b.Elements() == [1, 2];
    a.PushBack(3);
    assert a.Elements() == [3];
    var c := new SimpleVector<int>.FromList(0, [4]);
    c.MoveAssign(a);
    a.PushBack(7);
    assert a.Elements() == [7] && c.Elements() == [3];
    a.Swap(c);
    assert a.Elements() == [3] && c.Elements() == [7];
  }
}
