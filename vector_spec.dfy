/** The observable state of a SimpleVector (its live elements [0, size) and its
    capacity) and, for each mutator, the state it leaves behind, stated on values.
    The class in module Vector is proved against these functions. */
module VectorSpec {

  /** Live elements and capacity. The slots [size, capacity) are not observable. */
  datatype State<T> = State(elements: seq<T>, capacity: nat)
  {
    /** The container invariant: size <= capacity. */
    predicate Valid() {
      |elements| <= capacity
    }
  }

  function Max(a: nat, b: nat): (r: nat)
    ensures r >= a && r >= b && (r == a || r == b)
  {
    if a >= b then a else b
  }

  /** The growth rule of PushBack and Insert on a full vector: 1 for an empty
      buffer, twice the capacity otherwise. Always leaves room for one more. */
  function GrownCapacity(capacity: nat): (r: nat)
    ensures r > capacity
    ensures capacity == 0 ==> r == 1
    ensures capacity > 0 ==> r == 2 * capacity
  {
    if capacity == 0 then 1 else capacity * 2
  }

  /** Resize(n): truncate, or extend with n - size default values; the capacity
      grows to max(n, 2 * capacity) only when n exceeds it. */
  function Resize<T>(st: State<T>, n: nat, dflt: T): (r: State<T>)
    requires st.Valid()
    ensures r.Valid() && r.capacity >= st.capacity
    ensures |r.elements| == n
    ensures forall i :: 0 <= i < |st.elements| && i < n ==> r.elements[i] == st.elements[i]
    ensures forall i :: |st.elements| <= i < n ==> r.elements[i] == dflt
    ensures n <= st.capacity ==> r.capacity == st.capacity
    ensures n > st.capacity ==> r.capacity == Max(n, 2 * st.capacity)
  {
    var elements :=
      if n <= |st.elements| then st.elements[..n]
      else st.elements + seq(n - |st.elements|, _ => dflt);
    var capacity :=
      if n <= |st.elements| || n <= st.capacity then st.capacity
      else Max(n, st.capacity * 2);
    State(elements, capacity)
  }

  /** Clear(): no live elements, capacity untouched. */
  function Clear<T>(st: State<T>): (r: State<T>)
    requires st.Valid()
    ensures r.Valid() && r.elements == [] && r.capacity == st.capacity
  {
    State([], st.capacity)
  }

  /** Reserve(c): a no-op unless c exceeds the capacity, which then becomes
      exactly c; the live elements are kept either way. */
  function Reserve<T>(st: State<T>, c: nat): (r: State<T>)
    requires st.Valid()
    ensures r.Valid() && r.elements == st.elements
    ensures r.capacity == Max(c, st.capacity)
  {
    if c > st.capacity then State(st.elements, c) else st
  }

  /** PushBack(x): one more live element, x, at the end; the capacity grows by
      the growth rule only when the vector was full. */
  function PushBack<T>(st: State<T>, x: T): (r: State<T>)
    requires st.Valid()
    ensures r.Valid() && r.capacity >= st.capacity
    ensures |r.elements| == |st.elements| + 1 && r.elements[|st.elements|] == x
    ensures r.elements[..|st.elements|] == st.elements
    ensures |st.elements| < st.capacity ==> r.capacity == st.capacity
    ensures |st.elements| == st.capacity ==> r.capacity == GrownCapacity(st.capacity)
  {
    var capacity := if |st.elements| < st.capacity then st.capacity else GrownCapacity(st.capacity);
    State(st.elements + [x], capacity)
  }

  /** Insert(index, x): x lands at index, the elements from index on move one
      place up; a full vector grows by the growth rule first. */
  function Insert<T>(st: State<T>, index: nat, x: T): (r: State<T>)
    requires st.Valid() && index <= |st.elements|
    ensures r.Valid() && r.capacity >= st.capacity
    ensures |r.elements| == |st.elements| + 1
    ensures r.elements[..index] == st.elements[..index]
    ensures r.elements[index] == x
    ensures r.elements[index + 1..] == st.elements[index..]
    ensures |st.elements| < st.capacity ==> r.capacity == st.capacity
    ensures |st.elements| >= st.capacity ==> r.capacity == GrownCapacity(st.capacity)
  {
    var capacity := if |st.elements| >= st.capacity then GrownCapacity(st.capacity) else st.capacity;
    State(st.elements[..index] + [x] + st.elements[index..], capacity)
  }

  /** Erase(index): the element at index is gone, those after it move one place
      down; the capacity is untouched. */
  function Erase<T>(st: State<T>, index: nat): (r: State<T>)
    requires st.Valid() && index < |st.elements|
    ensures r.Valid() && r.capacity == st.capacity
    ensures |r.elements| + 1 == |st.elements|
    ensures r.elements[..index] == st.elements[..index]
    ensures r.elements[index..] == st.elements[index + 1..]
  {
    State(st.elements[..index] + st.elements[index + 1..], st.capacity)
  }

  /** PopBack(): the last element is no longer live; the capacity is untouched. */
  function PopBack<T>(st: State<T>): (r: State<T>)
    requires st.Valid() && |st.elements| > 0
    ensures r.Valid() && r.capacity == st.capacity
    ensures r.elements + [st.elements[|st.elements| - 1]] == st.elements
  {
    State(st.elements[..|st.elements| - 1], st.capacity)
  }

  /** Clear() is Resize(0), whatever the default value. */
  lemma ClearIsResizeToZero<T>(st: State<T>, dflt: T)
    requires st.Valid()
    ensures Clear(st) == Resize(st, 0, dflt)
  {
  }

  /** A second Clear() changes nothing. */
  lemma ClearIdempotent<T>(st: State<T>)
    requires st.Valid()
    ensures Clear(Clear(st)) == Clear(st)
  {
  }

  /** A second Reserve(c) changes nothing. */
  lemma ReserveIdempotent<T>(st: State<T>, c: nat)
    requires st.Valid()
    ensures Reserve(Reserve(st, c), c) == Reserve(st, c)
  {
  }

  /** PushBack(x) is Insert(end(), x): same elements and same capacity. */
  lemma PushBackIsInsertAtEnd<T>(st: State<T>, x: T)
    requires st.Valid()
    ensures PushBack(st, x) == Insert(st, |st.elements|, x)
  {
  }

  /** Erase at the index just inserted at gives back the original elements
      (the capacity may have grown). */
  lemma InsertThenErase<T>(st: State<T>, index: nat, x: T)
    requires st.Valid() && index <= |st.elements|
    ensures Erase(Insert(st, index, x), index).elements == st.elements
    ensures Erase(Insert(st, index, x), index).capacity >= st.capacity
  {
  }

  /** PopBack undoes PushBack on the elements. */
  lemma PushBackThenPopBack<T>(st: State<T>, x: T)
    requires st.Valid()
    ensures PopBack(PushBack(st, x)).elements == st.elements
  {
  }

  /** The operations of the vector that change its state. Insert, Erase and PopBack
      carry the preconditions the source asserts or documents (see Admissible). */
  datatype Op<T> =
    | ResizeOp(newSize: nat)
    | ReserveOp(newCapacity: nat)
    | PushBackOp(item: T)
    | InsertOp(index: nat, value: T)
    | EraseOp(position: nat)
    | PopBackOp
    | ClearOp

  /** What the source demands of a caller before each operation. */
  predicate Admissible<T>(st: State<T>, op: Op<T>) {
    match op
    case InsertOp(index, _) => index <= |st.elements|
    case EraseOp(position) => position < |st.elements|
    case PopBackOp => |st.elements| > 0
    case _ => true
  }

  /** Every operation keeps size <= capacity and never lowers the capacity. */
  function Apply<T>(st: State<T>, op: Op<T>, dflt: T): (r: State<T>)
    requires st.Valid() && Admissible(st, op)
    ensures r.Valid() && r.capacity >= st.capacity
  {
    match op
    case ResizeOp(n) => Resize(st, n, dflt)
    case ReserveOp(c) => Reserve(st, c)
    case PushBackOp(x) => PushBack(st, x)
    case InsertOp(index, x) => Insert(st, index, x)
    case EraseOp(position) => Erase(st, position)
    case PopBackOp => PopBack(st)
    case ClearOp => Clear(st)
  }

  /** Each operation of the sequence is admissible in the state the previous ones leave. */
  ghost predicate AdmissibleRun<T>(st: State<T>, ops: seq<Op<T>>, dflt: T)
    requires st.Valid()
    decreases |ops|
  {
    ops == [] || (Admissible(st, ops[0]) && AdmissibleRun(Apply(st, ops[0], dflt), ops[1..], dflt))
  }

  /** The state after running a sequence of operations from st. */
  function Run<T>(st: State<T>, ops: seq<Op<T>>, dflt: T): (r: State<T>)
    requires st.Valid() && AdmissibleRun(st, ops, dflt)
    decreases |ops|
  {
    if ops == [] then st else Run(Apply(st, ops[0], dflt), ops[1..], dflt)
  }

  /** size <= capacity holds after any run of operations, and the capacity never
      decreases along it. */
  lemma {:induction false} RunKeepsInvariant<T>(st: State<T>, ops: seq<Op<T>>, dflt: T)
    requires st.Valid() && AdmissibleRun(st, ops, dflt)
    ensures Run(st, ops, dflt).Valid()
    ensures Run(st, ops, dflt).capacity >= st.capacity
    decreases |ops|
  {
    if ops != [] {
      RunKeepsInvariant(Apply(st, ops[0], dflt), ops[1..], dflt);
    }
  }
}
