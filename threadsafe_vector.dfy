/** threadsafe_vector<T> of include/threadsafe_vector.hxx, one call at a time:
    a heap buffer `data`, the number of elements in use `size`, and the buffer
    length `capacity`, which starts at 10 and doubles when a push finds the
    buffer full. */
module ThreadsafeVector {

  class Vector<T(0)> {
    var data: array<T>
    var size: nat
    var capacity: nat

    /** size <= capacity, capacity >= 10, and the buffer is `capacity` long. */
    ghost predicate Valid()
      reads this
    {
      size <= capacity && capacity >= 10 && data.Length == capacity
    }

    /** The elements in use, in order. */
    ghost function Elements(): seq<T>
      reads this, data
      requires Valid()
    {
      data[..size]
    }

    /** A new vector: a buffer of 10, no elements. */
    constructor ()
      ensures Valid() && Elements() == [] && capacity == 10 && fresh(data)
    {
      data := new T[10];
      size := 0;
      capacity := 10;
    }

    /** resize(capacity): a new buffer of the given length holding the same
        elements. */
    method Resize(newCapacity: nat)
      requires Valid() && size <= newCapacity && 10 <= newCapacity
      modifies this
      ensures Valid() && fresh(data)
      ensures Elements() == old(Elements()) && capacity == newCapacity
    {
      var newData := new T[newCapacity];
      var i := 0;
      while i < size
        invariant 0 <= i <= size
        invariant forall k :: 0 <= k < i ==> newData[k] == data[k]
        modifies newData
      {
        newData[i] := data[i];
        i := i + 1;
      }
      data := newData;
      capacity := newCapacity;
      assert data[..size] == old(data[..size]);
    }

    /** push_back(value): `value` becomes the last element; the capacity
        doubles exactly when the buffer was full. */
    method PushBack(value: T)
      requires Valid()
      modifies this, data
      ensures Valid() && (data == old(data) || fresh(data))
      ensures Elements() == old(Elements()) + [value]
      ensures capacity == if old(size) == old(capacity) then 2 * old(capacity) else old(capacity)
    {
      if size == capacity {
        Resize(capacity * 2);
      }
      data[size] := value;
      size := size + 1;
      assert data[..size] == old(data[..size]) + [value];
    }

    /** pop_back: one element fewer; the buffer is kept. */
    method PopBack()
      requires Valid() && size > 0
      modifies this
      ensures Valid() && capacity == old(capacity)
      ensures Elements() == old(Elements())[..old(size) - 1]
    {
      size := size - 1;
    }

    /** operator[]: the element at `index`. */
    method Get(index: nat) returns (value: T)
      requires Valid() && index < |Elements()|
      ensures value == Elements()[index]
    {
      value := data[index];
    }

    method Size() returns (n: nat)
      requires Valid()
      ensures n == |Elements()|
    {
      n := size;
    }

    method Capacity() returns (c: nat)
      requires Valid()
      ensures c == capacity && |Elements()| <= c && c >= 10
    {
      c := capacity;
    }

    method Empty() returns (e: bool)
      requires Valid()
      ensures e <==> Elements() == []
    {
      e := size == 0;
    }

    /** reserve(c): nothing when `c` does not exceed the capacity, otherwise
        a buffer of exactly `c` holding the same elements. */
    method Reserve(c: nat)
      requires Valid()
      modifies this
      ensures Valid() && Elements() == old(Elements()) && (data == old(data) || fresh(data))
      ensures capacity == if c <= old(capacity) then old(capacity) else c
    {
      if c <= capacity {
        return;
      }
      Resize(c);
    }
  }

  /** 100 pushes of 99 onto a new vector: 100 elements, all 99. */
  method HundredPushes() returns (size: nat, allNinetyNine: bool, empty: bool)
    ensures size == 100 && allNinetyNine && !empty
  {
    var v := new Vector<int>();
    var i := 0;
    while i < 100
      invariant 0 <= i <= 100
      invariant v.Valid() && fresh(v.data) && v.Elements() == seq(i, _ => 99)
    {
      v.PushBack(99);
      i := i + 1;
    }
    size := v.Size();
    empty := v.Empty();
    allNinetyNine := true;
    var j := 0;
    while j < 100
      invariant 0 <= j <= 100
      invariant v.Valid() && v.Elements() == seq(100, _ => 99)
      invariant allNinetyNine
    {
      var x := v.Get(j);
      allNinetyNine := allNinetyNine && x == 99;
      j := j + 1;
    }
  }

  /** 200 pushes followed by reserve(500): capacity 500, size 200. */
  method PushesThenReserve() returns (size: nat, capacity: nat)
    ensures size == 200 && capacity == 500
  {
    var v := new Vector<int>();
    var i := 0;
    while i < 200
      invariant 0 <= i <= 200
      invariant v.Valid() && fresh(v.data) && |v.Elements()| == i
      invariant v.capacity == if i <= 10 then 10 else if i <= 20 then 20 else if i <= 40 then 40
                              else if i <= 80 then 80 else if i <= 160 then 160 else 320
    {
      v.PushBack(0);
      i := i + 1;
    }
    v.Reserve(500);
    size := v.Size();
    capacity := v.Capacity();
  }
}
