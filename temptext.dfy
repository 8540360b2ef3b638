/** The registry of temporary text buffers: every buffer the line packer
    allocates during a frame is recorded in a growable array of pointers,
    and all of them are released after the frame is drawn. */
module TempText {
  import opened Bytes

  /** `INITIAL_TEMP_TEXT_CAPACITY` */
  const INITIAL_CAPACITY := 256

  /** `c` is 256 doubled zero or more times. */
  predicate GrownFrom256(c: int)
    decreases c
  {
    c == INITIAL_CAPACITY || (c > INITIAL_CAPACITY && c % 2 == 0 && GrownFrom256(c / 2))
  }

  /** The doubling loop of `ensure_temp_text_capacity`, from `c`. */
  function DoubleUntil(c: int, needed: int): (r: int)
    requires c >= 1
    ensures r >= needed && r >= c
    ensures r == c || r / 2 < needed
    ensures GrownFrom256(c) ==> GrownFrom256(r)
    decreases needed - c
  {
    if c >= needed then c
    else
      assert (c * 2) / 2 == c && (c * 2) % 2 == 0;
      DoubleUntil(c * 2, needed)
  }

  /** The capacity `ensure_temp_text_capacity(needed)` leaves behind. */
  function GrownCapacity(capacity: int, needed: int): int
    requires capacity == 0 || GrownFrom256(capacity)
  {
    if capacity >= needed then capacity
    else DoubleUntil(if capacity != 0 then capacity * 2 else INITIAL_CAPACITY, needed)
  }

  /** The capacity only ever grows by doubling from 256, is enough for the
      request, and is the smallest such value: halving it would not be. */
  lemma {:induction false} GrownCapacityIsLeast(capacity: int, needed: int)
    requires capacity == 0 || GrownFrom256(capacity)
    ensures var c := GrownCapacity(capacity, needed);
      GrownFrom256(c) || c == capacity
    ensures GrownCapacity(capacity, needed) >= needed
    ensures capacity >= needed ==> GrownCapacity(capacity, needed) == capacity
    ensures capacity < needed ==>
              GrownCapacity(capacity, needed) / 2 < needed || GrownCapacity(capacity, needed) == INITIAL_CAPACITY
  {
    if capacity < needed && capacity != 0 {
      assert GrownFrom256(capacity * 2) by {
        assert (capacity * 2) / 2 == capacity;
      }
    }
  }

  /** Every capacity the registry reaches is a multiple of 256. */
  lemma {:induction false} GrownIsMultiple(c: int)
    requires GrownFrom256(c)
    ensures c >= INITIAL_CAPACITY && c % INITIAL_CAPACITY == 0
    decreases c
  {
    if c != INITIAL_CAPACITY {
      GrownIsMultiple(c / 2);
      var k := (c / 2) / INITIAL_CAPACITY;
      assert c / 2 == INITIAL_CAPACITY * k;
      assert c == INITIAL_CAPACITY * (2 * k);
    }
  }

  class Registry {
    /** `g_temp_text_buffers`; each slot is the content of the buffer it
        points to. Empty while the pointer is still NULL. */
    var buffers: array<seq<Byte>>
    /** `g_temp_text_count` */
    var count: int
    /** `g_temp_text_capacity` */
    var capacity: int
    ghost var Repr: set<object>

    ghost predicate Valid()
      reads this, Repr
    {
      Repr == {this, buffers} &&
      buffers.Length == capacity && 0 <= count <= capacity &&
      (capacity == 0 || GrownFrom256(capacity))
    }

    /** The buffers registered since the last release, oldest first. */
    ghost function Contents(): seq<seq<Byte>>
      reads this, Repr
      requires Valid()
    {
      buffers[..count]
    }

    constructor ()
      ensures Valid() && fresh(Repr)
      ensures count == 0 && capacity == 0
    {
      buffers := new seq<Byte>[0];
      count, capacity := 0, 0;
      Repr := {this, buffers};
    }

    /** `ensure_temp_text_capacity` */
    method EnsureCapacity(needed: int)
      requires Valid()
      modifies Repr
      ensures Valid() && fresh(Repr - old(Repr))
      ensures count == old(count) && Contents() == old(Contents())
      ensures capacity == GrownCapacity(old(capacity), needed)
      ensures old(capacity) >= needed ==> buffers == old(buffers)
    {
      if capacity >= needed {
        return;
      }
      var newCapacity := if capacity != 0 then capacity * 2 else INITIAL_CAPACITY;
      ghost var first := newCapacity;
      while newCapacity < needed
        invariant newCapacity >= 1
        invariant DoubleUntil(newCapacity, needed) == DoubleUntil(first, needed)
        decreases needed - newCapacity
      {
        newCapacity := newCapacity * 2;
      }
      assert newCapacity == DoubleUntil(first, needed);
      if capacity != 0 {
        assert GrownFrom256(capacity * 2) by {
          assert (capacity * 2) / 2 == capacity;
        }
      }
      var grown := Reallocate(buffers, newCapacity);
      assert grown[..count] == buffers[..count];
      buffers := grown;
      capacity := newCapacity;
      Repr := {this, buffers};
    }

    /** `realloc`: a fresh, larger array whose first slots hold the old ones. */
    static method Reallocate(a: array<seq<Byte>>, newCapacity: int) returns (grown: array<seq<Byte>>)
      requires newCapacity >= a.Length
      ensures fresh(grown) && grown.Length == newCapacity
      ensures grown[..a.Length] == a[..]
    {
      grown := new seq<Byte>[newCapacity];
      for i := 0 to a.Length
        invariant grown[..i] == a[..i]
      {
        grown[i] := a[i];
      }
    }

    /** `push_temp_text_buffer`: the new buffer takes the next slot. */
    method Push(buffer: seq<Byte>)
      requires Valid()
      modifies Repr
      ensures Valid() && fresh(Repr - old(Repr))
      ensures count == old(count) + 1
      ensures Contents() == old(Contents()) + [buffer]
      ensures capacity == GrownCapacity(old(capacity), old(count) + 1)
    {
      EnsureCapacity(count + 1);
      buffers[count] := buffer;
      count := count + 1;
      assert buffers[..count] == old(buffers[..count]) + [buffer] by {
        assert buffers[..count - 1] == old(Contents());
      }
    }

    /** `free_all_temp_text_buffers`: release every registered buffer, oldest
        first, and empty the registry; the array and its capacity stay. */
    method FreeAll() returns (ghost freed: seq<seq<Byte>>)
      requires Valid()
      modifies this
      ensures Valid() && Repr == old(Repr)
      ensures freed == old(Contents())
      ensures count == 0 && capacity == old(capacity) && buffers == old(buffers)
    {
      freed := [];
      for i := 0 to count
        invariant freed == buffers[..i]
      {
        freed := freed + [buffers[i]];
      }
      count := 0;
    }
  }
}
