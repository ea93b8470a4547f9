/** The vector under the compression map: a buffer that is replaced when it must grow. Whether
    an allocation succeeds is up to the allocator, so callers pass that in. */
module VectorModel {
  class Vector<T(0)> {
    var data: array<T>
    var size: nat

    ghost predicate Valid()
      reads this
    {
      size <= data.Length
    }

    ghost function Contents(): seq<T>
      requires Valid()
      reads this, data
    {
      data[..size]
    }

    constructor ()
      ensures Valid() && fresh(data) && Contents() == [] && data.Length == 0
    {
      data := new T[0];
      size := 0;
    }

    /** Room for `count` elements; on failure nothing changed. */
    method Reserve(count: nat, granted: bool) returns (ok: bool)
      requires Valid()
      modifies this
      ensures Valid() && size == old(size) && Contents() == old(Contents())
      ensures ok <==> count <= old(data.Length) || granted
      ensures data == old(data) || fresh(data)
      ensures data.Length == if count <= old(data.Length) || !ok then old(data.Length) else count
      ensures !ok ==> data == old(data)
    {
      if count <= data.Length {
        return true;
      }
      if !granted {
        return false;
      }
      var mem := new T[count];
      for i := 0 to size
        invariant data == old(data) && size == old(size)
        invariant mem[..i] == data[..i]
        invariant data[..size] == old(data[..size])
      {
        mem[i] := data[i];
      }
      data := mem;
      return true;
    }

    /** The element-moving loop: elements `pos..count` go up by `n`, last one first. */
    method MoveUp(pos: nat, count: nat, n: nat)
      requires pos <= count && count + n <= data.Length
      modifies data
      ensures forall k :: 0 <= k < pos ==> data[k] == old(data[k])
      ensures forall k :: pos + n <= k < count + n ==> data[k] == old(data[k - n])
    {
      var i := count + n;
      while i > pos + n
        invariant pos + n <= i <= count + n
        invariant forall k :: 0 <= k < i ==> data[k] == old(data[k])
        invariant forall k :: i <= k < count + n ==> data[k] == old(data[k - n])
      {
        i := i - 1;
        data[i] := data[i - n];
      }
    }

    method Fill(pos: nat, values: seq<T>)
      requires pos + |values| <= data.Length
      modifies data
      ensures forall k :: 0 <= k < data.Length && !(pos <= k < pos + |values|) ==> data[k] == old(data[k])
      ensures forall k :: pos <= k < pos + |values| ==> data[k] == values[k - pos]
    {
      for i := 0 to |values|
        invariant forall k :: 0 <= k < data.Length && !(pos <= k < pos + i) ==> data[k] == old(data[k])
        invariant forall k :: pos <= k < pos + i ==> data[k] == values[k - pos]
      {
        data[pos + i] := values[i];
      }
    }

    /** Inserts `values` before position `pos`: room is made at the back by moving elements up,
        last one first. A failed call leaves the vector as it was. The loop counts an unsigned
        index down to `pos + |values|`, which has to be positive. */
    method InsertRange(pos: nat, values: seq<T>, grantedFirst: bool, grantedSecond: bool) returns (ok: bool)
      requires Valid() && pos <= size && pos + |values| > 0
      modifies this, data
      ensures Valid()
      ensures data == old(data) || fresh(data)
      ensures grantedFirst && grantedSecond ==> ok
      ensures ok ==> Contents() == old(Contents())[..pos] + values + old(Contents())[pos..]
      ensures !ok ==> data == old(data) && Contents() == old(Contents())
    {
      var n := |values|;
      ghost var before := Contents();
      if size + n < data.Length {
        ok := Reserve(if size * 2 < 16 then 16 else size * 2, grantedFirst);
        if !ok {
          return;
        }
      }
      ok := Reserve(size + n, grantedSecond);
      if !ok {
        return;
      }
      assert forall k :: 0 <= k < size ==> data[k] == before[k];
      var oldSize := size;
      size := size + n;
      MoveUp(pos, oldSize, n);
      Fill(pos, values);
      ghost var after := before[..pos] + values + before[pos..];
      assert |after| == size;
      forall k | 0 <= k < size ensures data[k] == after[k] {
        assert k >= pos + n ==> after[k] == before[k - n];
      }
    }
  }
}
