/**
  Arrays that grow by half of their size when they are full.
 */
module GrowableArrays {

  class Growable<T(0)> {
    var data: array<T>
    var free: nat  // the next free position

    ghost predicate Valid()
      reads this, data
    {
      free <= data.Length && data.Length >= 2
    }

    ghost function Contents(): seq<T>
      requires Valid()
      reads this, data
    {
      data[..free]
    }

    constructor (size: nat)
      requires size >= 2
      ensures Valid() && fresh(data) && Contents() == []
    {
      data, free := new T[size], 0;
    }

    /** Appends an element; fails, and changes nothing, when the array is full and there is no memory. */
    method Store(x: T, memory: bool) returns (ok: bool)
      requires Valid()
      modifies this, data
      ensures Valid() && (data == old(data) || fresh(data))
      ensures ok == (memory || old(free) < old(data.Length))
      ensures Contents() == if ok then old(Contents()) + [x] else old(Contents())
    {
      if free == data.Length {
        if !memory {
          return false;
        }
        var bigger := new T[data.Length + data.Length / 2];
        for i := 0 to free
          modifies bigger
          invariant bigger[..i] == data[..i]
        {
          bigger[i] := data[i];
        }
        data := bigger;
      }
      data[free] := x;
      free := free + 1;
      ok := true;
    }
  }
}
