/** Growing and filling an array that holds a list in its first elements. */
module Arrays {

  /** realloc: a larger array with the same contents. */
  method Grow<T>(list: array<T>, size: nat, capacity: nat, filler: T) returns (r: array<T>)
    requires size <= list.Length && size <= capacity
    ensures fresh(r) && r.Length == capacity && r[..size] == list[..size]
  {
    r := new T[capacity](_ => filler);
    forall i | 0 <= i < size { r[i] := list[i]; }
  }

  method Put<T>(list: array<T>, size: nat, x: T)
    requires size < list.Length
    modifies list
    ensures list[..size + 1] == old(list[..size]) + [x]
  {
    list[size] := x;
  }
}
