/** Reallocation of a buffer that is in use. */
module Arrays {

  /** A new array of the given capacity that starts with the first n elements of the old one. */
  method Reallocated<T(0)>(data: array<T>, n: nat, capacity: nat) returns (r: array<T>)
    requires n <= data.Length && n <= capacity
    ensures fresh(r) && r.Length == capacity && r[..n] == data[..n]
  {
    r := new T[capacity];
    var i := 0;
    while i < n
      invariant 0 <= i <= n && r[..i] == data[..i]
    {
      r[i] := data[i];
      i := i + 1;
    }
  }
}
