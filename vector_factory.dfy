/** VectorFactory: building vectors. */
module VectorFactory {
  import opened Implementations

  /** A fresh vector of the given length, every entry 0. */
  method CreateEmptyVector(length: nat) returns (v: ArrayVector)
    ensures v.Valid() && fresh(v.values)
    ensures v.length == length && v.values[..] == seq(length, _ => 0)
  {
    v := new ArrayVector(length);
  }

  /** A fresh vector holding `items`, filled entry by entry. */
  method CreateVector(items: seq<int>) returns (v: ArrayVector)
    ensures v.Valid() && fresh(v.values)
    ensures v.length == |items| && v.values[..] == items
  {
    var n := |items|;
    v := new ArrayVector(n);
    var i := 0;
    while i < n
      invariant 0 <= i <= n
      invariant forall k :: 0 <= k < i ==> v.values[k] == items[k]
    {
      var o := v.SetItem(i, items[i]);
      i := i + 1;
    }
    assert v.values[..] == items;
  }
}
