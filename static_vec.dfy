/**
 * `StaticVec<T, SIZE>` and `IStaticVec<T>::push_slice` of
 * proto_cpp/include/static_vec.h: a vector with a fixed inline array and a length
 * (`head` in the C++), which never grows and hands a rejected value back.
 */
module StaticVecs {
  import opened Wrappers

  /** The first `cap` elements of `s`: what is kept of `s` when pushed into room for `cap`. */
  function Fit<T>(s: seq<T>, cap: nat): (r: seq<T>)
    ensures |r| == if |s| <= cap then |s| else cap
    ensures r <= s
  {
    if |s| <= cap then s else s[..cap]
  }

  /**
   * A container that rejected one value stays full and rejects every later one, so
   * pushing `a` then `b` keeps the same prefix as pushing `a + b` at once.
   */
  lemma FitAppend<T>(a: seq<T>, b: seq<T>, cap: nat)
    ensures Fit(Fit(a, cap) + b, cap) == Fit(a + b, cap)
  {
    if |a| > cap {
      assert (a + b)[..cap] == a[..cap];
      assert (a[..cap] + b)[..cap] == a[..cap];
    }
  }

  class StaticVec<T(0)> {
    /** The inline `std::array<T, SIZE>`; its length is `SIZE`. */
    const inner: array<T>
    /** Number of live elements, `head` in the C++. */
    var head: nat

    ghost predicate Valid()
      reads this
    {
      head <= inner.Length
    }

    /** `span()`: exactly the first `size()` elements. */
    function Span(): (s: seq<T>)
      reads this, inner
      requires Valid()
      ensures |s| == head
    {
      inner[..head]
    }

    /** `size()`. */
    function Size(): (n: nat)
      reads this, inner
      requires Valid()
      ensures n == |Span()| && n <= Capacity()
    {
      head
    }

    /** `capacity()`: the template argument `SIZE`. */
    function Capacity(): nat
    {
      inner.Length
    }

    /** The default constructor: an empty vector of capacity `size`. */
    constructor (size: nat)
      ensures Valid() && fresh(inner)
      ensures Capacity() == size && Span() == []
    {
      inner := new T[size];
      head := 0;
    }

    /** `StaticVec(T init)`: one element, `init`. */
    constructor Seeded(size: nat, init: T)
      requires size >= 1
      ensures Valid() && fresh(inner)
      ensures Capacity() == size && Span() == [init]
    {
      var a := new T[size];
      a[0] := init;
      inner := a;
      head := 1;
    }

    /** `push_back`: store at `size()` when there is room, otherwise hand `val` back untouched. */
    method PushBack(val: T) returns (rejected: Option<T>)
      requires Valid()
      modifies this, inner
      ensures Valid()
      ensures old(head) < Capacity() ==> rejected == None && Span() == old(Span()) + [val]
      ensures old(head) == Capacity() ==> rejected == Some(val) && head == old(head) && unchanged(inner)
      ensures Span() == Fit(old(Span()) + [val], Capacity())
    {
      if head < inner.Length {
        inner[head] := val;
        head := head + 1;
        rejected := None;
      } else {
        rejected := Some(val);
      }
    }

    /** `pop_back`: remove and return the last element, or nothing when empty. */
    method PopBack() returns (r: Option<T>)
      requires Valid()
      modifies this
      ensures Valid()
      ensures old(head) > 0 ==> r == Some(old(Span())[old(head) - 1]) && Span() == old(Span())[..old(head) - 1]
      ensures old(head) == 0 ==> r == None && head == 0
    {
      if head > 0 {
        head := head - 1;
        r := Some(inner[head]);
      } else {
        r := None;
      }
    }

    /** `clear`: length back to zero; the array is not touched. */
    method Clear()
      requires Valid()
      modifies this
      ensures Valid() && Span() == []
    {
      head := 0;
    }

    /**
     * `IStaticVec::push_slice`: push elements of `data` in order until one is
     * rejected.  The C++ declares a counter and never increments it, so the
     * result is always 0.
     */
    method PushSlice(data: seq<T>) returns (count: nat)
      requires Valid()
      modifies this, inner
      ensures Valid() && count == 0
      ensures Span() == Fit(old(Span()) + data, Capacity())
    {
      count := 0;
      var i := 0;
      while i < |data|
        invariant Valid() && i <= |data|
        invariant Span() == old(Span()) + data[..i]
      {
        var r := PushBack(data[i]);
        if r.Some? {
          assert (old(Span()) + data)[..Capacity()] == old(Span()) + data[..i];
          return;
        }
        i := i + 1;
        assert data[..i] == data[..i - 1] + [data[i - 1]];
      }
      assert data[..i] == data;
    }
  }
}
