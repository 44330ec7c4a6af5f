/** The growing byte buffer that every variable-length encoder appends to. */
module GrowingBuffer {
  import opened Bytes

  // The largest value of size_t on the 64-bit targets.
  const SIZE_MAX: nat := 0xFFFF_FFFF_FFFF_FFFF

  const FIRST_CAPACITY: nat := 256

  /** Doubles from cap until need fits; exactly need once doubling would overflow. */
  function Doubled(cap: nat, need: nat): (r: nat)
    requires 0 < cap
    ensures need <= r
    ensures cap <= r
    ensures r == cap || r < 2 * need
    ensures cap <= SIZE_MAX && need <= SIZE_MAX ==> r <= SIZE_MAX
    ensures need <= SIZE_MAX / 2 ==> r == cap || 2 * cap <= r
    decreases need - cap
  {
    if need <= cap then cap
    else if cap > SIZE_MAX / 2 then need
    else Doubled(2 * cap, need)
  }

  /** The capacity after making room for need bytes in a buffer of capacity cap. */
  function Grown(cap: nat, need: nat): nat {
    if need <= cap then cap
    else Doubled(if cap == 0 then FIRST_CAPACITY else cap, need)
  }

  function Total(sizes: seq<nat>): nat {
    if sizes == [] then 0 else Total(sizes[..|sizes| - 1]) + sizes[|sizes| - 1]
  }

  /** The capacity after appending pieces of the given sizes to an initialised buffer. */
  function CapacityAfter(sizes: seq<nat>): nat {
    if sizes == [] then 0
    else Grown(CapacityAfter(sizes[..|sizes| - 1]), Total(sizes))
  }

  /** How many bytes of storage all the reallocations of that run carry over. */
  function MovedBy(sizes: seq<nat>): nat {
    if sizes == [] then 0
    else
      var init := sizes[..|sizes| - 1];
      var cap := CapacityAfter(init);
      MovedBy(init) + if Total(sizes) <= cap then 0 else cap
  }

  /** Every run of appends ends with room for all bytes and at most double of what is needed. */
  lemma {:induction false} CapacityIsTight(sizes: seq<nat>)
    ensures Total(sizes) <= CapacityAfter(sizes)
    ensures CapacityAfter(sizes) <= if 2 * Total(sizes) < 256 then 256 else 2 * Total(sizes)
  {
    if sizes != [] {
      CapacityIsTight(sizes[..|sizes| - 1]);
    }
  }

  function Pow2(k: nat): nat {
    if k == 0 then 1 else 2 * Pow2(k - 1)
  }

  lemma {:induction false} DoubledIsPower(k: nat, need: nat) returns (j: nat)
    requires 0 < Pow2(k) && need <= SIZE_MAX / 2
    ensures Doubled(Pow2(k), need) == Pow2(j)
    decreases need - Pow2(k)
  {
    j := k;
    if need > Pow2(k) {
      j := DoubledIsPower(k + 1, need);
    }
  }

  /** While the total stays within half of size_t's range, the capacity is a power of two of at least 256, or nothing yet. */
  lemma {:induction false} CapacityIsPower(sizes: seq<nat>) returns (k: nat)
    requires Total(sizes) <= 0x7FFF_FFFF_FFFF_FFFF
    ensures CapacityAfter(sizes) == Pow2(k) >= 256 || (CapacityAfter(sizes) == 0 == Total(sizes))
  {
    k := 8;
    if sizes != [] {
      k := CapacityIsPower(sizes[..|sizes| - 1]);
      var cap := CapacityAfter(sizes[..|sizes| - 1]);
      if Total(sizes) > cap {
        assert Pow2(8) == 256;
        k := DoubledIsPower(if cap == 0 then 8 else k, Total(sizes));
      }
    }
  }

  /**
   * While the total stays within half of size_t's range, all reallocations of a
   * run together carry over fewer bytes than the final capacity.
   */
  lemma {:induction false} GrowthIsAmortised(sizes: seq<nat>)
    requires Total(sizes) <= SIZE_MAX / 2
    ensures MovedBy(sizes) < CapacityAfter(sizes) || (MovedBy(sizes) == CapacityAfter(sizes) == 0 && Total(sizes) == 0)
  {
    if sizes != [] {
      var init := sizes[..|sizes| - 1];
      GrowthIsAmortised(init);
      CapacityIsTight(init);
    }
  }

  // -------------------------------------------------------------------------
  // Runs of appends whose allocations may fail
  // -------------------------------------------------------------------------

  /** Whenever one of the appends has to ask for memory, the answer at its position is yes. */
  predicate Provided(sizes: seq<nat>, memory: seq<bool>)
    requires |sizes| <= |memory|
  {
    sizes == []
    || (var n := |sizes| - 1;
        Provided(sizes[..n], memory) && (Total(sizes) <= CapacityAfter(sizes[..n]) || memory[n]))
  }

  lemma {:induction false} ProvidedPart(sizes: seq<nat>, memory: seq<bool>, k: nat)
    requires k <= |sizes| <= |memory| && Provided(sizes, memory)
    ensures Provided(sizes[..k], memory)
    decreases |sizes|
  {
    if k == |sizes| {
      assert sizes[..k] == sizes;
    } else {
      var n := |sizes| - 1;
      assert sizes[..n][..k] == sizes[..k];
      ProvidedPart(sizes[..n], memory, k);
    }
  }

  /** The append at position n exceeds the capacity that the ones before it have left. */
  predicate Exceeds(sizes: seq<nat>, n: nat)
    requires n < |sizes|
  {
    Total(sizes[..n + 1]) > CapacityAfter(sizes[..n])
  }

  /** Memory is needed exactly for the appends that exceed the capacity. */
  lemma {:induction false} ProvidedExactly(sizes: seq<nat>, memory: seq<bool>)
    requires |sizes| <= |memory|
    ensures Provided(sizes, memory) <==> forall n | 0 <= n < |sizes| && Exceeds(sizes, n) :: memory[n]
  {
    if sizes != [] {
      var n := |sizes| - 1;
      ProvidedExactly(sizes[..n], memory);
      assert sizes[..n + 1] == sizes;
      forall k | 0 <= k < n
        ensures Exceeds(sizes[..n], k) == Exceeds(sizes, k)
      {
        assert sizes[..n][..k + 1] == sizes[..k + 1] && sizes[..n][..k] == sizes[..k];
      }
      assert Exceeds(sizes, n) <==> Total(sizes) > CapacityAfter(sizes[..n]);
      hide Exceeds, Total, CapacityAfter;
    }
  }

  /** Only yes is always enough. */
  lemma {:induction false} AllProvided(sizes: seq<nat>, memory: seq<bool>)
    requires |sizes| <= |memory| && forall i | 0 <= i < |sizes| :: memory[i]
    ensures Provided(sizes, memory)
  {
    if sizes != [] {
      AllProvided(sizes[..|sizes| - 1], memory);
    }
  }

  lemma {:induction false} TotalPart(sizes: seq<nat>, k: nat)
    requires k <= |sizes|
    ensures Total(sizes[..k]) <= Total(sizes)
    ensures k < |sizes| ==> Total(sizes[..k + 1]) == Total(sizes[..k]) + sizes[k]
    decreases |sizes|
  {
    if k == |sizes| {
      assert sizes[..k] == sizes;
    } else {
      var n := |sizes| - 1;
      assert sizes[..n][..k] == sizes[..k];
      assert sizes[..k + 1][..k] == sizes[..k];
      TotalPart(sizes[..n], k);
    }
  }

  /** The doubling loop of the append operation. */
  method NextCapacity(cap: nat, need: nat) returns (nextCap: nat)
    requires cap < need <= SIZE_MAX
    ensures nextCap == Grown(cap, need)
    ensures nextCap <= SIZE_MAX
  {
    nextCap := if cap == 0 then FIRST_CAPACITY else cap;
    while nextCap < need
      invariant 0 < nextCap <= SIZE_MAX
      invariant Doubled(nextCap, need) == Grown(cap, need)
      decreases need - nextCap
    {
      if nextCap > SIZE_MAX / 2 {
        nextCap := need;
        break;
      }
      nextCap := nextCap * 2;
    }
  }

  /**
   * data.Length is the C field cap. The allocator's answers are an input of the
   * operations that may ask it: memory says whether realloc succeeds.
   */
  class Buffer {
    var data: array<byte>
    var len: nat
    ghost var Contents: seq<byte>
    ghost var Repr: set<object>

    ghost predicate Valid()
      reads this, Repr
      ensures Valid() ==> this in Repr && data in Repr
    {
      && Repr == {this, data}
      && len <= data.Length <= SIZE_MAX
      && Contents == data[..len]
    }

    constructor ()
      ensures Valid() && fresh(Repr)
      ensures Contents == [] && data.Length == 0
    {
      data := new byte[0];
      len := 0;
      Contents := [];
      Repr := {this, data};
    }

    /** Enlarges the storage to exactly cap bytes, keeping the contents. */
    method Reserve(cap: nat, memory: bool) returns (ok: bool)
      requires Valid() && cap <= SIZE_MAX
      modifies Repr
      ensures Valid() && fresh(Repr - old(Repr))
      ensures ok <==> cap <= old(data.Length) || memory
      ensures data.Length == if ok && cap > old(data.Length) then cap else old(data.Length)
      ensures Contents == old(Contents) && len == old(len)
    {
      if cap <= data.Length {
        return true;
      }
      if !memory {
        return false;
      }
      var next := new byte[cap];
      forall i | 0 <= i < len {
        next[i] := data[i];
      }
      data := next;
      Repr := {this, data};
      return true;
    }

    /**
     * Appends bytes, or fails without any change: when the new length is not a
     * size_t, or when room is needed and there is no memory.
     */
    method Append(bytes: seq<byte>, memory: bool) returns (ok: bool)
      requires Valid()
      modifies Repr
      ensures Valid() && fresh(Repr - old(Repr))
      ensures var need := old(|Contents|) + |bytes|;
        ok <==> bytes == [] || (need <= SIZE_MAX && (need <= old(data.Length) || memory))
      ensures Contents == if ok then old(Contents) + bytes else old(Contents)
      ensures data.Length == if ok && bytes != [] then Grown(old(data.Length), |Contents|) else old(data.Length)
    {
      if bytes == [] {
        return true;
      }
      var need := len + |bytes|;
      if need > SIZE_MAX {
        return false;
      }
      if need > data.Length {
        var nextCap := NextCapacity(data.Length, need);
        var reserved := Reserve(nextCap, memory);
        if !reserved {
          return false;
        }
      }
      forall i | 0 <= i < |bytes| {
        data[len + i] := bytes[i];
      }
      Contents := Contents + bytes;
      len := need;
      return true;
    }
  }
}
