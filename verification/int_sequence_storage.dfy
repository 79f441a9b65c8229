/**
 * IntSequenceStorage: the int[]-backed storage behind a Python list of ints.
 *
 * A storage is the backing array `values` (whose length is the capacity)
 * and the logical `length`; the list it represents is the prefix
 * values[..length]. Cells at and beyond `length` are spare and may hold
 * stale data. Each mutating Java method becomes a method or function that
 * takes the old storage and returns the new one; the loops of the Java code
 * run over a fresh local array.
 */
module IntSequenceStorage {

  /** Java int. Elements are only stored, copied and compared, never combined. */
  newtype int32 = x: int | -0x8000_0000 <= x < 0x8000_0000

  datatype Storage = Storage(values: seq<int32>, length: nat)

  /** Every capacity change sets capacity = values.length, so the capacity is the array length. */
  function Capacity(s: Storage): nat {
    |s.values|
  }

  /** The class invariant length <= capacity == values.length. */
  predicate Valid(s: Storage) {
    s.length <= |s.values|
  }

  /** The list the storage represents. */
  function Contents(s: Storage): seq<int32>
    requires Valid(s)
  {
    s.values[..s.length]
  }

  datatype Error = IndexError(message: string) | ArrayIndexOutOfBounds

  datatype Result<T> = Ok(value: T) | Err(error: Error)

  function Max(a: int, b: int): int {
    if a > b then a else b
  }

  // ---------------------------------------------------------------------
  // Construction and capacity

  function Empty(): (s: Storage)
    ensures Valid(s) && Contents(s) == [] && Capacity(s) == 0
  {
    Storage([], 0)
  }

  /** The storage adopts the array: capacity and length are both its length. */
  function FromArray(elements: seq<int32>): (s: Storage)
    ensures Valid(s) && Contents(s) == elements && Capacity(s) == |elements|
  {
    Storage(elements, |elements|)
  }

  /** Growth of the base class, taken as Arrays.copyOf to exactly n cells:
      the old array is a prefix of the new one and new cells hold 0. */
  function EnsureCapacity(s: Storage, n: int): (r: Storage)
    ensures Capacity(r) >= n && Capacity(r) >= Capacity(s)
    ensures r.length == s.length
    ensures r.values[..|s.values|] == s.values
    ensures forall k :: |s.values| <= k < |r.values| ==> r.values[k] == 0
    ensures Valid(s) ==> Valid(r) && Contents(r) == Contents(s)
  {
    if n <= |s.values| then s
    else Storage(s.values + seq(n - |s.values|, _ => 0 as int32), s.length)
  }

  /** Shrinking of the base class: the array is cut to the length. */
  function MinimizeCapacity(s: Storage): (r: Storage)
    requires Valid(s)
    ensures Valid(r) && Contents(r) == Contents(s) && Capacity(r) == s.length
  {
    Storage(s.values[..s.length], s.length)
  }

  /** A new storage over a copy of the list part of the array. */
  function Copy(s: Storage): (r: Storage)
    requires Valid(s)
    ensures Valid(r) && Contents(r) == Contents(s) && Capacity(r) == s.length
  {
    FromArray(s.values[..s.length])
  }

  // ---------------------------------------------------------------------
  // Element access: the bound is the array's, not the list's

  function GetIntItemNormalized(s: Storage, idx: int): (r: Result<int32>)
    ensures r.Ok? <==> 0 <= idx < Capacity(s)
    ensures r.Err? ==> r.error == IndexError("list index out of range")
    ensures Valid(s) && 0 <= idx < s.length ==> r == Ok(Contents(s)[idx])
    ensures Valid(s) && s.length <= idx < Capacity(s) ==> r == Ok(s.values[idx])
  {
    if 0 <= idx < |s.values| then Ok(s.values[idx])
    else Err(IndexError("list index out of range"))
  }

  function SetIntItemNormalized(s: Storage, idx: int, value: int32): (r: Result<Storage>)
    ensures r.Ok? <==> 0 <= idx < Capacity(s)
    ensures r.Err? ==> r.error == IndexError("list assignment index out of range")
    ensures r.Ok? ==> r.value.length == s.length && Capacity(r.value) == Capacity(s)
    ensures r.Ok? && Valid(s) && idx < s.length ==>
      Valid(r.value) && Contents(r.value) == Contents(s)[idx := value]
    ensures r.Ok? && Valid(s) && s.length <= idx ==>
      Valid(r.value) && Contents(r.value) == Contents(s)
  {
    if 0 <= idx < |s.values| then
      var r := Storage(s.values[idx := value], s.length);
      assert Valid(s) && s.length <= idx ==> r.values[..s.length] == s.values[..s.length];
      Ok(r)
    else Err(IndexError("list assignment index out of range"))
  }

  // ---------------------------------------------------------------------
  // Growing the list

  function AppendInt(s: Storage, value: int32): (r: Storage)
    requires Valid(s)
    ensures Valid(r) && Contents(r) == Contents(s) + [value]
    ensures Capacity(r) >= Capacity(s)
  {
    var g := EnsureCapacity(s, s.length + 1);
    var r := Storage(g.values[s.length := value], s.length + 1);
    assert Contents(r) == Contents(g) + [value];
    r
  }

  method ExtendWithIntStorage(s: Storage, other: Storage) returns (r: Storage)
    requires Valid(s) && Valid(other)
    ensures Valid(r) && Contents(r) == Contents(s) + Contents(other)
    ensures r.values[r.length..] == EnsureCapacity(s, s.length + other.length).values[r.length..]
  {
    var extendedLength := s.length + other.length;
    var g := EnsureCapacity(s, extendedLength);
    var a := new int32[|g.values|];
    forall k | 0 <= k < |g.values| {
      a[k] := g.values[k];
    }
    var i, j := s.length, 0;
    while i < extendedLength
      invariant s.length <= i <= extendedLength && j == i - s.length
      invariant forall k :: 0 <= k < s.length ==> a[k] == s.values[k]
      invariant forall k :: s.length <= k < i ==> a[k] == other.values[k - s.length]
      invariant forall k :: i <= k < a.Length ==> a[k] == g.values[k]
    {
      a[i] := other.values[j];
      i, j := i + 1, j + 1;
    }
    r := Storage(a[..], extendedLength);
    assert Contents(r) == Contents(s) + Contents(other) by {
      forall k | 0 <= k < extendedLength
        ensures Contents(r)[k] == (Contents(s) + Contents(other))[k]
      {
        if k < s.length {
          assert g.values[k] == g.values[..|s.values|][k];
        }
      }
    }
  }

  /** The tail is shifted from the end of the ARRAY, so the whole spare part
      moves one cell right and the last array cell is lost. An index outside
      the grown array throws; an index past the length still stores into the
      spare part and counts one more element. */
  method InsertIntItem(s: Storage, idx: int, value: int32) returns (r: Result<Storage>)
    requires Valid(s)
    ensures r.Err? <==> !(0 <= idx < Capacity(EnsureCapacity(s, s.length + 1)))
    ensures r.Err? ==> r.error == ArrayIndexOutOfBounds
    ensures r.Ok? ==> var g := EnsureCapacity(s, s.length + 1).values;
      r.value.length == s.length + 1 && r.value.values == g[..idx] + [value] + g[idx..|g| - 1]
    ensures 0 <= idx <= s.length ==>
      r.Ok? && Valid(r.value) && Contents(r.value) == Contents(s)[..idx] + [value] + Contents(s)[idx..]
  {
    var g := EnsureCapacity(s, s.length + 1);
    if idx < 0 || idx >= |g.values| {
      return Err(ArrayIndexOutOfBounds);
    }
    var shifted := ShiftRightAndStore(g.values, idx, value);
    var grown := Storage(shifted, s.length + 1);
    ShiftedOver(g.values, idx, value, shifted);
    if idx <= s.length {
      assert g.values[..s.length] == g.values[..|s.values|][..s.length];
      ShiftedIn(g.values, idx, value, shifted, Contents(s));
    }
    r := Ok(grown);
  }

  /** The loop of insertIntItem: every cell after idx takes its left
      neighbour's value, from the last array cell down, then idx takes value. */
  method ShiftRightAndStore(g: seq<int32>, idx: nat, value: int32) returns (shifted: seq<int32>)
    requires idx < |g|
    ensures |shifted| == |g|
    ensures forall k :: 0 <= k < idx ==> shifted[k] == g[k]
    ensures shifted[idx] == value
    ensures forall k :: idx < k < |g| ==> shifted[k] == g[k - 1]
  {
    var a := new int32[|g|];
    forall k | 0 <= k < |g| {
      a[k] := g[k];
    }
    var i := a.Length - 1;
    while i > idx
      invariant idx <= i < a.Length
      invariant forall k :: 0 <= k <= i ==> a[k] == g[k]
      invariant forall k :: i < k < a.Length ==> a[k] == g[k - 1]
    {
      a[i] := a[i - 1];
      i := i - 1;
    }
    a[idx] := value;
    shifted := a[..];
  }

  /** The array after the right shift and the store. */
  lemma ShiftedOver(g: seq<int32>, idx: nat, value: int32, shifted: seq<int32>)
    requires idx < |g| && |shifted| == |g|
    requires forall k :: 0 <= k < idx ==> shifted[k] == g[k]
    requires shifted[idx] == value
    requires forall k :: idx < k < |g| ==> shifted[k] == g[k - 1]
    ensures shifted == g[..idx] + [value] + g[idx..|g| - 1]
  {
    var spliced := g[..idx] + [value] + g[idx..|g| - 1];
    forall k | 0 <= k < |g|
      ensures shifted[k] == spliced[k]
    {
      if k < idx {
        assert spliced[k] == g[..idx][k] == g[k] == shifted[k];
      } else if k == idx {
        assert spliced[k] == value == shifted[k];
      } else {
        assert spliced[k] == g[idx..|g| - 1][k - idx - 1] == g[k - 1] == shifted[k];
      }
    }
  }

  /** The list the array holds after the right shift and the store. */
  lemma ShiftedIn(g: seq<int32>, idx: nat, value: int32, shifted: seq<int32>, list: seq<int32>)
    requires idx <= |list| < |g| && g[..|list|] == list
    requires |shifted| == |g|
    requires forall k :: 0 <= k < idx ==> shifted[k] == g[k]
    requires shifted[idx] == value
    requires forall k :: idx < k < |g| ==> shifted[k] == g[k - 1]
    ensures shifted[..|list| + 1] == list[..idx] + [value] + list[idx..]
  {
    var n := |list|;
    forall k | 0 <= k <= n
      ensures shifted[..n + 1][k] == (list[..idx] + [value] + list[idx..])[k]
    {
      if k < idx {
        assert list[k] == g[..n][k];
      } else if k > idx {
        assert list[k - 1] == g[..n][k - 1];
      }
    }
  }

  // ---------------------------------------------------------------------
  // Shrinking the list

  datatype Popped = Popped(storage: Storage, value: int32)

  /** Removes the element at idx by shifting every later ARRAY cell left;
      the last array cell keeps its value. */
  method PopInBound(s: Storage, idx: nat) returns (r: Storage, popped: int32)
    requires Valid(s) && idx < s.length
    ensures Valid(r) && popped == Contents(s)[idx]
    ensures Contents(r) == Contents(s)[..idx] + Contents(s)[idx + 1..]
    ensures r.values == s.values[..idx] + s.values[idx + 1..] + [s.values[|s.values| - 1]]
  {
    popped := s.values[idx];
    var shifted := ShiftLeftOver(s.values, idx);
    r := Storage(shifted, s.length - 1);
    ShiftedOut(s.values, idx, shifted, s.length);
  }

  /** The loop of popInBound: every cell from idx to the next-to-last array
      cell takes its right neighbour's value. */
  method ShiftLeftOver(v: seq<int32>, idx: nat) returns (shifted: seq<int32>)
    requires idx < |v|
    ensures |shifted| == |v|
    ensures forall k :: 0 <= k < idx ==> shifted[k] == v[k]
    ensures forall k :: idx <= k < |v| - 1 ==> shifted[k] == v[k + 1]
    ensures shifted[|v| - 1] == v[|v| - 1]
  {
    var a := new int32[|v|];
    forall k | 0 <= k < |v| {
      a[k] := v[k];
    }
    var i := idx;
    while i < a.Length - 1
      invariant idx <= i <= a.Length - 1
      invariant forall k :: 0 <= k < idx ==> a[k] == v[k]
      invariant forall k :: idx <= k < i ==> a[k] == v[k + 1]
      invariant forall k :: i <= k < a.Length ==> a[k] == v[k]
    {
      a[i] := a[i + 1];
      i := i + 1;
    }
    shifted := a[..];
  }

  /** The array after the left shift, and the list it holds. */
  lemma ShiftedOut(v: seq<int32>, idx: nat, shifted: seq<int32>, n: nat)
    requires idx < n <= |v| && |shifted| == |v|
    requires forall k :: 0 <= k < idx ==> shifted[k] == v[k]
    requires forall k :: idx <= k < |v| - 1 ==> shifted[k] == v[k + 1]
    requires shifted[|v| - 1] == v[|v| - 1]
    ensures shifted == v[..idx] + v[idx + 1..] + [v[|v| - 1]]
    ensures shifted[..n - 1] == v[..n][..idx] + v[..n][idx + 1..]
  {
    var joined := v[..idx] + v[idx + 1..] + [v[|v| - 1]];
    forall k | 0 <= k < |v|
      ensures shifted[k] == joined[k]
    {
      if k < idx {
        assert joined[k] == v[..idx][k];
      } else if k < |v| - 1 {
        assert joined[k] == v[idx + 1..][k - idx];
      }
    }
    var list := v[..n];
    forall k | 0 <= k < n - 1
      ensures shifted[k] == (list[..idx] + list[idx + 1..])[k]
    {
      if k >= idx {
        assert (list[..idx] + list[idx + 1..])[k] == list[idx + 1..][k - idx];
      }
    }
  }

  /** popInt as written: it returns the last ARRAY cell, values[capacity - 1],
      which is the last element when the array is full; PopIntAgreesWithPopLast
      gives the exact condition. */
  function PopIntAsWritten(s: Storage): (r: Popped)
    requires Valid(s) && s.length > 0
    ensures Valid(r.storage) && Contents(r.storage) == Contents(s)[..s.length - 1]
    ensures Capacity(r.storage) == Capacity(s) && r.value == s.values[Capacity(s) - 1]
    ensures r.value == Contents(s)[s.length - 1] <== s.length == Capacity(s)
  {
    Popped(Storage(s.values, s.length - 1), s.values[|s.values| - 1])
  }

  /** popInt as evidently intended: the last element of the list. */
  function PopLast(s: Storage): (r: Popped)
    requires Valid(s) && s.length > 0
    ensures Valid(r.storage) && Contents(r.storage) + [r.value] == Contents(s)
    ensures Capacity(r.storage) == Capacity(s)
  {
    Popped(Storage(s.values, s.length - 1), s.values[s.length - 1])
  }

  /** The two agree exactly when the last array cell holds the last element. */
  lemma PopIntAgreesWithPopLast(s: Storage)
    requires Valid(s) && s.length > 0
    ensures PopIntAsWritten(s) == PopLast(s) <==> s.values[|s.values| - 1] == Contents(s)[s.length - 1]
  {
  }

  /** A storage that popInBound leaves with a spare cell: popInt answers 8
      where the list [7] ends in 7. */
  method PopIntAfterPopInBound() returns (popped: int32, last: int32)
    ensures popped == 8 && last == 7
  {
    var s := FromArray([7, 8]);
    var t, first := PopInBound(s, 1);
    assert t.values == [7, 8] && t.length == 1;
    popped := PopIntAsWritten(t).value;
    last := PopLast(t).value;
  }

  /** delItemInBound: popInt is taken only when idx is the last array cell,
      which (idx being below the length) means the array is full and popInt
      is right. */
  method DelItemInBound(s: Storage, idx: nat) returns (r: Storage)
    requires Valid(s) && idx < s.length
    ensures Valid(r) && Contents(r) == Contents(s)[..idx] + Contents(s)[idx + 1..]
  {
    if |s.values| - 1 == idx {
      r := PopIntAsWritten(s).storage;
      assert Contents(s)[idx + 1..] == [];
    } else {
      var popped;
      r, popped := PopInBound(s, idx);
    }
  }

  /** What the caller passes as the stop of a deletion. */
  datatype SliceStop = Missing | Index(i: int)

  /** Only an open-ended deletion (stop missing) does anything: it cuts the
      list at start. */
  function DelSlice(s: Storage, start: int, stop: SliceStop): (r: Storage)
    requires Valid(s)
    requires stop.Missing? ==> 0 <= start <= s.length
    ensures Valid(r) && Capacity(r) == Capacity(s)
    ensures stop.Missing? ==> Contents(r) == Contents(s)[..start]
    ensures stop.Index? ==> r == s
  {
    if stop.Missing? then Storage(s.values, start) else s
  }

  /** Deletion as evidently intended: an open-ended deletion cuts the list
      at start, and a bounded one removes the elements start .. stop - 1,
      moving the rest down; the capacity is kept. */
  function DelSliceIntended(s: Storage, start: int, stop: SliceStop): (r: Storage)
    requires Valid(s)
    requires stop.Missing? ==> 0 <= start <= s.length
    requires stop.Index? ==> 0 <= start <= stop.i <= s.length
    ensures Valid(r) && Capacity(r) == Capacity(s)
    ensures stop.Missing? ==> Contents(r) == Contents(s)[..start]
    ensures stop.Index? ==> Contents(r) == Contents(s)[..start] + Contents(s)[stop.i..]
  {
    if stop.Missing? then Storage(s.values, start)
    else
      var gap := stop.i - start;
      var r := Storage(s.values[..start] + s.values[stop.i..] + seq(gap, _ => 0 as int32), s.length - gap);
      assert Contents(r) == (s.values[..start] + s.values[stop.i..])[..s.length - gap];
      assert Contents(r) == Contents(s)[..start] + Contents(s)[stop.i..];
      r
  }

  /** The two deletions agree on an open-ended slice; on the list [1, 2, 3],
      deleting [0:1] as written leaves the list as it was, where the
      intended deletion leaves [2, 3]. */
  lemma DelSliceIgnoresStop(s: Storage, start: int)
    requires Valid(s) && 0 <= start <= s.length
    ensures DelSlice(s, start, Missing) == DelSliceIntended(s, start, Missing)
    ensures Contents(DelSlice(FromArray([1, 2, 3]), 0, Index(1))) == [1, 2, 3]
    ensures Contents(DelSliceIntended(FromArray([1, 2, 3]), 0, Index(1))) == [2, 3]
  {
    var t := FromArray([1, 2, 3]);
    assert Contents(t)[1..] == [2, 3];
  }

  // ---------------------------------------------------------------------
  // Search

  /** The first position of value in the list, or -1. */
  method IndexOfInt(s: Storage, value: int32) returns (i: int)
    requires Valid(s)
    ensures -1 <= i < s.length
    ensures i >= 0 ==> Contents(s)[i] == value && value !in Contents(s)[..i]
    ensures i == -1 <==> value !in Contents(s)
  {
    var k := 0;
    while k < s.length
      invariant 0 <= k <= s.length
      invariant value !in s.values[..k]
    {
      if s.values[k] == value {
        assert s.values[..k] == Contents(s)[..k];
        return k;
      }
      assert s.values[..k + 1] == s.values[..k] + [s.values[k]];
      k := k + 1;
    }
    return -1;
  }

  // ---------------------------------------------------------------------
  // Reversal

  /** Java's int division, truncating toward zero. */
  function JavaDiv(a: int, b: int): (q: int)
    requires b != 0
    ensures 0 <= a && 0 < b ==> q == a / b
    ensures -b < a < 0 ==> q == 0
  {
    var m := (if a < 0 then -a else a) / (if b < 0 then -b else b);
    if (a < 0) == (b < 0) then m else -m
  }

  /** The reference: the list read backwards. */
  function Reversed(xs: seq<int32>): (r: seq<int32>)
    ensures |r| == |xs|
  {
    seq(|xs|, k requires 0 <= k < |xs| => xs[|xs| - 1 - k])
  }

  /** reverse as written: head runs from 0 to middle = (length - 1) / 2 in
      Java arithmetic, so on an empty list the loop still runs once and
      reads the cell at tail = -1. */
  method ReverseAsWritten(s: Storage) returns (r: Result<Storage>)
    requires Valid(s)
    ensures r.Err? <==> s.length == 0
    ensures r.Err? ==> r.error == ArrayIndexOutOfBounds
    ensures r.Ok? ==> Valid(r.value) && Contents(r.value) == Reversed(Contents(s))
    ensures r.Ok? ==> r.value.length == s.length && r.value.values[s.length..] == s.values[s.length..]
  {
    var swapped := SwapFromBothEnds(s.values, s.length);
    if swapped.Err? {
      return Err(swapped.error);
    }
    var t := Storage(swapped.value, s.length);
    assert Contents(t) == Reversed(Contents(s));
    assert t.values[s.length..] == s.values[s.length..];
    return Ok(t);
  }

  /** The swap loop of reverse over the first n cells of v. */
  method SwapFromBothEnds(v: seq<int32>, n: nat) returns (r: Result<seq<int32>>)
    requires n <= |v|
    ensures r.Err? <==> n == 0
    ensures r.Err? ==> r.error == ArrayIndexOutOfBounds
    ensures r.Ok? ==> |r.value| == |v|
    ensures r.Ok? ==> forall k :: 0 <= k < n ==> r.value[k] == v[n - 1 - k]
    ensures r.Ok? ==> forall k :: n <= k < |v| ==> r.value[k] == v[k]
  {
    var a := new int32[|v|];
    forall k | 0 <= k < |v| {
      a[k] := v[k];
    }
    var head := 0;
    var tail := n - 1;
    var middle := JavaDiv(n - 1, 2);
    while head <= middle
      invariant 0 <= head && tail == n - 1 - head
      invariant n == 0 ==> head == 0 && middle == 0
      invariant n > 0 ==> head <= middle + 1 && middle == (n - 1) / 2
      invariant forall k :: 0 <= k < head ==> a[k] == v[n - 1 - k] && a[n - 1 - k] == v[k]
      invariant forall k :: head <= k <= tail ==> a[k] == v[k]
      invariant forall k :: n <= k < a.Length ==> a[k] == v[k]
    {
      if !(head < a.Length && 0 <= tail < a.Length) {
        return Err(ArrayIndexOutOfBounds);
      }
      var temp := a[head];
      a[head] := a[tail];
      a[tail] := temp;
      head, tail := head + 1, tail - 1;
    }
    forall k | 0 <= k < n
      ensures a[k] == v[n - 1 - k]
    {
      if k >= head {
        assert n - 1 - k < head;
      }
    }
    return Ok(a[..]);
  }

  /** reverse as evidently intended: the empty list is its own reversal. */
  method Reverse(s: Storage) returns (r: Storage)
    requires Valid(s)
    ensures Valid(r) && Contents(r) == Reversed(Contents(s))
    ensures r.length == s.length && r.values[s.length..] == s.values[s.length..]
  {
    if s.length == 0 {
      return s;
    }
    var res := ReverseAsWritten(s);
    r := res.value;
  }

  // ---------------------------------------------------------------------
  // Slices

  /** Position of the j-th element of a strided slice. */
  function Stride(start: int, step: int, j: int): int {
    start + j * step
  }

  /** Every position the slice reads lies inside the array. */
  predicate StrideInBounds(capacity: nat, start: int, step: int, n: nat) {
    forall j :: 0 <= j < n ==> 0 <= Stride(start, step, j) < capacity
  }

  /** The reference: the j-th slice element is xs[start + j * step]. */
  function Strided(xs: seq<int32>, start: int, step: int, n: nat): (r: seq<int32>)
    requires StrideInBounds(|xs|, start, step, n)
    ensures |r| == n
  {
    seq(n, j requires 0 <= j < n => xs[Stride(start, step, j)])
  }

  /** With step 1 the slice is the contiguous run System.arraycopy copies. */
  lemma StridedStepOne(xs: seq<int32>, start: int, n: nat)
    requires 0 <= start && start + n <= |xs|
    ensures StrideInBounds(|xs|, start, 1, n)
    ensures Strided(xs, start, 1, n) == xs[start..start + n]
  {
  }

  method GetSliceInBound(s: Storage, start: int, stop: int, step: int, sliceLength: nat) returns (r: Storage)
    requires StrideInBounds(|s.values|, start, step, sliceLength)
    requires step == 1 ==> 0 <= start <= |s.values|
    ensures Valid(r) && r.length == sliceLength && Capacity(r) == sliceLength
    ensures Contents(r) == Strided(s.values, start, step, sliceLength)
  {
    if step == 1 {
      if sliceLength > 0 {
        assert Stride(start, step, sliceLength - 1) < |s.values|;
      }
      StridedStepOne(s.values, start, sliceLength);
      r := FromArray(s.values[start..start + sliceLength]);
      return;
    }
    var a := new int32[sliceLength];
    var i, j := start, 0;
    while j < sliceLength
      invariant 0 <= j <= sliceLength && i == Stride(start, step, j)
      invariant forall k :: 0 <= k < j ==> a[k] == s.values[Stride(start, step, k)]
    {
      a[j] := s.values[i];
      i, j := i + step, j + 1;
    }
    r := FromArray(a[..]);
  }

  lemma {:induction false} MulStep(d: nat, step: int)
    requires d >= 1 && step > 0
    ensures d * step >= step
  {
    if d > 1 {
      MulStep(d - 1, step);
      assert d * step == (d - 1) * step + step;
    }
  }

  /** x = q * step + r with 0 <= r < step determines the quotient and remainder. */
  lemma DivModUnique(x: int, step: int, q: int, r: int)
    requires step > 0 && 0 <= r < step && x == q * step + r
    ensures x / step == q && x % step == r
  {
    var q' := x / step;
    if q' > q {
      MulStep(q' - q, step);
    } else if q' < q {
      MulStep(q - q', step);
    }
  }

  lemma MulMono(a: int, b: int, step: int)
    requires a <= b && step > 0
    ensures a * step <= b * step
  {
    if a < b {
      MulStep(b - a, step);
      assert b * step - a * step == (b - a) * step;
    }
  }

  /** The cell k receives a source element in a slice assignment. */
  predicate Assigned(start: int, stop: int, step: int, k: int)
    requires step > 0
  {
    start <= k < stop && (k - start) % step == 0
  }

  /** One iteration of the assignment loop, at i = start + j * step, adds
      exactly the cell i to the assigned cells below i, and i receives source
      element j. */
  lemma SliceStep(start: int, stop: int, step: int, j: nat, k: int)
    requires step > 0 && start + j * step < stop
    ensures var i := start + j * step;
      (Assigned(start, stop, step, k) && k < i + step) == ((Assigned(start, stop, step, k) && k < i) || k == i)
    ensures k == start + j * step ==> (k - start) / step == j
  {
    var i := start + j * step;
    if k == i {
      DivModUnique(k - start, step, j, 0);
    } else if i < k < i + step {
      DivModUnique(k - start, step, j, k - i);
    }
  }

  /** The source element a cell k receives: element (k - start) / step. */
  function SourceAt(src: seq<int32>, start: int, step: int, k: int): int32
    requires step > 0
  {
    var j := (k - start) / step;
    if 0 <= j < |src| then src[j] else 0
  }

  /** The array after a strided slice assignment of src into g. */
  predicate SliceAssigned(g: seq<int32>, src: seq<int32>, start: int, stop: int, step: int, rv: seq<int32>)
    requires step > 0
  {
    |rv| == |g| &&
    forall k :: 0 <= k < |g| ==>
      rv[k] == if Assigned(start, stop, step, k) then SourceAt(src, start, step, k) else g[k]
  }

  /** The assignment loop: for i = start, start + step, ... below stop, the
      cell i receives src[j] for the j-th i. */
  method AssignStrided(g: seq<int32>, start: int, stop: int, step: int, src: seq<int32>) returns (rv: seq<int32>)
    requires 0 <= start <= stop <= |g| && step >= 1
    requires stop <= start + |src| * step
    ensures SliceAssigned(g, src, start, stop, step, rv)
  {
    var a := new int32[|g|];
    forall k | 0 <= k < |g| {
      a[k] := g[k];
    }
    var i, j := start, 0;
    while i < stop
      invariant start <= i && 0 <= j && i == start + j * step
      invariant forall k :: 0 <= k < a.Length ==>
        a[k] == if Assigned(start, stop, step, k) && k < i then SourceAt(src, start, step, k) else g[k]
      decreases stop - i
    {
      assert j < |src| by {
        if j >= |src| {
          MulMono(|src|, j, step);
        }
      }
      forall k | 0 <= k < a.Length
        ensures (Assigned(start, stop, step, k) && k < i + step) == ((Assigned(start, stop, step, k) && k < i) || k == i)
        ensures k == i ==> SourceAt(src, start, step, k) == src[j]
      {
        SliceStep(start, stop, step, j, k);
      }
      a[i] := src[j];
      i, j := i + step, j + 1;
    }
    rv := a[..];
  }

  /** Assigning the whole list (start 0, stop the length, any step) adopts a
      copy of the source. Any other range first grows the array to stop and
      then runs the loop i = start, start + step, ... while i < stop, writing
      source element j to cell i: a range with stop <= start writes nothing,
      and the loop throws when it reaches a negative cell (a negative start,
      a step below 1) or runs past the source array. The length becomes the
      larger of length and stop. */
  method SetIntSliceInBound(s: Storage, start: int, stop: int, step: int, other: Storage) returns (r: Result<Storage>)
    requires Valid(s) && Valid(other)
    ensures start == 0 && stop == s.length ==>
      r.Ok? && Valid(r.value) && Contents(r.value) == Contents(other) && Capacity(r.value) == other.length
    ensures !(start == 0 && stop == s.length) ==>
      (r.Err? <==> start < stop && !(step >= 1 && 0 <= start && stop <= start + |other.values| * step))
    ensures r.Err? ==> r.error == ArrayIndexOutOfBounds
    ensures r.Ok? && !(start == 0 && stop == s.length) ==>
      Valid(r.value) && r.value.length == Max(s.length, stop)
    ensures r.Ok? && !(start == 0 && stop == s.length) && stop <= start ==>
      r.value.values == EnsureCapacity(s, stop).values
    ensures r.Ok? && !(start == 0 && stop == s.length) && step >= 1 ==>
      SliceAssigned(EnsureCapacity(s, stop).values, other.values, start, stop, step, r.value.values)
  {
    if start == 0 && stop == s.length {
      r := Ok(MinimizeCapacity(Storage(other.values[..other.length], other.length)));
      return;
    }
    var g := EnsureCapacity(s, stop);
    if stop <= start {
      r := Ok(Storage(g.values, Max(s.length, stop)));
      if step >= 1 {
        assert forall k :: !Assigned(start, stop, step, k);
      }
      return;
    }
    if !(step >= 1 && 0 <= start && stop <= start + |other.values| * step) {
      return Err(ArrayIndexOutOfBounds);
    }
    var rv := AssignStrided(g.values, start, stop, step, other.values);
    r := Ok(Storage(rv, Max(s.length, stop)));
  }

  /** A reversed slice reaches this method as start 2, stop -1, step -1:
      assigning [4, 5, 6] to the list [1, 2, 3] that way writes nothing. */
  method ReversedSliceWritesNothing() returns (r: Result<Storage>)
    ensures r.Ok? && Valid(r.value) && Contents(r.value) == [1, 2, 3]
  {
    r := SetIntSliceInBound(FromArray([1, 2, 3]), 2, -1, -1, FromArray([4, 5, 6]));
  }

  /** With step 1 inside the list, slice assignment replaces exactly the
      window [start, stop) and keeps everything around it. */
  lemma SliceAssignStepOne(s: Storage, start: int, stop: int, other: Storage, r: Storage)
    requires Valid(s) && 0 <= start <= stop <= s.length && stop - start <= |other.values|
    requires r.length == Max(s.length, stop) &&
      SliceAssigned(EnsureCapacity(s, stop).values, other.values, start, stop, 1, r.values)
    ensures Valid(r)
    ensures Contents(r) == Contents(s)[..start] + other.values[..stop - start] + Contents(s)[stop..]
  {
    assert EnsureCapacity(s, stop) == s;
    forall k | 0 <= k < s.length
      ensures Contents(r)[k] == (Contents(s)[..start] + other.values[..stop - start] + Contents(s)[stop..])[k]
    {
      if start <= k < stop {
        assert Assigned(start, stop, 1, k);
        assert SourceAt(other.values, start, 1, k) == other.values[k - start];
      }
    }
  }

  // ---------------------------------------------------------------------
  // Sorting

  predicate Sorted(xs: seq<int32>) {
    forall i, j :: 0 <= i < j < |xs| ==> xs[i] <= xs[j]
  }

  function Insert(x: int32, xs: seq<int32>): (r: seq<int32>)
    requires Sorted(xs)
    ensures Sorted(r) && multiset(r) == multiset(xs) + multiset{x}
    ensures |r| == |xs| + 1 && (r[0] == x || (|xs| > 0 && r[0] == xs[0]))
  {
    if |xs| == 0 then [x]
    else if x <= xs[0] then [x] + xs
    else
      assert xs == [xs[0]] + xs[1..];
      var rest := Insert(x, xs[1..]);
      assert xs[0] <= rest[0];
      [xs[0]] + rest
  }

  function SortSeq(xs: seq<int32>): (r: seq<int32>)
    ensures Sorted(r) && multiset(r) == multiset(xs) && |r| == |xs|
  {
    if |xs| == 0 then []
    else
      assert xs == [xs[0]] + xs[1..];
      Insert(xs[0], SortSeq(xs[1..]))
  }

  /** sort: the list part is copied, sorted and adopted; the capacity shrinks to the length. */
  function Sort(s: Storage): (r: Storage)
    requires Valid(s)
    ensures Valid(r) && Capacity(r) == s.length
    ensures Sorted(Contents(r)) && multiset(Contents(r)) == multiset(Contents(s))
  {
    var sorted := SortSeq(s.values[..s.length]);
    assert sorted[..|sorted|] == sorted;
    MinimizeCapacity(Storage(sorted, |sorted|))
  }

  // ---------------------------------------------------------------------
  // Equality

  /** The other storage in a comparison: an int storage, or some other kind with its length. */
  datatype AnyStorage = Ints(storage: Storage) | OtherKind(otherLength: nat)

  function LengthOf(o: AnyStorage): nat {
    if o.Ints? then o.storage.length else o.otherLength
  }

  method Equals(s: Storage, other: AnyStorage) returns (equal: bool)
    requires Valid(s) && (other.Ints? ==> Valid(other.storage))
    ensures equal <==> other.Ints? && Contents(other.storage) == Contents(s)
  {
    if LengthOf(other) != s.length || !other.Ints? {
      return false;
    }
    var o := other.storage.values;
    var i := 0;
    while i < s.length
      invariant 0 <= i <= s.length
      invariant s.values[..i] == o[..i]
    {
      if s.values[i] != o[i] {
        assert Contents(s)[i] != Contents(other.storage)[i];
        return false;
      }
      assert s.values[..i + 1] == s.values[..i] + [s.values[i]];
      assert o[..i + 1] == o[..i] + [o[i]];
      i := i + 1;
    }
    return true;
  }

  /** A copy compares equal to its original. */
  method CopyEquals(s: Storage) returns (equal: bool)
    requires Valid(s)
    ensures equal
  {
    equal := Equals(s, Ints(Copy(s)));
  }
}
