/** The sorted-array map of test_sparse_array.c: indices in increasing order, the
    objects beside them, binary search, and growth by reallocation. */
module SparseArray {

  predicate Increasing(s: seq<int>) { forall i, j | 0 <= i < j < |s| :: s[i] < s[j] }

  /** The complement ~x of a two's complement integer. */
  function Not(x: int): int { -x - 1 }

  /** Finds data, or the complement of the position where it has to be inserted. */
  method BinarySearch(a: array<int>, data: int, length: nat) returns (r: int)
    requires length <= a.Length && Increasing(a[..length])
    ensures r >= 0 ==> r < length && a[r] == data
    ensures r < 0 ==> var at := Not(r);
      && 0 <= at <= length
      && (forall i | 0 <= i < at :: a[i] < data)
      && (forall i | at <= i < length :: data < a[i])
  {
    var low, high, mid := 0, length, 0;
    if length == 0 {
      return Not(0);
    }
    ghost var s := a[..length];
    while low < high
      invariant 0 <= low <= high <= length && 0 <= mid < length
      invariant forall i | 0 <= i < low :: s[i] < data
      invariant forall i | high <= i < length :: data < s[i]
      invariant low < high || (low == mid + 1 && s[mid] < data) || (high == mid && data < s[mid])
    {
      mid := low + (high - low) / 2;
      if data == a[mid] {
        break;
      }
      if data < a[mid] {
        high := mid;
      } else {
        low := mid + 1;
      }
    }
    if a[mid] == data {
      r := mid;
    } else if data > a[mid] {
      r := Not(mid + 1);
    } else {
      r := Not(mid);
    }
  }

  // ----- the map a pair of arrays stands for

  function Find(keys: seq<int>, k: int): (i: nat)
    requires k in keys
    ensures i < |keys| && keys[i] == k
  {
    if keys[0] == k then 0 else 1 + Find(keys[1..], k)
  }

  function MapOf<T>(keys: seq<int>, objs: seq<T>): (m: map<int, T>)
    requires |keys| == |objs|
    ensures m.Keys == set k | k in keys
  {
    map k | k in keys :: objs[Find(keys, k)]
  }

  lemma MapAt<T>(keys: seq<int>, objs: seq<T>, i: nat)
    requires |keys| == |objs| && Increasing(keys) && i < |keys|
    ensures keys[i] in MapOf(keys, objs) && MapOf(keys, objs)[keys[i]] == objs[i]
  {
    var j := Find(keys, keys[i]);
    assert j == i;
  }

  lemma MapReplaced<T>(keys: seq<int>, objs: seq<T>, i: nat, obj: T)
    requires |keys| == |objs| && Increasing(keys) && i < |keys|
    ensures MapOf(keys, objs[i := obj]) == MapOf(keys, objs)[keys[i] := obj]
  {
    var m, m' := MapOf(keys, objs), MapOf(keys, objs[i := obj]);
    forall k | k in keys
      ensures m'[k] == m[keys[i] := obj][k]
    {
      var j := Find(keys, k);
      MapAt(keys, objs, j);
      MapAt(keys, objs[i := obj], j);
    }
    assert keys[i] in keys;
  }

  function Inserted<T>(s: seq<T>, at: nat, x: T): (r: seq<T>)
    requires at <= |s|
    ensures |r| == |s| + 1
  {
    s[..at] + [x] + s[at..]
  }

  lemma MapInserted<T>(keys: seq<int>, objs: seq<T>, at: nat, k: int, obj: T)
    requires |keys| == |objs| && Increasing(keys) && at <= |keys|
    requires (forall i | 0 <= i < at :: keys[i] < k) && (forall i | at <= i < |keys| :: k < keys[i])
    ensures Increasing(Inserted(keys, at, k))
    ensures MapOf(Inserted(keys, at, k), Inserted(objs, at, obj)) == MapOf(keys, objs)[k := obj]
  {
    var keys', objs' := Inserted(keys, at, k), Inserted(objs, at, obj);
    var m, m' := MapOf(keys, objs), MapOf(keys', objs');
    InsertedIncreases(keys, at, k);
    MapAt(keys', objs', at);
    forall x | x in keys
      ensures x in keys' && m'[x] == m[x]
    {
      InsertedKeeps(keys, objs, at, k, obj, x);
    }
    InsertedMembers(keys, at, k);
    hide MapOf, Inserted;
    assert m'.Keys == m[k := obj].Keys;
  }

  lemma InsertedIncreases(keys: seq<int>, at: nat, k: int)
    requires Increasing(keys) && at <= |keys|
    requires (forall i | 0 <= i < at :: keys[i] < k) && (forall i | at <= i < |keys| :: k < keys[i])
    ensures Increasing(Inserted(keys, at, k))
  {
  }

  lemma InsertedMembers(keys: seq<int>, at: nat, k: int)
    requires at <= |keys|
    ensures forall x :: x in Inserted(keys, at, k) <==> x in keys || x == k
  {
    assert keys == keys[..at] + keys[at..];
  }

  lemma InsertedKeeps<T>(keys: seq<int>, objs: seq<T>, at: nat, k: int, obj: T, x: int)
    requires |keys| == |objs| && Increasing(keys) && at <= |keys| && x in keys
    requires Increasing(Inserted(keys, at, k))
    ensures x in Inserted(keys, at, k)
    ensures MapOf(Inserted(keys, at, k), Inserted(objs, at, obj))[x] == MapOf(keys, objs)[x]
  {
    var i := Find(keys, x);
    MapAt(keys, objs, i);
    MapAt(Inserted(keys, at, k), Inserted(objs, at, obj), if i < at then i else i + 1);
  }

  // ----- the structure

  const INIT_LEN := 64

  /** memmove of the last count cells by one towards the end: the x that is then
      stored in the gap has been inserted. */
  method ShiftUp<T>(a: array<T>, from: nat, count: nat, ghost x: T)
    requires from + count < a.Length
    modifies a
    ensures a[..from + count + 1][from := x] == Inserted(old(a[..from + count]), from, x)
  {
    var i := count;
    while i > 0
      invariant 0 <= i <= count
      invariant forall j | 0 <= j <= from + i :: a[j] == old(a[j])
      invariant forall j | from + i < j <= from + count :: a[j] == old(a[j - 1])
    {
      i := i - 1;
      a[from + i + 1] := a[from + i];
    }
  }

  /** realloc to twice the size, when it succeeds. */
  method Doubled<T(0)>(a: array<T>, size: nat) returns (b: array<T>)
    requires size <= a.Length
    ensures fresh(b) && b.Length == 2 * size && (size <= 2 * size && b[..size] == a[..size])
  {
    b := new T[2 * size];
    forall i | 0 <= i < size {
      b[i] := a[i];
    }
  }

  class SparseArray<T(0)> {
    var objs: array<T>
    var size: nat
    var indices: array<int>
    var nrObjs: nat

    /** The second realloc of a growth may fail after the first has succeeded, so
        the indices may have more room than size says. */
    ghost predicate Valid()
      reads this, indices, objs
    {
      && 0 < size && nrObjs <= size <= indices.Length && size <= objs.Length
      && indices as object != objs as object
      && Increasing(indices[..nrObjs])
    }

    ghost function Contents(): map<int, T>
      reads this, indices, objs
      requires Valid()
    {
      MapOf(indices[..nrObjs], objs[..nrObjs])
    }

    constructor ()
      ensures Valid() && Contents() == map[] && fresh(indices) && fresh(objs)
      ensures size == 64 && nrObjs == 0
    {
      objs := new T[INIT_LEN];
      indices := new int[INIT_LEN];
      size := INIT_LEN;
      nrObjs := 0;
    }

    /** The two reallocs of a full array; the map is the same whether they succeed or not. */
    method Grow(okIndices: bool, okObjs: bool) returns (ok: bool)
      requires Valid() && nrObjs == size
      modifies this
      ensures Valid() && (indices == old(indices) || fresh(indices)) && (objs == old(objs) || fresh(objs))
      ensures indices[..nrObjs] == old(indices[..nrObjs]) && objs[..nrObjs] == old(objs[..nrObjs])
      ensures nrObjs == old(nrObjs) && ok == (okIndices && okObjs)
      ensures size == if ok then 2 * old(size) else old(size)
    {
      if !okIndices {
        return false;
      }
      indices := Doubled(indices, size);
      if !okObjs {
        return false;
      }
      objs := Doubled(objs, size);
      size := size * 2;
      ok := true;
    }

    method InsertAt(at: nat, index: int, obj: T)
      requires Valid() && at <= nrObjs < size
      requires Increasing(Inserted(indices[..nrObjs], at, index))
      modifies this`nrObjs, indices, objs
      ensures Valid() && nrObjs == old(nrObjs) + 1
      ensures indices[..nrObjs] == Inserted(old(indices[..nrObjs]), at, index)
      ensures objs[..nrObjs] == Inserted(old(objs[..nrObjs]), at, obj)
    {
      hide Inserted, Increasing;
      ShiftUp(indices, at, nrObjs - at, index);
      ShiftUp(objs, at, nrObjs - at, obj);
      ghost var keys, vals := indices[..nrObjs + 1], objs[..nrObjs + 1];
      indices[at] := index;
      objs[at] := obj;
      assert indices[..nrObjs + 1] == keys[at := index] && objs[..nrObjs + 1] == vals[at := obj];
      nrObjs := nrObjs + 1;
    }

    method ReplaceAt(at: nat, obj: T)
      requires Valid() && at < nrObjs
      modifies objs
      ensures Valid() && indices[..nrObjs] == old(indices[..nrObjs])
      ensures objs[..nrObjs] == old(objs[..nrObjs])[at := obj]
    {
      hide Increasing;
      objs[at] := obj;
      assert indices[..nrObjs] == old(indices[..nrObjs]);
    }

    /** okIndices and okObjs say whether the reallocs of a growth succeed. The map
        gets the pair, or a negative errno says that it is what it was. */
    method Set(index: int, obj: T, okIndices: bool, okObjs: bool, errno: int) returns (rc: int)
      requires Valid() && errno > 0
      modifies this, indices, objs
      ensures Valid() && (indices == old(indices) || fresh(indices)) && (objs == old(objs) || fresh(objs))
      ensures rc == 0 || rc == -errno
      ensures rc == 0 <==> index in old(Contents()) || old(nrObjs) < old(size) || (okIndices && okObjs)
      ensures Contents() == if rc == 0 then old(Contents())[index := obj] else old(Contents())
      ensures nrObjs == if rc == 0 && index !in old(Contents()) then old(nrObjs) + 1 else old(nrObjs)
      ensures size == if nrObjs > old(size) then 2 * old(size) else old(size)
    {
      var ret := BinarySearch(indices, index, nrObjs);
      ghost var keys, vals := indices[..nrObjs], objs[..nrObjs];
      if ret < 0 {
        ret := Not(ret);
        assert forall i | 0 <= i < |keys| :: keys[i] == indices[i];
        MapInserted(keys, vals, ret, index, obj);
        hide MapOf, Inserted, Increasing;
        if nrObjs == size {
          var ok := Grow(okIndices, okObjs);
          if !ok {
            return -errno;
          }
        }
        if ret < size {
          InsertAt(ret, index, obj);
        } else {
          assert false;
        }
      } else {
        hide MapOf, Increasing;
        MapAt(keys, vals, ret);
        MapReplaced(keys, vals, ret, obj);
        ReplaceAt(ret, obj);
      }
      rc := 0;
    }

    /** The object of an index, or -1 and the caller's variable as it was. */
    method Get(index: int, before: T) returns (rc: int, obj: T)
      requires Valid()
      ensures rc == (if index in Contents() then 0 else -1)
      ensures obj == (if index in Contents() then Contents()[index] else before)
    {
      var ret := BinarySearch(indices, index, nrObjs);
      if ret >= 0 {
        MapAt(indices[..nrObjs], objs[..nrObjs], ret);
        return 0, objs[ret];
      }
      assert forall i | 0 <= i < nrObjs :: indices[i] == indices[..nrObjs][i];
      return -1, before;
    }
  }

  // ----- runs of sets

  /** One call of sparse_array_set and whether the reallocs it may need succeed. */
  datatype Call<T> = Call(index: int, obj: T, okIndices: bool, okObjs: bool)

  /** The map after some calls, of which those with rc 0 took effect. */
  function After<T>(m: map<int, T>, calls: seq<Call<T>>, rcs: seq<int>): map<int, T>
    requires |calls| == |rcs|
  {
    if calls == [] then m
    else
      var n := |calls| - 1;
      var before := After(m, calls[..n], rcs[..n]);
      if rcs[n] == 0 then before[calls[n].index := calls[n].obj] else before
  }

  /** get finds the object of the last set of that index that took effect. */
  lemma {:induction false} LastSetWins<T>(m: map<int, T>, calls: seq<Call<T>>, rcs: seq<int>, last: nat)
    requires |calls| == |rcs| && last < |calls| && rcs[last] == 0
    requires forall j | last < j < |calls| :: rcs[j] != 0 || calls[j].index != calls[last].index
    ensures calls[last].index in After(m, calls, rcs)
    ensures After(m, calls, rcs)[calls[last].index] == calls[last].obj
  {
    var n := |calls| - 1;
    if last < n {
      LastSetWins(m, calls[..n], rcs[..n], last);
    }
  }

  lemma {:induction false} NeverSetKeeps<T>(m: map<int, T>, calls: seq<Call<T>>, rcs: seq<int>, k: int)
    requires |calls| == |rcs| && forall j | 0 <= j < |calls| :: rcs[j] != 0 || calls[j].index != k
    ensures k in After(m, calls, rcs) <==> k in m
    ensures k in m ==> After(m, calls, rcs)[k] == m[k]
  {
    if calls != [] {
      var n := |calls| - 1;
      NeverSetKeeps(m, calls[..n], rcs[..n], k);
    }
  }

  /** Any run of sets from an empty array, with any failures of realloc. */
  method RunSets<T(0)>(calls: seq<Call<T>>, errno: int) returns (sa: SparseArray<T>, rcs: seq<int>)
    requires errno > 0
    ensures fresh(sa) && sa.Valid() && |rcs| == |calls|
    ensures sa.Contents() == After(map[], calls, rcs)
  {
    sa := new SparseArray<T>();
    rcs := [];
    var i := 0;
    while i < |calls|
      invariant 0 <= i <= |calls| && |rcs| == i
      invariant fresh(sa) && fresh(sa.indices) && fresh(sa.objs) && sa.Valid()
      invariant sa.Contents() == After(map[], calls[..i], rcs)
    {
      var c := calls[i];
      var rc := sa.Set(c.index, c.obj, c.okIndices, c.okObjs, errno);
      assert calls[..i + 1][..i] == calls[..i] && (rcs + [rc])[..i] == rcs;
      rcs := rcs + [rc];
      i := i + 1;
    }
    assert calls[..i] == calls;
  }
}
