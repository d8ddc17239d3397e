/** Searching and editing inside one node page. */
module IndexNodes {
  import opened Common
  import opened Seqs
  import opened KeyOrder

  /** IndexNodeHandle::lower_bound (upper == false) and upper_bound (upper == true): the binary search and the
      linear scan find the same slot, the cut of the node's keys. */
  method NodeBound(ord: KeyOrd, keys: seq<Key>, target: Key, upper: bool, binarySearch: bool) returns (slot: nat)
    requires Lawful(ord) && ord.valid(target) && Sorted(ord, keys)
    ensures slot == CutIndex(ord, upper, target, keys) && slot <= |keys|
  {
    ghost var c := CutIndex(ord, upper, target, keys);
    CutIndexIsCut(ord, upper, target, keys);
    if binarySearch {
      var lo: nat, hi: nat := 0, |keys|;
      while lo < hi
        invariant lo <= c <= hi <= |keys|
      {
        var mid := (lo + hi) / 2;
        if !Before(ord, upper, target, keys[mid]) {
          hi := mid;
        } else {
          lo := mid + 1;
        }
      }
      return lo;
    } else {
      slot := 0;
      while slot < |keys|
        invariant slot <= c
      {
        if !Before(ord, upper, target, keys[slot]) {
          break;
        }
        slot := slot + 1;
      }
    }
  }

  /** The key and record id arrays of a page buffer, with room for one entry more than the order. */
  class NodeArrays {
    var keys: array<Key>
    var rids: array<RecordID>
    var numKey: nat
    var numChild: nat

    ghost predicate Valid()
      reads this
    {
      numKey <= keys.Length && numChild <= rids.Length
    }

    ghost function Keys(): seq<Key>
      reads this, keys
      requires Valid()
    {
      keys[..numKey]
    }

    ghost function Rids(): seq<RecordID>
      reads this, rids
      requires Valid()
    {
      rids[..numChild]
    }

    constructor (order: nat)
      ensures Valid() && Keys() == [] && Rids() == []
      ensures keys.Length == rids.Length == order + 1 && fresh(keys) && fresh(rids)
    {
      keys := new Key[order + 1](_ => []);
      rids := new RecordID[order + 1](_ => RecordID(-1, -1));
      numKey, numChild := 0, 0;
    }

    method InsertKeys(pos: nat, ks: seq<Key>)
      requires Valid() && pos <= numKey && numKey + |ks| <= keys.Length
      modifies keys, this`numKey
      ensures Valid() && Keys() == InsertAt(old(Keys()), pos, ks)
    {
      InsertInto(keys, numKey, pos, ks);
      numKey := numKey + |ks|;
    }

    method EraseKey(pos: nat)
      requires Valid() && pos < numKey
      modifies keys, this`numKey
      ensures Valid() && Keys() == RemoveAt(old(Keys()), pos)
    {
      ShiftLeft(keys, pos, numKey);
      numKey := numKey - 1;
    }

    method InsertRecordIds(pos: nat, rs: seq<RecordID>)
      requires Valid() && pos <= numChild && numChild + |rs| <= rids.Length
      modifies rids, this`numChild
      ensures Valid() && Rids() == InsertAt(old(Rids()), pos, rs)
    {
      InsertInto(rids, numChild, pos, rs);
      numChild := numChild + |rs|;
    }

    method EraseRecordId(pos: nat)
      requires Valid() && pos < numChild
      modifies rids, this`numChild
      ensures Valid() && Rids() == RemoveAt(old(Rids()), pos)
    {
      ShiftLeft(rids, pos, numChild);
      numChild := numChild - 1;
    }
  }

  method InsertInto<T>(a: array<T>, len: nat, pos: nat, xs: seq<T>)
    requires pos <= len && len + |xs| <= a.Length
    modifies a
    ensures a[..len + |xs|] == InsertAt(old(a[..len]), pos, xs)
  {
    ghost var was := a[..len];
    ShiftRight(a, pos, len, |xs|);
    assert forall k :: pos <= k < len ==> a[k + |xs|] == was[k];
    CopyIn(a, pos, xs);
    ghost var now := a[..len + |xs|];
    assert now[..pos] == was[..pos];
    assert now[pos..pos + |xs|] == xs;
    assert now[pos + |xs|..] == was[pos..] by {
      var back := now[pos + |xs|..];
      forall k | 0 <= k < len - pos ensures back[k] == was[pos..][k] {
        assert a[(pos + k) + |xs|] == was[pos + k];
      }
    }
    assert now == now[..pos] + now[pos..pos + |xs|] + now[pos + |xs|..];
  }

  /** memmove of a[from..to] up by n places; the copy runs downwards because the ranges overlap. */
  method ShiftRight<T>(a: array<T>, from: nat, to: nat, n: nat)
    requires from <= to && to + n <= a.Length
    modifies a
    ensures forall k :: 0 <= k < from ==> a[k] == old(a[k])
    ensures forall k :: from <= k < to ==> a[k + n] == old(a[k])
  {
    var i := to;
    while i > from
      invariant from <= i <= to
      invariant forall k :: 0 <= k < i ==> a[k] == old(a[k])
      invariant forall k :: i <= k < to ==> a[k + n] == old(a[k])
    {
      i := i - 1;
      a[i + n] := a[i];
    }
  }

  /** memmove of a[pos + 1..to] down by one place. */
  method ShiftLeft<T>(a: array<T>, pos: nat, to: nat)
    requires pos < to <= a.Length
    modifies a
    ensures forall k :: 0 <= k < pos ==> a[k] == old(a[k])
    ensures forall k :: pos <= k < to - 1 ==> a[k] == old(a[k + 1])
  {
    var i := pos;
    while i < to - 1
      invariant pos <= i <= to - 1
      invariant forall k :: 0 <= k < pos ==> a[k] == old(a[k])
      invariant forall k :: pos <= k < i ==> a[k] == old(a[k + 1])
      invariant forall k :: i <= k < to ==> a[k] == old(a[k])
    {
      a[i] := a[i + 1];
      i := i + 1;
    }
  }

  method CopyIn<T>(a: array<T>, pos: nat, xs: seq<T>)
    requires pos + |xs| <= a.Length
    modifies a
    ensures forall k :: 0 <= k < a.Length && !(pos <= k < pos + |xs|) ==> a[k] == old(a[k])
    ensures forall k :: 0 <= k < |xs| ==> a[pos + k] == xs[k]
  {
    var i := 0;
    while i < |xs|
      invariant i <= |xs|
      invariant forall k :: 0 <= k < a.Length && !(pos <= k < pos + i) ==> a[k] == old(a[k])
      invariant forall k :: 0 <= k < i ==> a[pos + k] == xs[k]
    {
      a[pos + i] := xs[i];
      i := i + 1;
    }
  }
}
