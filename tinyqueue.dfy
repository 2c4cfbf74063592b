// The binary heap bundled into `src/pl.js` (TinyQueue), specialised to the
// one comparator polylabel gives it, compareMax. The heap is a min-heap under
// the comparator, so the root is the cell of greatest potential `max`.
// The backing array is the field `data` (a sequence the methods reassign)
// and `length` is kept beside it as the source keeps it.
module Queue {
  import opened Cells

  datatype Option<T> = None | Some(value: T)

  /** Index of the parent of entry i > 0. */
  function Parent(i: int): int {
    (i - 1) / 2
  }

  /** Heap order below lo: every entry whose parent's index is at least lo
      has a potential no greater than its parent's, that is
      compareMax(parent, child) <= 0. */
  ghost predicate HeapFrom(s: seq<Cell>, lo: int) {
    forall c :: 0 < c < |s| && Parent(c) >= lo ==> s[Parent(c)].max >= s[c].max
  }

  ghost predicate IsHeap(s: seq<Cell>) {
    HeapFrom(s, 0)
  }

  /** The state inside _up: heap order holds except between pos and its
      parent, and pos's parent also dominates pos's children. */
  ghost predicate HeapExceptUp(s: seq<Cell>, pos: int) {
    && (forall c :: 0 < c < |s| && c != pos ==> s[Parent(c)].max >= s[c].max)
    && (forall c :: 0 < c < |s| && Parent(c) == pos && pos > 0 ==> s[Parent(pos)].max >= s[c].max)
  }

  /** The state inside _down started at lo: heap order holds below lo except
      between pos and its children, and (below the start) pos's parent
      also dominates pos's children. */
  ghost predicate HeapExceptDown(s: seq<Cell>, lo: int, pos: int) {
    && (forall c :: 0 < c < |s| && Parent(c) >= lo && Parent(c) != pos ==> s[Parent(c)].max >= s[c].max)
    && (forall c :: 0 < c < |s| && Parent(c) == pos && 0 <= lo < pos ==> s[Parent(pos)].max >= s[c].max)
  }

  /** Every entry of a heap is dominated by its parent, hence by the root. */
  lemma {:induction false} AncestorBound(s: seq<Cell>, k: int)
    requires IsHeap(s)
    requires 0 <= k < |s|
    ensures s[k].max <= s[0].max
    decreases k
  {
    if k > 0 {
      AncestorBound(s, Parent(k));
    }
  }

  lemma HeapRootIsMax(s: seq<Cell>)
    requires IsHeap(s)
    ensures forall k :: 0 <= k < |s| ==> s[k].max <= s[0].max
  {
    forall k | 0 <= k < |s|
      ensures s[k].max <= s[0].max
    {
      AncestorBound(s, k);
    }
  }

  /** What pop leaves: the last entry moved to the root and the array
      shortened by one has the old contents minus the old root. */
  lemma PopContents(s: seq<Cell>)
    requires |s| > 0
    ensures multiset(s[0 := s[|s| - 1]][..|s| - 1]) + multiset{s[0]} == multiset(s)
  {
    var n := |s|;
    if n > 1 {
      var mid := s[1..n - 1];
      var t := s[0 := s[n - 1]][..n - 1];
      assert s == [s[0]] + mid + [s[n - 1]];
      assert multiset(s) == multiset{s[0]} + multiset(mid) + multiset{s[n - 1]};
      assert t == [s[n - 1]] + mid;
      assert multiset(t) == multiset{s[n - 1]} + multiset(mid);
    }
  }

  class TinyQueue {
    var data: seq<Cell>
    var length: int

    ghost predicate Valid()
      reads this
    {
      length == |data| && IsHeap(data)
    }

    /** new TinyQueue(items, compareMax): heapify by sifting down every entry
        from index floor(length / 2) to 0. The source's `data || []` makes a
        missing array the empty one, on which the loop changes nothing. */
    constructor (items: seq<Cell>)
      ensures Valid()
      ensures multiset(data) == multiset(items)
    {
      data := items;
      length := |items|;
      new;
      var i := length / 2;
      while i >= 0
        invariant -1 <= i <= length / 2
        invariant length == |data|
        invariant multiset(data) == multiset(items)
        invariant HeapFrom(data, i + 1)
      {
        Down(i);
        i := i - 1;
      }
    }

    /** push: append, count it, and sift it up. */
    method Push(item: Cell)
      modifies this
      requires Valid()
      ensures Valid()
      ensures multiset(data) == multiset(old(data)) + multiset{item}
      ensures forall c :: c in data <==> c in old(data) || c == item
      ensures length == old(length) + 1
    {
      assert HeapExceptUp(data + [item], |data|) by {
        var s := data + [item];
        forall c | 0 < c < |s| && c != |data|
          ensures s[Parent(c)].max >= s[c].max
        {
          assert s[Parent(c)] == data[Parent(c)] && s[c] == data[c];
        }
      }
      data := data + [item];
      length := length + 1;
      Up(length - 1);
      assert forall c :: c in data <==> c in multiset(data);
    }

    /** pop: the old root, which has the greatest potential, is returned;
        the last entry takes its place and is sifted down. On an empty queue
        there is nothing to return and nothing changes (see PopAsWritten for
        what the unguarded source does there). */
    method Pop() returns (top: Option<Cell>)
      modifies this
      requires Valid()
      ensures Valid()
      ensures old(|data|) == 0 ==> top == None && data == old(data) && length == old(length)
      ensures old(|data|) > 0 ==> top == Some(old(data[0]))
      ensures old(|data|) > 0 ==> forall k :: 0 <= k < |old(data)| ==> old(data)[k].max <= top.value.max
      ensures old(|data|) > 0 ==> multiset(data) + multiset{top.value} == multiset(old(data))
      ensures old(|data|) > 0 ==> forall c :: c in old(data) <==> c in data || c == top.value
      ensures old(|data|) > 0 ==> length == old(length) - 1
    {
      if length == 0 {
        return None;
      }
      var t := TakeRoot();
      top := Some(t);
    }

    /** The body of pop on a non-empty queue. */
    method TakeRoot() returns (top: Cell)
      modifies this
      requires Valid() && length > 0
      ensures Valid()
      ensures top == old(data[0])
      ensures forall k :: 0 <= k < |old(data)| ==> old(data)[k].max <= top.max
      ensures multiset(data) + multiset{top} == multiset(old(data))
      ensures forall c :: c in old(data) <==> c in data || c == top
      ensures length == old(length) - 1
    {
      HeapRootIsMax(data);
      PopContents(data);
      ghost var s := data;
      top := data[0];
      data := data[0 := data[length - 1]];
      length := length - 1;
      data := data[..length];
      assert HeapExceptDown(data, 0, 0) by {
        forall c | 0 < c < |data| && Parent(c) >= 0 && Parent(c) != 0
          ensures data[Parent(c)].max >= data[c].max
        {
          assert data[Parent(c)] == s[Parent(c)] && data[c] == s[c];
        }
      }
      Down(0);
      assert forall c :: c in data <==> c in multiset(data);
    }

    /** pop exactly as written, without a guard for the empty queue: there
        data[0] = data[length - 1] reads index -1, which is undefined, and
        stores it at index 0; length becomes -1, and data.pop() removes that
        undefined entry again. The queue is left with no entries but a
        length of -1, so it no longer satisfies Valid(). */
    method PopAsWritten() returns (top: Option<Cell>)
      modifies this
      requires Valid()
      ensures old(|data|) == 0 ==> top == None && data == [] && length == -1 && !Valid()
      ensures old(|data|) > 0 ==> Valid() && top == Some(old(data[0]))
      ensures old(|data|) > 0 ==> multiset(data) + multiset{top.value} == multiset(old(data))
      ensures old(|data|) > 0 ==> length == old(length) - 1
    {
      if length == 0 {
        length := length - 1;
        data := [];
        return None;
      }
      top := Pop();
    }

    /** peek: the root, that is the entry of greatest potential, if any. */
    function Peek(): (r: Option<Cell>)
      reads this
      requires Valid()
      ensures |data| == 0 ==> r == None
      ensures |data| > 0 ==> r == Some(data[0])
      ensures |data| > 0 ==> forall k :: 0 <= k < |data| ==> data[k].max <= r.value.max
    {
      if |data| > 0 then HeapRootIsMax(data); Some(data[0]) else None
    }

    /** _up: move the entry at pos0 towards the root while it has a greater
        potential than its parent. */
    method Up(pos0: int)
      modifies this
      requires 0 <= pos0 < |data| && length == |data|
      requires HeapExceptUp(data, pos0)
      ensures length == old(length) && |data| == |old(data)|
      ensures multiset(data) == multiset(old(data))
      ensures IsHeap(data)
    {
      var pos := pos0;
      while pos > 0
        invariant 0 <= pos < |data|
        invariant length == |data| == |old(data)|
        invariant multiset(data) == multiset(old(data))
        invariant HeapExceptUp(data, pos)
      {
        var parent := (pos - 1) / 2;
        if CompareMax(data[pos], data[parent]) < 0.0 {
          UpStep(pos);
          pos := parent;
        } else {
          break;
        }
      }
    }

    /** One step of _up: swap pos with its parent, which has the smaller
        potential. */
    method UpStep(pos: int)
      modifies this
      requires 0 < pos < |data| && length == |data|
      requires HeapExceptUp(data, pos)
      requires data[Parent(pos)].max < data[pos].max
      ensures length == old(length) && |data| == |old(data)|
      ensures multiset(data) == multiset(old(data))
      ensures HeapExceptUp(data, Parent(pos))
    {
      ghost var s := data;
      var parent := Parent(pos);
      Swap(parent, pos);
      forall c | 0 < c < |data| && c != parent
        ensures data[Parent(c)].max >= data[c].max
      {
        if c == pos {
        } else if Parent(c) == parent {
          assert data[c] == s[c];
        } else if Parent(c) == pos {
          assert data[c] == s[c];
        } else {
          assert data[c] == s[c] && data[Parent(c)] == s[Parent(c)];
        }
      }
      forall c | 0 < c < |data| && Parent(c) == parent && parent > 0
        ensures data[Parent(parent)].max >= data[c].max
      {
        assert s[Parent(parent)].max >= s[parent].max;
        if c != pos {
          assert data[c] == s[c];
        }
      }
    }

    /** _down: move the entry at pos0 away from the root while one of its
        children has a greater potential, swapping with the greater child. */
    method Down(pos0: int)
      modifies this
      requires 0 <= pos0 && length == |data|
      requires HeapExceptDown(data, pos0, pos0)
      ensures length == old(length) && |data| == |old(data)|
      ensures multiset(data) == multiset(old(data))
      ensures HeapFrom(data, pos0)
    {
      var len := length;
      var pos := pos0;
      while true
        invariant pos0 <= pos
        invariant length == len == |data| == |old(data)|
        invariant multiset(data) == multiset(old(data))
        invariant HeapExceptDown(data, pos0, pos)
        decreases len - pos
      {
        var left := 2 * pos + 1;
        var right := left + 1;
        var min := pos;
        if left < len && CompareMax(data[left], data[min]) < 0.0 {
          min := left;
        }
        if right < len && CompareMax(data[right], data[min]) < 0.0 {
          min := right;
        }
        if min == pos {
          assert HeapFrom(data, pos0) by {
            forall c | 0 < c < |data| && Parent(c) >= pos0
              ensures data[Parent(c)].max >= data[c].max
            {
              if Parent(c) == pos {
                assert c == left || c == right;
              }
            }
          }
          return;
        }
        DownStep(pos0, pos, min);
        pos := min;
      }
    }

    /** One step of _down: swap pos with its child m, which has the greatest
        potential of pos and its children. */
    method DownStep(ghost lo: int, pos: int, m: int)
      modifies this
      requires 0 <= lo <= pos && length == |data|
      requires 0 <= m < |data| && Parent(m) == pos && m > 0
      requires HeapExceptDown(data, lo, pos)
      requires data[m].max > data[pos].max
      requires forall c :: 0 < c < |data| && Parent(c) == pos ==> data[c].max <= data[m].max
      ensures length == old(length) && |data| == |old(data)|
      ensures multiset(data) == multiset(old(data))
      ensures HeapExceptDown(data, lo, m)
    {
      ghost var s := data;
      Swap(m, pos);
      forall c | 0 < c < |data| && Parent(c) >= lo && Parent(c) != m
        ensures data[Parent(c)].max >= data[c].max
      {
        if c == m {
        } else if Parent(c) == pos {
          assert data[c] == s[c];
        } else if c == pos {
          assert s[Parent(pos)].max >= s[m].max;
          assert data[Parent(c)] == s[Parent(c)];
        } else {
          assert data[c] == s[c] && data[Parent(c)] == s[Parent(c)];
        }
      }
      forall c | 0 < c < |data| && Parent(c) == m && 0 <= lo < m
        ensures data[Parent(m)].max >= data[c].max
      {
        assert data[c] == s[c];
        assert s[Parent(c)].max >= s[c].max;
      }
    }

    /** swap(data, i, j): exchange two entries, leaving the others alone. */
    method Swap(i: int, j: int)
      modifies this
      requires 0 <= i < |data| && 0 <= j < |data|
      ensures data == old(data)[i := old(data)[j]][j := old(data)[i]]
      ensures length == old(length)
      ensures multiset(data) == multiset(old(data))
      ensures forall k :: 0 <= k < |data| && k != i && k != j ==> data[k] == old(data)[k]
    {
      var tmp := data[i];
      data := data[i := data[j]];
      data := data[j := tmp];
    }
  }
}
