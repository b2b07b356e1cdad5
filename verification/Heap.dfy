/** A binary heap whose values can be found, and changed, by a key handed out on insertion. */
module Heaps {

  // ------------------------------------------------------------ the order

  /** What the source asks of a comparison: a strict weak order. */
  ghost predicate IsStrictWeakOrder<T(!new)>(less: (T, T) -> bool) {
    && (forall x :: !less(x, x))
    && (forall x, y, z :: less(x, y) && less(y, z) ==> less(x, z))
    && (forall x, y, z :: !less(x, y) && !less(y, z) ==> !less(x, z))
  }

  function Left(i: nat): nat { 2 * (i + 1) - 1 }

  function Right(i: nat): nat { 2 * (i + 1) }

  /** Division truncates in the source, so the root is its own parent. */
  function Parent(i: nat): nat { if i == 0 then 0 else (i - 1) / 2 }

  lemma ChildrenOf(i: nat, c: nat)
    requires c > 0
    ensures Parent(c) == i <==> c == Left(i) || c == Right(i)
    ensures Parent(c) < c
  {
  }

  /** Value 'j' is not better than the one above it. */
  ghost predicate EdgeOk<T(!new)>(less: (T, T) -> bool, v: seq<T>, j: nat) {
    j < |v| && !less(v[j], v[Parent(j)])
  }

  ghost predicate HeapOrder<T(!new)>(less: (T, T) -> bool, v: seq<T>, n: nat) {
    n <= |v| && forall j :: 0 < j < n ==> EdgeOk(less, v, j)
  }

  /** The values below 'i' are not better than the one above 'i'. */
  ghost predicate GrandOk<T(!new)>(less: (T, T) -> bool, v: seq<T>, n: nat, i: nat) {
    n <= |v| && (i > 0 ==> forall c :: i < c < n && Parent(c) == i ==> !less(v[c], v[Parent(i)]))
  }

  /** Heap order, except that the value at 'i' may have to move up. */
  ghost predicate OkExceptUp<T(!new)>(less: (T, T) -> bool, v: seq<T>, n: nat, i: nat) {
    i < n <= |v| && (forall j :: 0 < j < n && j != i ==> EdgeOk(less, v, j)) && GrandOk(less, v, n, i)
  }

  /** Heap order, except that the value at 'i' may have to move down. */
  ghost predicate OkExceptDown<T(!new)>(less: (T, T) -> bool, v: seq<T>, n: nat, i: nat) {
    n <= |v| && (forall j :: 0 < j < n && Parent(j) != i ==> EdgeOk(less, v, j)) && GrandOk(less, v, n, i)
  }

  function Swapped<T>(s: seq<T>, j: nat, k: nat): seq<T>
    requires j < |s| && k < |s|
  {
    s[j := s[k]][k := s[j]]
  }

  /** The root is a least value. */
  lemma {:induction false} RootIsLeast<T(!new)>(less: (T, T) -> bool, v: seq<T>, n: nat, i: nat)
    requires IsStrictWeakOrder(less) && HeapOrder(less, v, n) && i < n
    ensures !less(v[i], v[0])
    decreases i
  {
    if i > 0 {
      assert EdgeOk(less, v, i);
      RootIsLeast(less, v, n, Parent(i));
    }
  }

  // ------------------------------------------------------------ moving up

  lemma MoveUp<T(!new)>(less: (T, T) -> bool, v: seq<T>, n: nat, i: nat)
    requires IsStrictWeakOrder(less) && OkExceptUp(less, v, n, i) && i > 0 && !less(v[Parent(i)], v[i])
    ensures OkExceptUp(less, Swapped(v, i, Parent(i)), n, Parent(i))
  {
    var p := Parent(i);
    var w := Swapped(v, i, p);
    forall j | 0 < j < n && j != p ensures EdgeOk(less, w, j) {
      if j != i { assert EdgeOk(less, v, j); }
      ChildrenOf(j, i);
    }
    if p > 0 {
      assert EdgeOk(less, v, p);
      forall c | p < c < n && Parent(c) == p ensures !less(w[c], w[Parent(p)]) {
        if c != i { assert EdgeOk(less, v, c); }
      }
    }
  }

  lemma UpFinally<T(!new)>(less: (T, T) -> bool, v: seq<T>, n: nat, i: nat)
    requires IsStrictWeakOrder(less) && OkExceptUp(less, v, n, i) && (i == 0 || less(v[Parent(i)], v[i]))
    ensures HeapOrder(less, v, n)
  {
    forall j | 0 < j < n ensures EdgeOk(less, v, j) { }
  }

  // ------------------------------------------------------------ moving down

  lemma MoveDown<T(!new)>(less: (T, T) -> bool, v: seq<T>, n: nat, i: nat, m: nat)
    requires IsStrictWeakOrder(less) && OkExceptDown(less, v, n, i) && i < n
    requires i < m < n && Parent(m) == i && less(v[m], v[i])
    requires forall c :: i < c < n && Parent(c) == i ==> !less(v[c], v[m])
    ensures OkExceptDown(less, Swapped(v, i, m), n, m)
  {
    var w := Swapped(v, i, m);
    forall j | 0 < j < n && Parent(j) != m ensures EdgeOk(less, w, j) {
      if Parent(j) != i { assert EdgeOk(less, v, j); }
      ChildrenOf(Parent(j), j);
    }
    forall c | m < c < n && Parent(c) == m ensures !less(w[c], w[Parent(m)]) {
      assert EdgeOk(less, v, c);
    }
  }

  lemma DownFinally<T(!new)>(less: (T, T) -> bool, v: seq<T>, n: nat, i: nat)
    requires OkExceptDown(less, v, n, i)
    requires forall c :: i < c < n && Parent(c) == i ==> !less(v[c], v[i])
    ensures HeapOrder(less, v, n)
  {
    forall j | 0 < j < n ensures EdgeOk(less, v, j) {
      if Parent(j) == i { ChildrenOf(i, j); }
    }
  }

  // ------------------------------------------------------------ where the moves start

  lemma AppendedMayMoveUp<T(!new)>(less: (T, T) -> bool, v: seq<T>, w: seq<T>, n: nat)
    requires HeapOrder(less, v, n) && n < |w| && w[..n] == v[..n]
    ensures OkExceptUp(less, w, n + 1, n)
  {
    forall j | 0 < j < n + 1 && j != n ensures EdgeOk(less, w, j) {
      assert EdgeOk(less, v, j);
      assert w[j] == w[..n][j] == v[..n][j];
      assert w[Parent(j)] == w[..n][Parent(j)] == v[..n][Parent(j)];
    }
  }

  lemma UpdateMayMoveUp<T(!new)>(less: (T, T) -> bool, v: seq<T>, n: nat, i: nat, x: T)
    requires IsStrictWeakOrder(less) && HeapOrder(less, v, n) && i < n && less(x, v[Parent(i)])
    ensures OkExceptUp(less, v[i := x], n, i)
  {
    var w := v[i := x];
    forall j | 0 < j < n && j != i ensures EdgeOk(less, w, j) {
      assert EdgeOk(less, v, j);
      if i > 0 { assert EdgeOk(less, v, i); }
    }
    if i > 0 {
      assert EdgeOk(less, v, i);
      forall c | i < c < n && Parent(c) == i ensures !less(w[c], w[Parent(i)]) { assert EdgeOk(less, v, c); }
    }
  }

  lemma UpdateMayMoveDown<T(!new)>(less: (T, T) -> bool, v: seq<T>, n: nat, i: nat, x: T)
    requires IsStrictWeakOrder(less) && HeapOrder(less, v, n) && i < n && !less(x, v[Parent(i)])
    ensures OkExceptDown(less, v[i := x], n, i)
  {
    var w := v[i := x];
    forall j | 0 < j < n && Parent(j) != i ensures EdgeOk(less, w, j) {
      assert EdgeOk(less, v, j);
    }
    if i > 0 {
      assert EdgeOk(less, v, i);
      forall c | i < c < n && Parent(c) == i ensures !less(w[c], w[Parent(i)]) { assert EdgeOk(less, v, c); }
    }
  }

  lemma LastMayMoveDown<T(!new)>(less: (T, T) -> bool, v: seq<T>, n: nat)
    requires HeapOrder(less, v, n) && n > 0
    ensures OkExceptDown(less, Swapped(v, 0, n - 1), n - 1, 0)
  {
    var w := Swapped(v, 0, n - 1);
    forall j | 0 < j < n - 1 && Parent(j) != 0 ensures EdgeOk(less, w, j) {
      assert EdgeOk(less, v, j);
    }
  }

  // ------------------------------------------------------------ keys

  /** 'pos' and 'key' are permutations of one range, and undo each other. */
  ghost predicate Inverse(pos: seq<nat>, key: seq<nat>) {
    && |pos| == |key|
    && (forall i :: 0 <= i < |key| ==> key[i] < |pos| && pos[key[i]] == i)
    && (forall k :: 0 <= k < |pos| ==> pos[k] < |key| && key[pos[k]] == k)
  }

  /** The value of every key whose place is among the first 'n'. */
  ghost function LiveIn<T>(pos: seq<nat>, v: seq<T>, n: nat): map<nat, T>
    requires n <= |v|
  {
    map k: nat | k < |pos| && pos[k] < n :: v[pos[k]]
  }

  lemma SwapKeepsKeys<T>(pos: seq<nat>, key: seq<nat>, v: seq<T>, n: nat, j: nat, k: nat)
    requires Inverse(pos, key) && |v| == |key| && j < n <= |v| && k < n
    ensures var pos' := pos[key[k] := j][key[j] := k];
            Inverse(pos', Swapped(key, j, k)) && LiveIn(pos', Swapped(v, j, k), n) == LiveIn(pos, v, n)
  {
  }

  // ------------------------------------------------------------ the heap

  class Heap<T(!new)> {
    const comp: (T, T) -> bool
    var pos: seq<nat>
    var key: seq<nat>
    var values: seq<T>
    var size: nat

    constructor (comp: (T, T) -> bool)
      requires IsStrictWeakOrder(comp)
      ensures Valid() && Live() == map[] && this.comp == comp
    {
      this.comp, pos, key, values, size := comp, [], [], [], 0;
    }

    /** Everything but the heap order. */
    ghost predicate KeysOk()
      reads this
    {
      && IsStrictWeakOrder(comp)
      && Inverse(pos, key) && |values| == |key| && size <= |values|
    }

    ghost predicate Valid()
      reads this
    {
      KeysOk() && HeapOrder(comp, values, size)
    }

    /** What the heap holds: the last value of every key that has not been popped. */
    ghost function Live(): map<nat, T>
      requires size <= |values|
      reads this
    {
      LiveIn(pos, values, size)
    }

    method Swap(j: nat, k: nat)
      requires KeysOk() && j < size && k < size
      modifies `pos, `key, `values
      ensures KeysOk() && Live() == old(Live())
      ensures values == Swapped(old(values), j, k) && key == Swapped(old(key), j, k)
    {
      SwapKeepsKeys(pos, key, values, size, j, k);
      var tkey := key[j];
      key := key[j := key[k]];
      pos := pos[key[j] := j];
      key := key[k := tkey];
      pos := pos[key[k] := k];
      values := values[j := values[k]][k := values[j]];
    }

    /** Moves the value at 'i' down to its place. */
    method Heapify(i: nat)
      requires KeysOk() && (i < size || size == 0) && OkExceptDown(comp, values, size, i)
      modifies `pos, `key, `values
      ensures Valid() && Live() == old(Live())
      decreases size - i
    {
      if size == 0 { return; }
      hide IsStrictWeakOrder, OkExceptDown, HeapOrder, Inverse, LiveIn;
      var l, r := Left(i), Right(i);
      var largest := if l < size && comp(values[l], values[i]) then l else i;
      if r < size && comp(values[r], values[largest]) { largest := r; }
      LargestIsBest(comp, values, size, i, largest);
      if largest != i {
        MoveDown(comp, values, size, i, largest);
        Swap(i, largest);
        Heapify(largest);
      } else {
        DownFinally(comp, values, size, i);
      }
    }

    /** Moves the value at 'at', which is 'value', up to its place, and returns its key. */
    method InsertAt(value: T, at: nat) returns (k: nat)
      requires KeysOk() && OkExceptUp(comp, values, size, at) && values[at] == value
      modifies `pos, `key, `values
      ensures Valid() && Live() == old(Live())
      ensures k == old(key[at])
    {
      hide IsStrictWeakOrder, OkExceptUp, HeapOrder, Inverse, LiveIn;
      var i: nat := at;
      assert i < size by { AtIsLive(comp, values, size, i); }
      while i > 0 && !comp(values[Parent(i)], value)
        invariant KeysOk() && i < size == old(size) <= |values|
        invariant OkExceptUp(comp, values, size, i) && values[i] == value
        invariant Live() == old(Live()) && key[i] == old(key[at])
      {
        var p := Parent(i);
        ChildrenOf(p, i);
        MoveUp(comp, values, size, i);
        Swap(i, p);
        i := p;
      }
      UpFinally(comp, values, size, i);
      return key[i];
    }

    /** Adds a value, and returns the key by which to find it. */
    method Insert(value: T) returns (k: nat)
      requires Valid()
      modifies this
      ensures Valid()
      ensures k !in old(Live()) && Live() == old(Live())[k := value]
    {
      ghost var v, n := values, size;
      NewPlace(pos, key, values, size, value);
      if size < |values| {
        values := values[size := value];
        pos := pos[key[size] := size];
      } else {
        values := values + [value];
        pos := pos + [size];
        key := key + [size];
      }
      size := size + 1;
      AppendedMayMoveUp(comp, v, values, n);
      k := InsertAt(value, size - 1);
    }

    /** Changes the value of a key. */
    method Update(k: nat, value: T)
      requires Valid() && k in Live()
      modifies this
      ensures Valid() && Live() == old(Live())[k := value]
    {
      var i := pos[k];
      var isBetter := comp(value, values[Parent(i)]);
      ChangeValue(pos, key, values, size, k, value);
      if isBetter {
        UpdateMayMoveUp(comp, values, size, i, value);
      } else {
        UpdateMayMoveDown(comp, values, size, i, value);
      }
      values := values[i := value];
      if isBetter {
        var _ := InsertAt(value, i);
      } else {
        Heapify(i);
      }
    }

    /** Removes and returns a least value. */
    method Pop() returns (top: T, ghost k: nat)
      requires Valid() && size > 0
      modifies this
      ensures Valid()
      ensures k in old(Live()) && top == old(Live())[k] && Live() == old(Live()) - {k}
      ensures forall x :: x in old(Live()) ==> !comp(old(Live())[x], top)
    {
      top := values[0];
      k := key[0];
      TopIsLeast(comp, pos, key, values, size);
      LastMayMoveDown(comp, values, size);
      Swap(0, size - 1);
      DropLast(pos, key, values, size);
      size := size - 1;
      Heapify(0);
    }

    /** A least value. */
    function Top(): T
      requires Valid() && size > 0
      reads this
    {
      values[0]
    }

    /** The value of a key. */
    function Get(k: nat): (r: T)
      requires Valid() && k in Live()
      reads this
      ensures r == Live()[k]
    {
      values[pos[k]]
    }

    function Empty(): (r: bool)
      requires Valid()
      reads this
      ensures r <==> Live() == map[]
    {
      if size > 0 then
        assert key[0] in Live();
        false
      else true
    }

    method Clear()
      requires Valid()
      modifies this`size
      ensures Valid() && Live() == map[]
    {
      size := 0;
    }
  }

  /** The place past the live ones has a key that is not in use, or gets a new one. */
  lemma NewPlace<T>(pos: seq<nat>, key: seq<nat>, v: seq<T>, n: nat, x: T)
    requires Inverse(pos, key) && |v| == |key| && n <= |v|
    ensures n < |v| ==> key[n] !in LiveIn(pos, v, n) && pos[key[n] := n] == pos
    ensures n < |v| ==> LiveIn(pos, v[n := x], n + 1) == LiveIn(pos, v, n)[key[n] := x]
    ensures n == |v| ==> n !in LiveIn(pos, v, n) && Inverse(pos + [n], key + [n])
    ensures n == |v| ==> LiveIn(pos + [n], v + [x], n + 1) == LiveIn(pos, v, n)[n := x]
  {
  }

  lemma ChangeValue<T>(pos: seq<nat>, key: seq<nat>, v: seq<T>, n: nat, k: nat, x: T)
    requires Inverse(pos, key) && |v| == |key| && n <= |v| && k in LiveIn(pos, v, n)
    ensures LiveIn(pos, v[pos[k] := x], n) == LiveIn(pos, v, n)[k := x]
  {
  }

  lemma DropLast<T>(pos: seq<nat>, key: seq<nat>, v: seq<T>, n: nat)
    requires Inverse(pos, key) && |v| == |key| && 0 < n <= |v|
    ensures LiveIn(pos, v, n - 1) == LiveIn(pos, v, n) - {key[n - 1]}
  {
  }

  lemma TopIsLeast<T(!new)>(less: (T, T) -> bool, pos: seq<nat>, key: seq<nat>, v: seq<T>, n: nat)
    requires IsStrictWeakOrder(less) && HeapOrder(less, v, n) && Inverse(pos, key) && |v| == |key| && n > 0
    ensures var live := LiveIn(pos, v, n);
            key[0] in live && live[key[0]] == v[0] && forall x :: x in live ==> !less(live[x], v[0])
  {
    forall x | x in LiveIn(pos, v, n) ensures !less(v[pos[x]], v[0]) { RootIsLeast(less, v, n, pos[x]); }
  }

  lemma AtIsLive<T(!new)>(less: (T, T) -> bool, v: seq<T>, n: nat, i: nat)
    requires OkExceptUp(less, v, n, i)
    ensures i < n <= |v|
  {
  }

  /** The child that is compared last is not worse than the other, nor than the value above. */
  lemma LargestIsBest<T(!new)>(less: (T, T) -> bool, v: seq<T>, n: nat, i: nat, m: nat)
    requires IsStrictWeakOrder(less) && i < n <= |v|
    requires var l, r := Left(i), Right(i);
             var first := if l < n && less(v[l], v[i]) then l else i;
             m == if r < n && less(v[r], v[first]) then r else first
    ensures m < n && forall c :: i < c < n && Parent(c) == i ==> !less(v[c], v[m])
    ensures m != i ==> i < m && Parent(m) == i && less(v[m], v[i])
  {
    OnlyChildren(i, n);
  }

  lemma OnlyChildren(i: nat, n: nat)
    ensures forall c :: i < c < n && Parent(c) == i ==> c == Left(i) || c == Right(i)
  {
    forall c | i < c < n && Parent(c) == i ensures c == Left(i) || c == Right(i) { ChildrenOf(i, c); }
  }
}
