/** The heap steps on plain keys: a[1..] is the tree, a[0] is not used. */
module HeapKeys {

  predicate UnderParent(a: seq<int>, j: int)
    requires 2 <= j < |a|
  {
    a[j / 2] <= a[j]
  }

  predicate UnderGrandparent(a: seq<int>, j: int)
    requires 4 <= j < |a|
  {
    a[j / 2 / 2] <= a[j]
  }

  /** Heap order everywhere except between skip and its parent (up) or its children (down); the
      children of skip still respect the parent of skip. */
  ghost predicate HeapExcept(a: seq<int>, skip: int, up: bool, down: bool) {
    && (forall j | 2 <= j < |a| && !(up && j == skip) && !(down && j / 2 == skip) :: UnderParent(a, j))
    && (forall j | 4 <= j < |a| && j / 2 == skip :: UnderGrandparent(a, j))
  }

  ghost predicate Heap(a: seq<int>) {
    forall j | 2 <= j < |a| :: UnderParent(a, j)
  }

  function Swapped(a: seq<int>, i: int, j: int): seq<int>
    requires 0 <= i < |a| && 0 <= j < |a|
  {
    a[i := a[j]][j := a[i]]
  }

  lemma HeapHasNoGap(a: seq<int>, skip: int, up: bool, down: bool)
    requires Heap(a)
    ensures HeapExcept(a, skip, up, down)
  {
    forall j | 4 <= j < |a| ensures UnderGrandparent(a, j) {
      assert UnderParent(a, j) && UnderParent(a, j / 2);
    }
  }

  lemma LeafAppended(a: seq<int>, b: seq<int>)
    requires Heap(a) && 2 <= |b| == |a| + 1 && b[..|a|] == a
    ensures HeapExcept(b, |a|, true, false)
  {
    forall j | 2 <= j < |b| && j != |a| ensures UnderParent(b, j) {
      assert UnderParent(a, j);
    }
  }

  /** A record that is not after its parent moves up one level. */
  lemma SiftUpStep(a: seq<int>, i: int)
    requires 2 <= i < |a| && HeapExcept(a, i, true, false) && a[i] <= a[i / 2]
    ensures HeapExcept(Swapped(a, i / 2, i), i / 2, true, false)
  {
    var p := i / 2;
    var b := Swapped(a, p, i);
    forall j | 2 <= j < |a| && j != p ensures UnderParent(b, j) {
      if j != i { assert UnderParent(a, j); }
      if j / 2 == i { assert UnderGrandparent(a, j); }
    }
    forall j | 4 <= j < |a| && j / 2 == p ensures UnderGrandparent(b, j) {
      assert UnderParent(a, p);
      if j != i { assert UnderParent(a, j); }
    }
  }

  lemma SiftUpStops(a: seq<int>, i: int)
    requires 1 <= i < |a| && HeapExcept(a, i, true, false) && (i >= 2 ==> a[i / 2] <= a[i])
    ensures Heap(a)
  {
  }

  /** A record moves down one level, changing places with its least child. */
  lemma SiftDownStep(a: seq<int>, i: int, c: int)
    requires 1 <= i && 2 <= c < |a| && c / 2 == i && HeapExcept(a, i, false, true)
    requires a[c] <= a[i] && forall j | 2 <= j < |a| && j / 2 == i :: a[c] <= a[j]
    ensures HeapExcept(Swapped(a, c, i), c, false, true)
  {
    var b := Swapped(a, c, i);
    forall j | 2 <= j < |a| && j / 2 != c ensures UnderParent(b, j) {
      if j / 2 != i { assert UnderParent(a, j); }
      if j == i && 4 <= c { assert UnderGrandparent(a, c); }
    }
    forall j | 4 <= j < |a| && j / 2 == c ensures UnderGrandparent(b, j) {
      assert UnderParent(a, j);
    }
  }

  lemma SiftDownStops(a: seq<int>, i: int)
    requires 1 <= i && HeapExcept(a, i, false, true)
    requires forall j | 2 <= j < |a| && j / 2 == i :: a[i] <= a[j]
    ensures Heap(a)
  {
  }

  /** remove moves its victim up whatever its key: the victim's position is a gap that fits
      everything around it. */
  lemma BubbleStep(a: seq<int>, i: int)
    requires 2 <= i < |a| && HeapExcept(a, i, true, true)
    ensures HeapExcept(Swapped(a, i / 2, i), i / 2, true, true)
  {
    var p := i / 2;
    var b := Swapped(a, p, i);
    forall j | 2 <= j < |a| && j != p && j / 2 != p ensures UnderParent(b, j) {
      if j / 2 == i { assert UnderGrandparent(a, j); } else { assert UnderParent(a, j); }
    }
    forall j | 4 <= j < |a| && j / 2 == p ensures UnderGrandparent(b, j) {
      assert UnderParent(a, p);
      if j != i { assert UnderParent(a, j); }
    }
  }

  /** Whatever is then put at the root, only the root can be out of order. */
  lemma RootReplaced(a: seq<int>, up: bool, k: int, n: nat)
    requires HeapExcept(a, 1, up, true) && 2 <= n <= |a|
    ensures HeapExcept(a[..n][1 := k], 1, false, true)
  {
    var b := a[..n][1 := k];
    forall j | 2 <= j < |b| && j / 2 != 1 ensures UnderParent(b, j) {
      assert UnderParent(a, j);
    }
  }

  lemma {:induction false} RootIsLeast(a: seq<int>, i: int)
    requires Heap(a) && 1 <= i < |a|
    ensures a[1] <= a[i]
    decreases i
  {
    if i >= 2 {
      RootIsLeast(a, i / 2);
      assert UnderParent(a, i);
    }
  }
}
