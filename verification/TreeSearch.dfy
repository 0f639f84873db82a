/** Searching a tree: the slot in a leaf, the descent to it, and why one leaf decides whether a key is present. */
module TreeSearch {
  import opened Types
  import opened TreeModel
  import opened Zipper

  /** The slot `LeafPage::KeyIndex` returns: the number of keys below `key`. */
  function LeafIndex(items: seq<Item>, key: int): (i: nat)
    ensures i <= |items|
  {
    if items == [] then 0
    else if items[|items| - 1].key < key then |items|
    else LeafIndex(items[..|items| - 1], key)
  }

  lemma {:induction false} LeafIndexBounds(items: seq<Item>, key: int)
    requires Sorted(items)
    ensures var i := LeafIndex(items, key);
      && (forall j :: 0 <= j < i ==> items[j].key < key)
      && (forall j :: i <= j < |items| ==> key <= items[j].key)
  {
    if items != [] && key <= items[|items| - 1].key {
      LeafIndexBounds(items[..|items| - 1], key);
    }
  }

  /** An internal page's key array; slot 0 is never read. */
  ghost predicate SortedKeys(keys: seq<int>) {
    forall i, j :: 1 <= i < j < |keys| ==> keys[i] < keys[j]
  }

  ghost predicate HasKey(items: seq<Item>, key: int) {
    exists i :: 0 <= i < |items| && items[i].key == key
  }

  predicate FoundAt(items: seq<Item>, i: nat, key: int) {
    i < |items| && items[i].key == key
  }

  /** What an operation knows once it stands at the leaf. */
  lemma DescendOk(c: Config, t: Tree, key: int, bound: PageId)
    requires TreeOk(c, t, bound) && MIN_KEY <= key <= MAX_KEY
    ensures var d := Descend([], t, key);
      && d.leaf.Leaf? && |d.path| == Height(t) && Plug(d.path, d.leaf) == t
      && PathInv(d.path, 0, d.leaf.id) && Inv(d.leaf, 0, HoleOf(d.path))
      && HoleOf(d.path).lo <= key < HoleOf(d.path).hi
      && PathSized(c, d.path) && FocusSized(c, d.path, d.leaf)
      && Items(t) == Around(d.path, d.leaf.items)
      && FocusDistinct(d.path, d.leaf, bound)
  {
    DescendInv([], t, Height(t), key);
    DescendSized(c, [], t, key);
    var d := Descend([], t, key);
    PlugItems(d.path, d.leaf);
    forall x ensures PathCount(d.path, x) + Count(d.leaf, x) <= if 0 <= x < bound then 1 else 0 {
      PlugCount(d.path, d.leaf, x);
      assert Count(t, x) <= 1;
    }
  }

  lemma FoundInRun(a: seq<Item>, s: seq<Item>, b: seq<Item>, lo: int, hi: int, key: int)
    requires Within(a, MIN_KEY, lo) && Within(b, hi, MAX_KEY + 1) && lo <= key < hi && Sorted(s)
    ensures HasKey(a + s + b, key) <==> FoundAt(s, LeafIndex(s, key), key)
  {
    var all, i := a + s + b, LeafIndex(s, key);
    LeafIndexBounds(s, key);
    if FoundAt(s, i, key) {
      assert all[|a| + i] == s[i];
    }
    assert forall j :: 0 <= j < |a| ==> all[j] == a[j];
    assert forall j :: 0 <= j < |b| ==> all[|a| + |s| + j] == b[j];
    if HasKey(all, key) {
      var j :| 0 <= j < |all| && all[j].key == key;
      assert all[j] == s[j - |a|];
    }
  }

  /** A key is in the tree exactly when it is at its slot in the leaf its search ends at. */
  lemma FoundInLeaf(c: Config, t: Tree, key: int, bound: PageId)
    requires TreeOk(c, t, bound) && MIN_KEY <= key <= MAX_KEY
    ensures var leaf := Descend([], t, key).leaf;
      && leaf.Leaf?
      && var i := LeafIndex(leaf.items, key);
         && (HasKey(Items(t), key) <==> FoundAt(leaf.items, i, key))
         && (FoundAt(leaf.items, i, key) ==> leaf.items[i] in Items(t))
  {
    DescendOk(c, t, key, bound);
    var d := Descend([], t, key);
    OutsideHole(d.path, 0, d.leaf.id);
    var b := HoleOf(d.path);
    AroundIsConcat(d.path, d.leaf.items);
    FoundInRun(Before(d.path), d.leaf.items, After(d.path), b.lo, b.hi, key);
  }

  /** `GetValue`: the value the map holds for the key, or nothing. */
  function Lookup(t: Tree, key: int): Option<Rid> {
    var leaf := Descend([], t, key).leaf;
    if leaf.Leaf? && FoundAt(leaf.items, LeafIndex(leaf.items, key), key)
    then Some(leaf.items[LeafIndex(leaf.items, key)].rid) else None
  }

  /** One root-to-leaf search agrees with the finite map the whole tree stands for. */
  lemma LookupIsMapLookup(c: Config, t: Tree, key: int, bound: PageId)
    requires TreeOk(c, t, bound) && MIN_KEY <= key <= MAX_KEY
    ensures var m := Dict(Items(t)); Lookup(t, key) == if key in m then Some(m[key]) else None
  {
    FoundInLeaf(c, t, key, bound);
    InvItems(t, Height(t), ROOT_BOX);
    DictEntries(Items(t));
  }
}
