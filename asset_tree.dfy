/**
 * The selector window's tree of assets, as objects on the heap.
 *
 * `AssetItem` is the C# `AssetItem` and its subclass `FolderItem` in one
 * class: `isFolder` tells them apart, and a leaf keeps its `children` empty.
 * An asset object is identified by its path; the editor's asset database is
 * reduced to the two oracles the selector consults, `isValidFolder` and
 * `isSubAsset`.
 */
module AssetTree {
  import opened Paths
  import opened NaturalOrder
  import opened SelectionModel

  class AssetItem {
    const path: string
    const name: string
    const isFolder: bool
    const parent: AssetItem?
    /** Number of folders above this item; the root has depth 0. */
    ghost const depth: nat
    var selected: bool
    var children: seq<AssetItem>
    var foldout: bool

    /** The chain of parents ends at an item without one, each step one level up. */
    ghost predicate Linked()
      decreases depth
    {
      if parent == null then depth == 0 else depth == parent.depth + 1 && parent.Linked()
    }

    /** The item's name is the text of its path after the last slash; new items start selected and unfolded. */
    constructor (path: string, parent: AssetItem?, isFolder: bool, selected: bool)
      requires parent != null ==> parent.Linked()
      ensures this.path == path && this.parent == parent && this.isFolder == isFolder
      ensures name == Name(path)
      ensures this.selected == selected && foldout && children == []
      ensures Linked() && depth == (if parent == null then 0 else parent.depth + 1)
    {
      this.path := path;
      this.name := Name(path);
      this.isFolder := isFolder;
      this.parent := parent;
      this.depth := if parent == null then 0 else parent.depth + 1;
      this.selected := selected;
      this.children := [];
      this.foldout := true;
    }

    /**
     * The selection root: a folder item created for no asset, so its path
     * (and therefore its name) is empty, and it has no parent.
     */
    constructor Root()
      ensures path == [] && name == [] && parent == null && isFolder
      ensures selected && foldout && children == []
      ensures Linked() && depth == 0
    {
      path := [];
      name := [];
      isFolder := true;
      parent := null;
      depth := 0;
      selected := true;
      children := [];
      foldout := true;
    }

    /** `CompareTo(other)`: this item's name against `other`, in the editor's natural order. */
    function CompareTo(compare: Comparator, other: string): (r: int)
      requires IsTotalOrder(compare)
      ensures r == 0 <==> name == other
      ensures r < 0 <==> compare(other, name) > 0
    {
      compare(name, other)
    }

    /** The item `depth - d` steps up the chain of parents. */
    ghost function AncestorAt(d: nat): (a: AssetItem)
      requires Linked() && d <= depth
      ensures a.Linked() && a.depth == d
      decreases depth
    {
      if d == depth then this else parent.AncestorAt(d)
    }

    /** This item is `n` or lies somewhere below it. */
    ghost predicate Within(n: AssetItem) {
      Linked() && n.depth <= depth && AncestorAt(n.depth) == n
    }

    /** This item lies strictly below `n`. */
    ghost predicate Below(n: AssetItem) {
      Within(n) && n.depth < depth
    }

    /**
     * `BinarySearch(childName)`: the index of the child called `childName`,
     * or the complement `~p` (that is, `-p - 1`) of the place where such a
     * child would go.
     */
    method BinarySearch(compare: Comparator, childName: string) returns (index: int)
      requires IsTotalOrder(compare)
      ensures 0 <= index ==> index < |children| && children[index].name == childName
      ensures index < 0 ==> 0 <= -index - 1 <= |children|
      ensures index < 0 && StrictlySorted(compare, NamesOf(children)) ==>
                InsertionPoint(compare, NamesOf(children), childName, -index - 1)
      ensures children == [] ==> index == -1
    {
      var names := NamesOf(children);
      var sorted := StrictlySorted(compare, names);
      var min, max := 0, |children| - 1;
      while min <= max
        invariant 0 <= min <= max + 1 <= |children|
        invariant sorted ==> forall i :: 0 <= i < min ==> compare(names[i], childName) < 0
        invariant sorted ==> forall i :: max < i < |children| ==> compare(names[i], childName) > 0
        decreases max - min
      {
        var mid := (min + max) / 2;
        var comparison := children[mid].CompareTo(compare, childName);
        if comparison == 0 {
          return mid;
        }
        if comparison < 0 {
          if sorted {
            forall i | 0 <= i <= mid ensures compare(names[i], childName) < 0 {
              if i < mid {
                assert Chain(compare, names[i], names[mid], childName);
              }
            }
          }
          min := mid + 1;
        } else {
          if sorted {
            forall i | mid <= i < |children| ensures compare(names[i], childName) > 0 {
              if mid < i {
                assert Chain(compare, childName, names[mid], names[i]);
              }
            }
          }
          max := mid - 1;
        }
      }
      return -min - 1;
    }

    /**
     * `AnyChildrenSelected()`: whether the folder's summary is other than
     * "none", stopping at the first child that shows a selection.
     */
    method AnyChildrenSelected(ghost w: InteractiveAssetSelector) returns (any: bool)
      requires w.Tree() && this in w.nodes && isFolder
      ensures any <==> SelectionModel.ChildrenSelected(w.Abs(this).children) != 0
      decreases w.height - depth
    {
      AbsUnfold(w, this);
      var i := 0;
      while i < |children|
        invariant 0 <= i <= |children|
        invariant forall j :: 0 <= j < i ==> State(w.Abs(this).children[j]) == 0
      {
        var asset := children[i];
        AbsUnfold(w, asset);
        if asset.isFolder {
          var b := asset.AnyChildrenSelected(w);
          if b {
            assert State(w.Abs(this).children[i]) != 0;
            AnySelectedExists(w.Abs(this).children);
            return true;
          }
        } else if asset.selected {
          assert State(w.Abs(this).children[i]) != 0;
          AnySelectedExists(w.Abs(this).children);
          return true;
        }
        i := i + 1;
      }
      AnySelectedExists(w.Abs(this).children);
      return false;
    }

    /**
     * `ChildrenSelected()`: the summary the window shows on a folder's
     * checkbox, folding `any` and `all` over the children in order; what the
     * result means is `SelectionModel.ChildrenSelectedMeaning`.
     */
    method ChildrenSelected(ghost w: InteractiveAssetSelector) returns (r: int)
      requires w.Tree() && this in w.nodes && isFolder
      ensures r == SelectionModel.ChildrenSelected(w.Abs(this).children)
      decreases w.height - depth
    {
      AbsUnfold(w, this);
      ghost var cs := w.Abs(this).children;
      var any, all := false, true;
      var i := 0;
      while i < |children|
        invariant 0 <= i <= |children|
        invariant any == AnySelected(cs[..i]) && all == AllSelected(cs[..i])
      {
        var asset := children[i];
        AbsUnfold(w, asset);
        SummaryStep(cs, i);
        if asset.isFolder {
          var c := asset.ChildrenSelected(w);
          any := any || c != 0;
          all := all && c == 1;
        } else {
          any := any || asset.selected;
          all := all && asset.selected;
        }
        i := i + 1;
      }
      assert cs[..i] == cs;
      r := if any then (if all then 1 else -1) else 0;
    }
    /**
     * The shared body of `SelectChildren` (`v` true) and `DeselectChildren`
     * (`v` false): every item strictly below this folder gets flag `v`, and
     * nothing else changes.
     */
    method SetChildren(v: bool, ghost w: InteractiveAssetSelector)
      requires w.Tree() && this in w.nodes && isFolder
      modifies w.nodes`selected
      ensures forall m :: m in w.nodes ==> m.selected == (if m.Below(this) then v else old(m.selected))
      ensures w.Abs(this) == SetBelow(old(w.Abs(this)), v)
    {
      ghost var s0 := w.Snap();
      ghost var fuel := w.height - depth;
      ghost var before := w.Abs(this);
      assert before == View(s0, this, fuel);
      SnapLinked(w);
      LinkedInTree(w, this);
      SetDescendants(v, w);
      assert FlagsSetBelow(s0, w.Snap(), this, v) by {
        forall m | m in s0 ensures m in w.Snap() && w.Snap()[m].selected == (if m.Below(this) then v else s0[m].selected) {
          assert m in w.nodes;
        }
      }
      AbsSetBelow(w, s0, this, v, fuel, before);
    }

    /** The loop of Select/DeselectChildren: each child in turn, with everything below it. */
    method SetDescendants(v: bool, ghost w: InteractiveAssetSelector)
      requires w.Tree() && this in w.nodes && isFolder
      modifies w.nodes`selected
      ensures forall m :: m in w.nodes ==> m.selected == (if m.Below(this) then v else old(m.selected))
      decreases w.height - depth, 0
    {
      LinkedInTree(w, this);
      var i := 0;
      while i < |children|
        invariant 0 <= i <= |children|
        invariant forall m {:trigger m.selected} :: m in w.nodes ==>
                    m.selected == (if UnderSome(m, this, children[..i]) then v else old(m.selected))
      {
        var asset := children[i];
        assert asset in children;
        LinkedInTree(w, asset);
        UnderSomeStep(this, children, i);
        asset.SetFlag(v, w);
        i := i + 1;
      }
      forall m | m in w.nodes && m.Below(this) ensures UnderSome(m, this, children[..i]) {
        ChildOnPath(w, this, m);
        assert children[..i] == children;
      }
    }

    /** One turn of the loop in Select/DeselectChildren: this item's flag, then everything below it. */
    method SetFlag(v: bool, ghost w: InteractiveAssetSelector)
      requires w.Tree() && this in w.nodes
      modifies w.nodes`selected
      ensures forall m :: m in w.nodes ==> m.selected == (if m.Within(this) then v else old(m.selected))
      decreases w.height - depth, 1
    {
      LinkedInTree(w, this);
      selected := v;
      if isFolder {
        SetDescendants(v, w);
      } else {
        forall m | m in w.nodes && m.Below(this) ensures false {
          ChildOnPath(w, this, m);
        }
      }
      forall m | m in w.nodes && m.Within(this) && !m.Below(this) ensures m == this {
      }
    }

    /** `SelectChildren()`: selects everything below this folder. */
    method SelectChildren(ghost w: InteractiveAssetSelector)
      requires w.Tree() && this in w.nodes && isFolder
      modifies w.nodes`selected
      ensures forall m :: m in w.nodes ==> m.selected == (m.Below(this) || old(m.selected))
      ensures w.Abs(this) == SetBelow(old(w.Abs(this)), true)
      ensures SelectionModel.ChildrenSelected(w.Abs(this).children) == 0 <==>
                !HasLeaf(DescendantsOf(old(w.Abs(this)).children))
    {
      SetChildren(true, w);
      SelectFills(old(w.Abs(this)).children);
    }

    /** `DeselectChildren()`: deselects everything below this folder, which then shows "none". */
    method DeselectChildren(ghost w: InteractiveAssetSelector)
      requires w.Tree() && this in w.nodes && isFolder
      modifies w.nodes`selected
      ensures forall m :: m in w.nodes ==> m.selected == (!m.Below(this) && old(m.selected))
      ensures w.Abs(this) == SetBelow(old(w.Abs(this)), false)
      ensures SelectionModel.ChildrenSelected(w.Abs(this).children) == 0
    {
      SetChildren(false, w);
      DeselectClears(old(w.Abs(this)).children);
    }
  }

  /** `List.IndexOf(x)`: the first index holding `x`, or -1 when there is none. */
  function IndexOf(cs: seq<AssetItem>, x: AssetItem): (k: int)
    ensures k == -1 <==> x !in cs
    ensures 0 <= k ==> k < |cs| && cs[k] == x && x !in cs[..k]
  {
    if cs == [] then -1
    else if cs[0] == x then 0
    else
      var k := IndexOf(cs[1..], x);
      assert cs == [cs[0]] + cs[1..];
      if k < 0 then -1
      else
        assert cs[..k + 1] == [cs[0]] + cs[1..][..k];
        k + 1
  }

  /** The names of a folder's children, in order. */
  function NamesOf(cs: seq<AssetItem>): (names: seq<string>)
    ensures |names| == |cs| && forall i :: 0 <= i < |cs| ==> names[i] == cs[i].name
  {
    seq(|cs|, i requires 0 <= i < |cs| => cs[i].name)
  }

  /** Going `d` levels up from `m`, then further to level `k`, is going to level `k` directly. */
  lemma {:induction false} AncestorCompose(m: AssetItem, d: nat, k: nat)
    requires m.Linked() && k <= d <= m.depth
    ensures m.AncestorAt(d).AncestorAt(k) == m.AncestorAt(k)
    decreases m.depth
  {
    if d < m.depth {
      AncestorCompose(m.parent, d, k);
    }
  }

  /** The parent of the ancestor at level `d` is the ancestor at level `d - 1`. */
  lemma {:induction false} AncestorParent(m: AssetItem, d: nat)
    requires m.Linked() && 0 < d <= m.depth
    ensures m.AncestorAt(d).parent == m.AncestorAt(d - 1)
    decreases m.depth
  {
    if d < m.depth {
      AncestorParent(m.parent, d);
    }
  }

  lemma WithinTrans(m: AssetItem, c: AssetItem, n: AssetItem)
    requires m.Within(c) && c.Within(n)
    ensures m.Within(n)
  {
    AncestorCompose(m, c.depth, n.depth);
  }

  lemma ChildWithin(c: AssetItem)
    requires c.Linked() && c.parent != null
    ensures c.Within(c.parent) && c.Below(c.parent)
  {
  }

  /** The fields of an item that the selector changes after creating it. */
  datatype ItemState = ItemState(children: seq<AssetItem>, selected: bool, foldout: bool)

  type Snapshot = map<AssetItem, ItemState>

  /** The state of `n` in `s`; an item outside `s` shows as an empty, unselected one. */
  function StateIn(s: Snapshot, n: AssetItem): ItemState {
    if n in s then s[n] else ItemState([], false, false)
  }

  /** `n` and what lies below it in `s`, down to `fuel` levels, as a value. */
  ghost function View(s: Snapshot, n: AssetItem, fuel: nat): Item
    decreases fuel, 0
  {
    var st := StateIn(s, n);
    if n.isFolder then Folder(n.path, n.name, st.selected, st.foldout, if fuel == 0 then [] else ViewOf(s, st.children, fuel - 1))
    else Leaf(n.path, n.name, st.selected)
  }

  ghost function ViewOf(s: Snapshot, cs: seq<AssetItem>, fuel: nat): (r: seq<Item>)
    ensures |r| == |cs|
    decreases fuel, 1, |cs|
  {
    if cs == [] then [] else ViewOf(s, cs[..|cs| - 1], fuel) + [View(s, cs[|cs| - 1], fuel)]
  }

  /** `ViewOf` lists the views of the items, in order. */
  lemma {:induction false} ViewOfIndex(s: Snapshot, cs: seq<AssetItem>, fuel: nat)
    ensures forall i :: 0 <= i < |cs| ==> ViewOf(s, cs, fuel)[i] == View(s, cs[i], fuel)
    decreases |cs|
  {
    if cs != [] {
      ViewOfIndex(s, cs[..|cs| - 1], fuel);
    }
  }

  /** Entry `i` of `ViewOf` is the view of item `i`. */
  lemma ViewOfAt(s: Snapshot, cs: seq<AssetItem>, fuel: nat, i: int)
    requires 0 <= i < |cs|
    ensures ViewOf(s, cs, fuel)[i] == View(s, cs[i], fuel)
  {
    ViewOfIndex(s, cs, fuel);
  }

  /** Every child recorded in `s` is recorded itself, one level down, with the right parent. */
  ghost predicate ChildLinked(s: Snapshot) {
    forall m, c {:trigger c in s[m].children} :: m in s && c in s[m].children ==> c in s && c.parent == m && c.depth == m.depth + 1
  }

  /**
   * The selector window: the root folder of the selection, the
   * `ignoreEmptyFolders` option, and the editor services it consults.
   */
  class InteractiveAssetSelector {
    /** The editor's `EditorUtility.NaturalCompare`. */
    const compare: Comparator
    /** `AssetDatabase.IsValidFolder`, on paths. */
    const isValidFolder: string -> bool
    /** `AssetDatabase.IsSubAsset`, on the path of the asset it is asked about. */
    const isSubAsset: string -> bool
    const selectionRoot: AssetItem
    var ignoreEmptyFolders: bool
    /** Every item of the tree, the root included. */
    ghost var nodes: set<AssetItem>
    /** A bound on the depth of every item. */
    ghost var height: nat

    /**
     * A new window, as OnEnable leaves it: a root folder for no asset (whose
     * path is therefore empty) and nothing selected below it yet.
     */
    constructor (compare: Comparator, isValidFolder: string -> bool, isSubAsset: string -> bool)
      requires IsTotalOrder(compare)
      ensures Valid() && Paths() == {} && !ignoreEmptyFolders
      ensures this.compare == compare && this.isValidFolder == isValidFolder && this.isSubAsset == isSubAsset
      ensures fresh(selectionRoot) && selectionRoot.path == [] && selectionRoot.children == []
      ensures nodes == {selectionRoot}
    {
      this.compare := compare;
      this.isValidFolder := isValidFolder;
      this.isSubAsset := isSubAsset;
      var root := new AssetItem.Root();
      selectionRoot := root;
      ignoreEmptyFolders := false;
      nodes := {root};
      height := 0;
    }

    /**
     * Where SortedInsert puts an item: under the root when its path has no
     * slash, otherwise under the folder whose path is the text before the
     * last slash; its name is the text after it, and it is a folder exactly
     * when the asset database says its path is one.
     */
    ghost predicate Placed(m: AssetItem) {
      && m.parent != null
      && m.name == Name(m.path)
      && m.isFolder == isValidFolder(m.path)
      && (if HasParentPath(m.path)
          then m.parent != selectionRoot && m.parent.path == ParentPath(m.path)
          else m.parent == selectionRoot)
    }

    /**
     * The shape of the tree: every item hangs below the root through its
     * parent, appears among its parent's children, and only folders have
     * children.
     */
    ghost predicate Tree()
      reads this`nodes, this`height, nodes`children
    {
      && selectionRoot in nodes
      && selectionRoot.parent == null && selectionRoot.isFolder && selectionRoot.depth == 0
      && (forall m :: m in nodes ==> m.depth <= height)
      && (forall m {:trigger m.parent} :: m in nodes && m != selectionRoot ==>
            m.parent in nodes && m in m.parent.children && m.depth == m.parent.depth + 1)
      && (forall m, c {:trigger c in m.children} :: m in nodes && c in m.children ==>
            c in nodes && c != selectionRoot && c.parent == m && c.depth == m.depth + 1)
      && (forall m :: m in nodes && !m.isFolder ==> m.children == [])
    }

    /** The tree, with every item where SortedInsert puts it and every folder's children sorted by name. */
    ghost predicate Valid()
      reads this`nodes, this`height, nodes`children
    {
      && Tree()
      && IsTotalOrder(compare)
      && (forall m {:trigger Placed(m)} :: m in nodes && m != selectionRoot ==> Placed(m))
      && (forall m {:trigger SortedChildren(m)} :: m in nodes ==> SortedChildren(m))
    }

    /** The children of `m` are strictly sorted by name in the editor's natural order. */
    ghost predicate SortedChildren(m: AssetItem)
      reads m`children
    {
      StrictlySorted(compare, NamesOf(m.children))
    }

    /** The paths of the items in the selector (the root has none). */
    ghost function Paths(): set<string>
      reads this`nodes
    {
      PathsIn(nodes, selectionRoot)
    }

    /** The mutable part of every item of the tree, as a value. */
    ghost function Snap(): Snapshot
      reads this`nodes, nodes`children, nodes`selected, nodes`foldout
    {
      map m | m in nodes :: ItemState(m.children, m.selected, m.foldout)
    }

    /**
     * `SortedInsert(obj, path)`: makes sure the item for `path` and the
     * folders above it are in the tree and returns it; a sub-asset is
     * refused with null. Parent folders are inserted first (through the
     * `(path, false)` overload, which asks for the parent's asset), and a
     * new item goes where `BinarySearch` says, as a folder exactly when the
     * asset database calls its path one.
     */
    method SortedInsert(path: string) returns (item: AssetItem?)
      requires Valid()
      requires forall a :: a in Ancestors(path) ==> isValidFolder(a) && !isSubAsset(a)
      modifies this`nodes, this`height, nodes`children
      ensures Valid() && old(nodes) <= nodes && fresh(nodes - old(nodes))
      ensures isSubAsset(path) ==> item == null && nodes == old(nodes) && forall m :: m in nodes ==> m.children == old(m.children)
      ensures !isSubAsset(path) ==> item != null && item in nodes && item != selectionRoot && item.path == path
      ensures Paths() == old(Paths()) + (if isSubAsset(path) then {} else {path} + AncestorSet(path))
      ensures path in old(Paths()) ==> nodes == old(nodes) && forall m :: m in nodes ==> m.children == old(m.children)
      ensures !isSubAsset(path) && path !in old(Paths()) ==> fresh(item) && item.selected && item.foldout && item.children == []
      ensures forall m :: m in nodes - old(nodes) ==> m.selected
      decreases |path|, 1
    {
      if isSubAsset(path) {
        return null;
      }
      var parent := ParentFolder(path);
      item := InsertUnder(parent, path);
    }

    /** Every folder above `path` is a folder in the asset database and not a sub-asset. */
    ghost predicate Insertable(path: string) {
      forall a :: a in Ancestors(path) ==> isValidFolder(a) && !isSubAsset(a)
    }

    /** The paths that inserting each of `paths` in turn adds: each one that is not a sub-asset, with the folders above it. */
    ghost function Added(paths: seq<string>): (r: set<string>)
      ensures forall i :: 0 <= i < |paths| && !isSubAsset(paths[i]) ==> paths[i] in r && AncestorSet(paths[i]) <= r
    {
      if paths == [] then {}
      else
        var init, p := paths[..|paths| - 1], paths[|paths| - 1];
        assert forall i :: 0 <= i < |init| ==> init[i] == paths[i];
        Added(init) + (if isSubAsset(p) then {} else {p} + AncestorSet(p))
    }

    /** `Added` holds nothing but the paths inserted and the folders above them. */
    lemma {:induction false} AddedOnly(paths: seq<string>, q: string)
      requires q in Added(paths)
      ensures exists i :: 0 <= i < |paths| && !isSubAsset(paths[i]) && (q == paths[i] || q in AncestorSet(paths[i]))
    {
      var init, p := paths[..|paths| - 1], paths[|paths| - 1];
      if q in Added(init) {
        AddedOnly(init, q);
        var i :| 0 <= i < |init| && !isSubAsset(init[i]) && (q == init[i] || q in AncestorSet(init[i]));
        assert init[i] == paths[i];
      } else {
        assert paths[|paths| - 1] == p;
      }
    }

    /**
     * The paths that `SortedInsert(paths, recursive)` adds: for each path,
     * with `recursive`, what `contents` lists for it, and then the path.
     */
    ghost function AddedAll(paths: seq<string>, recursive: bool, contents: string -> seq<string>): (r: set<string>)
      ensures Added(paths) <= r
      ensures !recursive ==> r == Added(paths)
      ensures recursive ==> forall i :: 0 <= i < |paths| ==> Added(contents(paths[i])) <= r
    {
      if paths == [] then {}
      else
        var init, p := paths[..|paths| - 1], paths[|paths| - 1];
        assert [p][..0] == [];
        assert Added(paths) == Added(init) + Added([p]);
        assert forall i :: 0 <= i < |init| ==> init[i] == paths[i];
        AddedAll(init, recursive, contents) + (if recursive then Added(contents(p)) else {}) + Added([p])
    }

    /**
     * `SortedInsert(IEnumerable<string> paths, false)`, and equally
     * `SortedInsert(IEnumerable<Object>)`, an asset being known by its path:
     * each path in turn through `SortedInsert(obj, path)`, then
     * `ValidateSelection()`. Without `ignoreEmptyFolders` the selection gains
     * exactly the new paths and the folders above them; with it, pruning may
     * take some of those away again, but nothing else appears.
     */
    method SortedInsertAll(paths: seq<string>)
      requires Valid()
      requires forall i :: 0 <= i < |paths| ==> Insertable(paths[i])
      modifies this`nodes, this`height, nodes`children
      ensures Valid() && fresh(nodes - old(nodes))
      ensures Paths() <= old(Paths()) + Added(paths)
      ensures !ignoreEmptyFolders ==> Paths() == old(Paths()) + Added(paths)
    {
      InsertEach(paths);
      ghost var mid := nodes;
      ValidateSelection();
      PathsInMono(nodes, mid, selectionRoot);
    }

    /** The loop of the bulk insert: `SortedInsert(obj, path)` for each path, in order. */
    method InsertEach(paths: seq<string>)
      requires Valid()
      requires forall i :: 0 <= i < |paths| ==> Insertable(paths[i])
      modifies this`nodes, this`height, nodes`children
      ensures Valid() && old(nodes) <= nodes && fresh(nodes - old(nodes))
      ensures Paths() == old(Paths()) + Added(paths)
    {
      ghost var start := Paths();
      var i := 0;
      while i < |paths|
        invariant 0 <= i <= |paths|
        invariant Valid() && old(nodes) <= nodes && fresh(nodes - old(nodes))
        invariant Paths() == start + Added(paths[..i])
      {
        var _ := SortedInsert(paths[i]);
        assert paths[..i + 1][..i] == paths[..i];
        i := i + 1;
      }
      assert paths[..i] == paths;
    }

    /**
     * `SortedInsert(IEnumerable<string> paths, bool recursive)`: each path in
     * turn through `SortedInsert(path, recursive)`, then `ValidateSelection()`.
     * What the asset database finds below a path (`GetAssetsAtPaths`) is the
     * parameter `contents`.
     */
    method SortedInsertPaths(paths: seq<string>, recursive: bool, contents: string -> seq<string>)
      requires Valid()
      requires forall i :: 0 <= i < |paths| ==> Insertable(paths[i])
      requires recursive ==> forall i, j :: 0 <= i < |paths| && 0 <= j < |contents(paths[i])| ==> Insertable(contents(paths[i])[j])
      modifies this`nodes, this`height, nodes`children
      ensures Valid() && fresh(nodes - old(nodes))
      ensures Paths() <= old(Paths()) + AddedAll(paths, recursive, contents)
      ensures !ignoreEmptyFolders ==> Paths() == old(Paths()) + AddedAll(paths, recursive, contents)
    {
      InsertEachPath(paths, recursive, contents);
      ghost var mid := nodes;
      ValidateSelection();
      PathsInMono(nodes, mid, selectionRoot);
    }

    /** The loop of the recursive bulk insert: `SortedInsert(path, recursive)` for each path, in order. */
    method InsertEachPath(paths: seq<string>, recursive: bool, contents: string -> seq<string>)
      requires Valid()
      requires forall i :: 0 <= i < |paths| ==> Insertable(paths[i])
      requires recursive ==> forall i, j :: 0 <= i < |paths| && 0 <= j < |contents(paths[i])| ==> Insertable(contents(paths[i])[j])
      modifies this`nodes, this`height, nodes`children
      ensures Valid() && fresh(nodes - old(nodes))
      ensures Paths() <= old(Paths()) + AddedAll(paths, recursive, contents)
      ensures !ignoreEmptyFolders ==> Paths() == old(Paths()) + AddedAll(paths, recursive, contents)
    {
      ghost var start := Paths();
      var i := 0;
      while i < |paths|
        invariant 0 <= i <= |paths|
        invariant Valid() && fresh(nodes - old(nodes))
        invariant Paths() <= start + AddedAll(paths[..i], recursive, contents)
        invariant !ignoreEmptyFolders ==> Paths() == start + AddedAll(paths[..i], recursive, contents)
      {
        InsertNextPath(paths, i, recursive, contents, start);
        i := i + 1;
      }
      assert paths[..i] == paths;
    }

    /**
     * One round of the recursive bulk insert loop: the `i`-th path through
     * `SortedInsert(path, recursive)`, the selection so far being `start`
     * and what the first `i` paths added.
     */
    method InsertNextPath(paths: seq<string>, i: int, recursive: bool, contents: string -> seq<string>, ghost start: set<string>)
      requires Valid() && 0 <= i < |paths| && Insertable(paths[i])
      requires recursive ==> forall j :: 0 <= j < |contents(paths[i])| ==> Insertable(contents(paths[i])[j])
      requires Paths() <= start + AddedAll(paths[..i], recursive, contents)
      requires !ignoreEmptyFolders ==> Paths() == start + AddedAll(paths[..i], recursive, contents)
      modifies this`nodes, this`height, nodes`children
      ensures Valid() && fresh(nodes - old(nodes))
      ensures Paths() <= start + AddedAll(paths[..i + 1], recursive, contents)
      ensures !ignoreEmptyFolders ==> Paths() == start + AddedAll(paths[..i + 1], recursive, contents)
    {
      ghost var mid := Paths();
      ghost var added := (if recursive then Added(contents(paths[i])) else {}) + Added([paths[i]]);
      InsertPath(paths[i], recursive, contents(paths[i]));
      assert AddedAll(paths[..i + 1], recursive, contents) == AddedAll(paths[..i], recursive, contents) + added by {
        assert paths[..i + 1][..i] == paths[..i];
      }
      AddUp(start, AddedAll(paths[..i], recursive, contents), added, mid, Paths(), ignoreEmptyFolders);
    }

    /**
     * `SortedInsert(string path, bool recursive)`: with `recursive`, first the
     * assets below `path` (`found`, what `GetAssetsAtPaths(path)` returns)
     * through the non-recursive bulk insert, then `path` itself.
     */
    method InsertPath(path: string, recursive: bool, found: seq<string>)
      requires Valid() && Insertable(path)
      requires recursive ==> forall j :: 0 <= j < |found| ==> Insertable(found[j])
      modifies this`nodes, this`height, nodes`children
      ensures Valid() && fresh(nodes - old(nodes))
      ensures Paths() <= old(Paths()) + (if recursive then Added(found) else {}) + Added([path])
      ensures !ignoreEmptyFolders ==> Paths() == old(Paths()) + (if recursive then Added(found) else {}) + Added([path])
      ensures !recursive ==> Paths() == old(Paths()) + Added([path])
      ensures Added([path]) <= Paths()
    {
      if recursive {
        SortedInsertAll(found);
      }
      var _ := SortedInsert(path);
    }

    /**
     * The first half of `SortedInsert(obj, path)`: the folder that holds
     * `path`, inserted first when it is missing (the root when `path` has
     * no slash).
     */
    method ParentFolder(path: string) returns (parent: AssetItem)
      requires Valid()
      requires forall a :: a in Ancestors(path) ==> isValidFolder(a) && !isSubAsset(a)
      modifies this`nodes, this`height, nodes`children
      ensures Valid() && old(nodes) <= nodes && fresh(nodes - old(nodes))
      ensures parent in nodes && parent.isFolder
      ensures if HasParentPath(path) then parent != selectionRoot && parent.path == ParentPath(path)
              else parent == selectionRoot
      ensures Paths() == old(Paths()) + AncestorSet(path)
      ensures path in old(Paths()) ==> nodes == old(nodes) && forall m :: m in nodes ==> m.children == old(m.children)
      ensures forall m :: m in nodes - old(nodes) ==> m.selected
      decreases |path|, 0
    {
      ghost var before := Paths();
      var k := LastIndexOfSlash(path);
      if k < 0 {
        AddAncestors(before, before, path);
        return selectionRoot;
      }
      ghost var pp := ParentPath(path);
      assert pp in Ancestors(path);
      forall a | a in Ancestors(pp) ensures isValidFolder(a) && !isSubAsset(a) {
        assert a in Ancestors(path);
      }
      if path in Paths() {
        var m :| m in nodes && m != selectionRoot && m.path == path;
        AncestorsPresent(this, m);
      }
      var p := SortedInsert(path[..k]);
      parent := p;
      assert Placed(parent);
      AddAncestors(before, Paths(), path);
    }

    /**
     * The second half of `SortedInsert(obj, path)`: the item for `path`
     * under the folder that holds it, found by `BinarySearch` or inserted
     * at the index the search returns.
     */
    method InsertUnder(parent: AssetItem, path: string) returns (item: AssetItem)
      requires Valid() && parent in nodes && parent.isFolder
      requires if HasParentPath(path) then parent != selectionRoot && parent.path == ParentPath(path)
               else parent == selectionRoot
      modifies this`nodes, this`height, parent`children
      ensures Valid() && item in nodes && item != selectionRoot && item.path == path
      ensures Paths() == old(Paths()) + {path}
      ensures path in old(Paths()) ==> nodes == old(nodes) && parent.children == old(parent.children)
      ensures path !in old(Paths()) ==> fresh(item) && nodes == old(nodes) + {item}
      ensures path !in old(Paths()) ==> item.selected && item.foldout && item.children == []
    {
      LinkedInTree(this, parent);
      assert SortedChildren(parent);
      var index := parent.BinarySearch(compare, Name(path));
      if index < 0 {
        NotFoundAbsent(this, parent, path, -index - 1);
        var newItem := new AssetItem(path, parent, isValidFolder(path), true);
        Attach(parent, -index - 1, newItem);
        item := newItem;
        PathsInAdd(old(nodes), selectionRoot, item);
      } else {
        item := parent.children[index];
        ChildPath(this, parent, item, path);
        assert item in parent.children;
      }
    }

    /** `parent.children.Insert(p, item)` for a new item: the tree stays valid with one more item. */
    method Attach(parent: AssetItem, p: int, item: AssetItem)
      requires Valid() && parent in nodes && parent.isFolder && item !in nodes
      requires item.parent == parent && item.depth == parent.depth + 1 && item.children == [] && Placed(item)
      requires InsertionPoint(compare, NamesOf(parent.children), item.name, p)
      modifies this`nodes, this`height, parent`children
      ensures Valid() && nodes == old(nodes) + {item} && unchanged(item)
      ensures parent.children == old(parent.children)[..p] + [item] + old(parent.children)[p..]
    {
      ghost var cs := parent.children;
      assert SortedChildren(parent);
      InsertedNamesSorted(compare, cs, p, item);
      InsertChild(parent, p, item);
      forall m | m in nodes && m != selectionRoot ensures Placed(m) {
        if m != item {
          assert m in old(nodes);
        }
      }
      forall m | m in nodes ensures SortedChildren(m) {
        if m != parent && m != item {
          assert m in old(nodes) && old(SortedChildren(m));
        }
      }
    }

    /** The shape half of `Attach`: the new item hangs below `parent` at index `p`. */
    method InsertChild(parent: AssetItem, p: int, item: AssetItem)
      requires Tree() && parent in nodes && parent.isFolder && item !in nodes
      requires item.parent == parent && item.depth == parent.depth + 1 && item.children == []
      requires 0 <= p <= |parent.children|
      modifies this`nodes, this`height, parent`children
      ensures Tree() && nodes == old(nodes) + {item}
      ensures parent.children == old(parent.children)[..p] + [item] + old(parent.children)[p..]
    {
      var cs := parent.children;
      InsertMembers(cs, p, item);
      parent.children := cs[..p] + [item] + cs[p..];
      nodes := nodes + {item};
      if item.depth > height {
        height := item.depth;
      }
      forall m | m in nodes && m != selectionRoot
        ensures m.parent in nodes && m in m.parent.children && m.depth == m.parent.depth + 1
      {
        if m != item {
          assert m in old(nodes);
          if m.parent == parent {
            assert m in cs;
          }
        }
      }
      forall m, c {:trigger c in m.children} | m in nodes && c in m.children
        ensures c in nodes && c != selectionRoot && c.parent == m && c.depth == m.depth + 1
      {
        if m == parent && c != item {
          assert c in cs;
        } else if m != parent {
          assert m in old(nodes) && c in old(m.children);
        }
      }
      assert forall m :: m in nodes ==> m.depth <= height;
      assert forall m :: m in nodes && !m.isFolder ==> m.children == [];
      assert selectionRoot in nodes;
    }

    /**
     * `RemoveEmptyFolders(folder)`: `children.RemoveAll` visits the children
     * in order, prunes each child folder first and drops it when that left
     * it empty. Only items below `folder` are touched.
     */
    method RemoveEmptyFolders(folder: AssetItem)
      requires Valid() && folder in nodes && folder.isFolder
      modifies this`nodes, nodes`children
      ensures Valid() && nodes <= old(nodes) && folder in nodes
      ensures SameOutside(old(Snap()), Snap(), folder)
      ensures Abs(folder) == Prune(old(Abs(folder)))
    {
      ghost var s0 := Snap();
      ghost var fuel := height - folder.depth;
      ghost var before := Abs(folder);
      assert before == View(s0, folder, fuel);
      PruneFolder(folder, fuel, s0, before);
      assert Abs(folder) == View(Snap(), folder, fuel);
    }

    /**
     * The body of `RemoveEmptyFolders(folder)`, on the view of `folder` down
     * to `fuel` levels: `before` is that view as it was in `s0`.
     */
    method PruneFolder(folder: AssetItem, ghost fuel: nat, ghost s0: Snapshot, ghost before: Item)
      requires Valid() && folder in nodes && folder.isFolder && fuel == height - folder.depth
      requires s0 == Snap() && before == View(s0, folder, fuel)
      modifies this`nodes, nodes`children
      ensures Valid() && nodes <= old(nodes) && folder in nodes
      ensures SameOutside(s0, Snap(), folder)
      ensures View(Snap(), folder, fuel) == Prune(before)
      decreases height - folder.depth, 3
    {
      SnapLinked(this);
      LinkedInTree(this, folder);
      var cs := folder.children;
      assert fuel == 0 ==> cs == [] by {
        if cs != [] {
          assert cs[0] in folder.children;
        }
      }
      var kept := PruneChildren(folder, s0, fuel);
      CommitPrune(folder, cs, kept, s0, fuel, before);
    }

    /**
     * After the loop of `RemoveEmptyFolders`: the kept children replace the
     * old ones, and `folder` shows as its former self `before` pruned.
     */
    method CommitPrune(folder: AssetItem, ghost cs: seq<AssetItem>, kept: seq<AssetItem>,
                       ghost s0: Snapshot, ghost fuel: nat, ghost before: Item)
      requires Valid() && folder in nodes && folder.isFolder && folder.Linked() && folder.children == cs
      requires ChildLinked(s0) && folder in s0 && s0[folder].children == cs
      requires SameOutsideAll(s0, Snap(), folder, cs[..|cs|])
      requires kept == Survivors(Snap(), cs, |cs|)
      requires fuel == height - folder.depth && (fuel == 0 ==> cs == [])
      requires fuel > 0 ==> ViewOf(Snap(), kept, fuel - 1) == PruneOf(ViewOf(s0, cs[..|cs|], fuel - 1))
      requires before == View(s0, folder, fuel)
      modifies this`nodes, folder`children
      ensures Valid() && nodes <= old(nodes) && folder in nodes
      ensures SameOutside(s0, Snap(), folder)
      ensures View(Snap(), folder, fuel) == Prune(before)
    {
      ghost var s1 := Snap();
      assert cs[..|cs|] == cs;
      assert (forall c :: c in kept ==> c in cs) && forall c :: c in cs && c !in kept ==> Dropped(s1, c) by {
        SurvivorsAll(s1, cs);
      }
      assert s1[folder] == s0[folder] by {
        assert !UnderSome(folder, folder, cs);
      }
      assert StrictlySorted(compare, NamesOf(kept)) by {
        assert SortedChildren(folder);
        SurvivorsSorted(compare, s0, s1, cs, kept, fuel);
      }
      DropEmpty(folder, kept, s1);
      ghost var s2 := Snap();
      assert View(s2, folder, fuel) == Prune(before) by {
        PruneCommitView(s0, s1, s2, folder, cs, kept, fuel);
      }
      assert SameOutside(s0, s2, folder) by {
        OutsideCommit(s0, s1, s2, folder, cs, kept);
      }
    }

    /**
     * The end of `RemoveAll` over the children of `folder`: the children
     * it keeps replace the old list, and those it drops, folders without
     * children, leave the tree.
     */
    method DropEmpty(folder: AssetItem, kept: seq<AssetItem>, ghost s1: Snapshot)
      requires Valid() && folder in nodes && folder.isFolder && s1 == Snap()
      requires forall c :: c in kept ==> c in folder.children
      requires forall c :: c in folder.children && c !in kept ==> Dropped(s1, c)
      requires StrictlySorted(compare, NamesOf(kept))
      modifies this`nodes, folder`children
      ensures Valid() && folder.children == kept
      ensures nodes == old(nodes) - set c | c in old(folder.children) && c !in kept
      ensures folder in Snap() && Snap()[folder] == s1[folder].(children := kept)
      ensures forall m :: m in s1 && m != folder && (m !in old(folder.children) || m in kept) ==>
                m in Snap() && Snap()[m] == s1[m]
    {
      ghost var cs := folder.children;
      ghost var gone := set c | c in cs && c !in kept;
      assert forall c :: c in gone ==> c in nodes && c.children == [];
      DropChildren(folder, kept, gone);
      assert forall m :: m in nodes ==> SortedChildren(m);
    }

    /** The shape half of `DropEmpty`: the children left empty, `gone`, leave the tree. */
    method DropChildren(folder: AssetItem, kept: seq<AssetItem>, ghost gone: set<AssetItem>)
      requires Tree() && folder in nodes && folder.isFolder
      requires forall c :: c in kept ==> c in folder.children
      requires gone == set c | c in folder.children && c !in kept
      requires forall c :: c in gone ==> c.children == []
      modifies this`nodes, folder`children
      ensures Tree() && folder.children == kept && nodes == old(nodes) - gone
    {
      ghost var cs := folder.children;
      assert forall c :: c in gone ==> c in nodes && c.parent == folder;
      folder.children := kept;
      nodes := nodes - gone;
      forall m | m in nodes && m != selectionRoot
        ensures m.parent in nodes && m in m.parent.children && m.depth == m.parent.depth + 1
      {
        assert m in old(nodes);
        if m.parent == folder {
          assert m in cs;
        }
      }
      forall m, c {:trigger c in m.children} | m in nodes && c in m.children
        ensures c in nodes && c != selectionRoot && c.parent == m && c.depth == m.depth + 1
      {
        if m == folder {
          assert c in cs;
        } else {
          assert m in old(nodes) && c in old(m.children);
          assert c !in gone;
        }
      }
      assert forall m :: m in nodes && !m.isFolder ==> m.children == [];
      assert selectionRoot in nodes;
    }

    /**
     * The loop of `RemoveEmptyFolders`: each child of `folder` in turn goes
     * through the `RemoveAll` predicate; the children it keeps are returned,
     * in order. `s0` is the tree as it was before the loop.
     */
    method PruneChildren(folder: AssetItem, ghost s0: Snapshot, ghost fuel: nat) returns (kept: seq<AssetItem>)
      requires Valid() && folder in nodes && folder.isFolder && folder.Linked()
      requires ChildLinked(s0) && folder in s0 && s0[folder].children == folder.children
      requires SameOutsideAll(s0, Snap(), folder, [])
      requires fuel == height - folder.depth
      modifies this`nodes, nodes`children
      ensures Valid() && nodes <= old(nodes) && folder in nodes && folder.children == old(folder.children)
      ensures SameOutsideAll(s0, Snap(), folder, folder.children[..|folder.children|])
      ensures kept == Survivors(Snap(), folder.children, |folder.children|)
      ensures fuel > 0 ==> ViewOf(Snap(), kept, fuel - 1) == PruneOf(ViewOf(s0, folder.children[..|folder.children|], fuel - 1))
      decreases height - folder.depth, 2
    {
      ChildrenDistinct(this, folder);
      var cs := folder.children;
      ghost var start := nodes;
      kept := [];
      var i := 0;
      while i < |cs|
        invariant 0 <= i <= |cs|
        invariant Valid() && nodes <= start && folder in nodes && folder.children == cs
        invariant SameOutsideAll(s0, Snap(), folder, cs[..i])
        invariant kept == Survivors(Snap(), cs, i)
        invariant fuel > 0 ==> ViewOf(Snap(), kept, fuel - 1) == PruneOf(ViewOf(s0, cs[..i], fuel - 1))
      {
        kept := PruneStep(folder, cs, i, s0, fuel, kept);
        i := i + 1;
      }
    }

    /**
     * One turn of the loop in `PruneChildren`: child `cs[i]` goes through
     * the `RemoveAll` predicate, and the record of the children kept so far
     * grows by it unless it was left an empty folder.
     */
    method PruneStep(folder: AssetItem, cs: seq<AssetItem>, i: int, ghost s0: Snapshot, ghost fuel: nat,
                     kept: seq<AssetItem>) returns (next: seq<AssetItem>)
      requires Valid() && folder in nodes && folder.children == cs && folder.Linked() && 0 <= i < |cs|
      requires ChildLinked(s0) && folder in s0 && s0[folder].children == cs
      requires Distinct(cs)
      requires SameOutsideAll(s0, Snap(), folder, cs[..i])
      requires kept == Survivors(Snap(), cs, i)
      requires fuel == height - folder.depth
      requires fuel > 0 ==> ViewOf(Snap(), kept, fuel - 1) == PruneOf(ViewOf(s0, cs[..i], fuel - 1))
      modifies this`nodes, nodes`children
      ensures Valid() && nodes <= old(nodes) && folder in nodes && folder.children == cs
      ensures SameOutsideAll(s0, Snap(), folder, cs[..i + 1])
      ensures next == Survivors(Snap(), cs, i + 1)
      ensures fuel > 0 && ViewOf(Snap(), next, fuel - 1) == PruneOf(ViewOf(s0, cs[..i + 1], fuel - 1))
      decreases height - folder.depth, 1
    {
      ghost var s1 := Snap();
      assert ChildLinked(s1) by { SnapLinked(this); }
      assert cs[i] in nodes && cs[i] != selectionRoot && cs[i].parent == folder && cs[i].depth == folder.depth + 1 by {
        assert cs[i] in folder.children;
      }
      ghost var before := View(s0, cs[i], fuel - 1);
      assert fuel > 0 && before == View(s1, cs[i], fuel - 1) by {
        PruneStepBefore(this, s0, folder, cs, i, fuel);
      }
      var keep := PruneChild(cs[i], fuel - 1, s1, before);
      ghost var s2 := Snap();
      assert keep <==> !Dropped(s2, cs[i]);
      next := if keep then kept + [cs[i]] else kept;
      ghost var after := View(s2, cs[i], fuel - 1);
      PruneStepAfter(s0, s1, s2, folder, cs, kept, i, fuel - 1, before, after, keep, next);
    }

    /**
     * One turn of the `RemoveAll` predicate in RemoveEmptyFolders: a child
     * folder is pruned, and the child is kept unless it is a folder left
     * without children. `fuel` is the depth left below `c`.
     */
    method PruneChild(c: AssetItem, ghost fuel: nat, ghost s1: Snapshot, ghost before: Item) returns (keep: bool)
      requires Valid() && c in nodes && c != selectionRoot && fuel == height - c.depth
      requires s1 == Snap() && before == View(s1, c, fuel)
      modifies this`nodes, nodes`children
      ensures Valid() && nodes <= old(nodes) && c in nodes
      ensures c.parent in nodes && c.parent.children == old(c.parent.children)
      ensures SameOutside(s1, Snap(), c)
      ensures View(Snap(), c, fuel) == Prune(before)
      ensures keep <==> !(c.isFolder && c.children == [])
      ensures keep <==> !IsEmptyFolder(View(Snap(), c, fuel))
      decreases height - c.depth, 4
    {
      if c.isFolder {
        PruneFolder(c, fuel, s1, before);
        keep := c.children != [];
        assert fuel == 0 ==> c.children == [] by {
          if c.children != [] {
            assert c.children[0] in c.children;
          }
        }
      } else {
        keep := true;
      }
      assert !c.parent.Within(c);
    }

    /**
     * The folder row of `DoItemGUI`: the summary `ChildrenSelected()` is
     * taken first; the toggle then shows the folder's flag and comes back
     * as `toggle` (what the user's click made of it); a change selects or
     * deselects everything below; last, the flag is reset from the summary
     * taken before the click (`childrenSelected > 0`). The folder's own flag
     * thus ends up saying whether everything below it WAS selected, and
     * nothing outside the folder changes.
     */
    method DoFolderToggle(folder: AssetItem, toggle: bool)
      requires Valid() && folder in nodes && folder.isFolder
      modifies nodes`selected
      ensures var v := old(Abs(folder));
              Abs(folder) == (if toggle != old(folder.selected) then SetBelow(v, toggle) else v).(selected := FullySelected(v.children))
      ensures folder.selected <==> FullySelected(old(Abs(folder)).children)
      ensures forall m :: m in nodes && !m.Within(folder) ==> m.selected == old(m.selected)
    {
      ghost var s0 := Snap();
      ghost var fuel := height - folder.depth;
      ghost var before := Abs(folder);
      assert ChildLinked(s0) && folder.Linked() by {
        SnapLinked(this);
        LinkedInTree(this, folder);
      }
      var childrenSelected := folder.ChildrenSelected(this);
      assert childrenSelected > 0 <==> FullySelected(before.children) by {
        ChildrenSelectedMeaning(before.children);
        StateMeaning(before);
      }
      ClickFolder(folder, toggle, s0, fuel, before);
      SetOwnFlag(folder, childrenSelected > 0, Snap(), fuel, Abs(folder));
    }

    /**
     * The click part of the folder row: the toggle's value `toggle` becomes
     * the folder's flag, and when it differs from the flag shown
     * (`GUI.changed`) everything below the folder takes it too.
     */
    method ClickFolder(folder: AssetItem, toggle: bool, ghost s0: Snapshot, ghost fuel: nat, ghost before: Item)
      requires Valid() && folder in nodes && folder.isFolder && folder.Linked()
      requires s0 == Snap() && ChildLinked(s0) && fuel == height - folder.depth && before == Abs(folder)
      modifies nodes`selected
      ensures ChildLinked(Snap())
      ensures Abs(folder) == (if toggle != old(folder.selected) then SetBelow(before, toggle) else before).(selected := toggle)
      ensures forall m :: m in nodes && !m.Within(folder) ==> m.selected == old(m.selected)
    {
      var changed := toggle != folder.selected;
      SetOwnFlag(folder, toggle, s0, fuel, before);
      if changed {
        if folder.selected {
          folder.SelectChildren(this);
        } else {
          folder.DeselectChildren(this);
        }
      }
      assert folder.Within(folder);
      forall m | m in nodes && !m.Within(folder) ensures m.selected == old(m.selected) {
        assert !m.Below(folder) && m != folder;
      }
      assert forall m :: m in s0 ==> m in Snap() && Snap()[m].children == s0[m].children;
      assert forall m :: m in Snap() ==> m in s0;
      ChildLinkedFlags(s0, Snap());
    }

    /** `folder.selected = b`: the folder's view changes in its own flag and nowhere else. */
    method SetOwnFlag(folder: AssetItem, b: bool, ghost s0: Snapshot, ghost fuel: nat, ghost before: Item)
      requires folder in nodes && folder.depth <= height && s0 == Snap() && ChildLinked(s0) && folder.Linked()
      requires fuel == height - folder.depth && before == Abs(folder)
      modifies folder`selected
      ensures folder.selected == b
      ensures Abs(folder) == before.(selected := b)
    {
      assert before == View(s0, folder, fuel);
      folder.selected := b;
      ghost var s1 := Snap();
      assert forall m :: m in s0 && m != folder ==> m in s1 && s1[m] == s0[m];
      ViewOwnFlag(s0, s1, folder, fuel, b);
    }

    /** `ValidateSelection()`: with `ignoreEmptyFolders` set, the whole selection is pruned; otherwise nothing changes. */
    method ValidateSelection()
      requires Valid()
      modifies this`nodes, nodes`children
      ensures Valid() && nodes <= old(nodes)
      ensures ignoreEmptyFolders ==> Abs(selectionRoot) == Prune(old(Abs(selectionRoot)))
      ensures ignoreEmptyFolders ==> NoEmptyFolder(DescendantsOf(Abs(selectionRoot).children))
      ensures !ignoreEmptyFolders ==> nodes == old(nodes) && unchanged(nodes)
    {
      if ignoreEmptyFolders {
        ghost var before := Abs(selectionRoot);
        RemoveEmptyFolders(selectionRoot);
        assert before.Folder? && Abs(selectionRoot).children == PruneOf(before.children);
        PruneLeavesNoEmptyFolder(before.children);
      }
    }

    /** The items of the tree within `n`: `n` and everything below it. */
    ghost function Subtree(n: AssetItem): set<AssetItem>
      reads this`nodes
    {
      set m | m in nodes && m.Within(n)
    }

    /**
     * The "Remove from selector" action: `asset.parent.children.Remove(asset)`,
     * then `ValidateSelection()`. The item and everything below it leave the
     * selection; with `ignoreEmptyFolders` set, so do the folders this left
     * empty, and no empty folder remains.
     */
    method RemoveFromSelector(asset: AssetItem)
      requires Valid() && asset in nodes && asset != selectionRoot
      modifies this`nodes, nodes`children
      ensures Valid() && nodes <= old(nodes) - old(Subtree(asset))
      ensures !ignoreEmptyFolders ==> nodes == old(nodes) - old(Subtree(asset))
      ensures !ignoreEmptyFolders ==>
                var cs, k := old(asset.parent.children), IndexOf(old(asset.parent.children), asset);
                0 <= k && asset.parent.children == cs[..k] + cs[k + 1..]
      ensures ignoreEmptyFolders ==> NoEmptyFolder(DescendantsOf(Abs(selectionRoot).children))
    {
      ghost var gone := Subtree(asset);
      ghost var parent, cs := asset.parent, asset.parent.children;
      var _ := Detach(asset);
      ValidateSelection();
    }

    /**
     * `asset.parent.children.Remove(asset)`: `List.Remove` takes out the
     * first occurrence, the only one in a valid tree. The other children
     * keep their order, the parent's value loses exactly that child, and
     * everything within `asset` leaves the tree.
     */
    method Detach(asset: AssetItem) returns (index: int)
      requires Valid() && asset in nodes && asset != selectionRoot
      modifies this`nodes, asset.parent`children
      ensures Valid() && nodes == old(nodes) - old(Subtree(asset))
      ensures index == IndexOf(old(asset.parent.children), asset) && 0 <= index
      ensures asset.parent.children == old(asset.parent.children)[..index] + old(asset.parent.children)[index + 1..]
      ensures old(Abs(asset.parent)).Folder? && index < |old(Abs(asset.parent)).children|
      ensures Abs(asset.parent) == WithoutChild(old(Abs(asset.parent)), index)
    {
      var parent := asset.parent;
      assert asset in parent.children;
      index := IndexOf(parent.children, asset);
      RemoveAt(parent, index);
    }

    /**
     * `parent.children.RemoveAt(k)`: the tree stays valid without child `k`
     * and what lies within it, and the parent's value loses that child.
     */
    method RemoveAt(parent: AssetItem, k: int)
      requires Valid() && parent in nodes && 0 <= k < |parent.children|
      modifies this`nodes, parent`children
      ensures Valid() && nodes == old(nodes) - old(Subtree(parent.children[k])) && parent in nodes
      ensures parent.children == old(parent.children)[..k] + old(parent.children)[k + 1..]
      ensures old(Abs(parent)).Folder? && k < |old(Abs(parent)).children|
      ensures Abs(parent) == WithoutChild(old(Abs(parent)), k)
    {
      ghost var s1 := Snap();
      ghost var fuel := height - parent.depth;
      ghost var before := Abs(parent);
      var cs := parent.children;
      assert Distinct(cs) && ChildLinked(s1) && parent.Linked() by {
        ChildrenDistinct(this, parent);
        SnapLinked(this);
        LinkedInTree(this, parent);
      }
      assert before == View(s1, parent, fuel) && fuel > 0 by {
        assert cs[k] in parent.children && cs[k].depth <= height;
      }
      DetachAt(parent, k, s1);
      ghost var s2 := Snap();
      assert View(s2, parent, fuel) == WithoutChild(before, k) by {
        DetachView(s1, s2, parent, cs, k, fuel);
      }
    }

    /** The tree half of `RemoveAt`: the tree stays valid, and the snapshot changes only at `parent` and within the removed child. */
    method DetachAt(parent: AssetItem, k: int, ghost s1: Snapshot)
      requires Valid() && parent in nodes && 0 <= k < |parent.children| && s1 == Snap()
      modifies this`nodes, parent`children
      ensures Valid() && nodes == old(nodes) - old(Subtree(parent.children[k])) && parent in nodes
      ensures parent.children == old(parent.children)[..k] + old(parent.children)[k + 1..]
      ensures parent in Snap() && Snap()[parent] == s1[parent].(children := parent.children)
      ensures SameExcept(s1, Snap(), parent, old(parent.children)[k])
    {
      var cs := parent.children;
      assert Distinct(cs) by {
        ChildrenDistinct(this, parent);
      }
      assert LinkedAll() by {
        forall m | m in nodes ensures m.Linked() {
          LinkedInTree(this, m);
        }
      }
      assert SortedChildren(parent);
      assert !parent.Within(cs[k]) by {
        assert cs[k] in parent.children;
      }
      RemoveChild(parent, k, Subtree(cs[k]));
      assert SortedChildren(parent) by {
        RemoveKeepsSorted(compare, NamesOf(cs), k);
        assert NamesOf(cs[..k] + cs[k + 1..]) == NamesOf(cs)[..k] + NamesOf(cs)[k + 1..];
      }
      forall m | m in nodes ensures SortedChildren(m) {
        assert m in old(nodes) && old(SortedChildren(m));
      }
      assert SameExcept(s1, Snap(), parent, cs[k]) by {
        forall m | m in s1 && m != parent && !m.Within(cs[k])
          ensures m in nodes && StateIn(s1, m) == ItemState(m.children, m.selected, m.foldout)
        {
          assert m in old(nodes);
        }
        SnapExcept(this, s1, parent, cs[k]);
      }
    }

    /** Every item of the tree reaches the root through its chain of parents. */
    ghost predicate LinkedAll()
      reads this`nodes
    {
      forall m :: m in nodes ==> m.Linked()
    }

    /** The shape half of `Detach`: child `k` of `parent`, and everything within it, leave the tree. */
    method RemoveChild(parent: AssetItem, k: int, ghost gone: set<AssetItem>)
      requires Tree() && LinkedAll() && parent in nodes && 0 <= k < |parent.children| && Distinct(parent.children)
      requires gone == Subtree(parent.children[k])
      modifies this`nodes, parent`children
      ensures Tree() && LinkedAll() && nodes == old(nodes) - gone
      ensures parent.children == old(parent.children)[..k] + old(parent.children)[k + 1..]
    {
      var cs := parent.children;
      ghost var a := cs[k];
      assert a in parent.children && a.Within(a);
      parent.children := cs[..k] + cs[k + 1..];
      nodes := nodes - gone;
      forall m | m in nodes && m != selectionRoot
        ensures m.parent in nodes && m in m.parent.children && m.depth == m.parent.depth + 1
      {
        assert m in old(nodes) && m.Linked();
        if m.parent.Within(a) {
          ChildWithin(m);
          WithinTrans(m, m.parent, a);
        }
        if m.parent == parent {
          assert m in cs;
          var j :| 0 <= j < |cs| && cs[j] == m;
          if j < k {
            assert m == parent.children[j];
          } else {
            assert m == parent.children[j - 1];
          }
        }
      }
      forall m, c {:trigger c in m.children} | m in nodes && c in m.children
        ensures c in nodes && c != selectionRoot && c.parent == m && c.depth == m.depth + 1
      {
        if m == parent {
          var j :| 0 <= j < |parent.children| && parent.children[j] == c;
          var i := if j < k then j else j + 1;
          assert c == cs[i] && c in cs && i != k;
          SameLevel(c, c, a);
        } else {
          assert m in old(nodes) && c in old(m.children);
          if c.Within(a) {
            WithinParent(c, a);
          }
        }
      }
    }

    /** The item `n` and everything below it, as a value. */
    ghost function Abs(n: AssetItem): Item
      requires n in nodes && n.depth <= height
      reads this, nodes
    {
      View(Snap(), n, height - n.depth)
    }
  }

  /** What `List.Insert(p, x)` leaves in a list: `x` and what was there. */
  lemma InsertMembers<T>(cs: seq<T>, p: int, x: T)
    requires 0 <= p <= |cs|
    ensures forall c :: c in cs[..p] + [x] + cs[p..] <==> c == x || c in cs
  {
    assert cs == cs[..p] + cs[p..];
  }

  /** Inserting an item at the insertion point of its name keeps a list of children sorted. */
  lemma InsertedNamesSorted(compare: Comparator, cs: seq<AssetItem>, p: int, item: AssetItem)
    requires IsTotalOrder(compare) && StrictlySorted(compare, NamesOf(cs))
    requires InsertionPoint(compare, NamesOf(cs), item.name, p)
    ensures StrictlySorted(compare, NamesOf(cs[..p] + [item] + cs[p..]))
  {
    InsertKeepsSorted(compare, NamesOf(cs), item.name, p);
    assert NamesOf(cs[..p] + [item] + cs[p..]) == NamesOf(cs)[..p] + [item.name] + NamesOf(cs)[p..];
  }

  /**
   * Adding the folder that holds `path` and that folder's own ancestors adds
   * exactly the ancestors of `path`.
   */
  lemma AddAncestors(before: set<string>, after: set<string>, path: string)
    requires if HasParentPath(path)
             then after == before + ({ParentPath(path)} + AncestorSet(ParentPath(path)))
             else after == before
    ensures after == before + AncestorSet(path)
  {
  }

  /** The paths of the items of `ns` other than `root`. */
  ghost function PathsIn(ns: set<AssetItem>, root: AssetItem): set<string> {
    set m | m in ns && m != root :: m.path
  }

  /** Fewer items, fewer paths. */
  lemma PathsInMono(a: set<AssetItem>, b: set<AssetItem>, root: AssetItem)
    requires a <= b
    ensures PathsIn(a, root) <= PathsIn(b, root)
  {
  }

  /** Two rounds of insertion: what each may add, added up. */
  lemma AddUp<T>(start: set<T>, first: set<T>, second: set<T>, mid: set<T>, end: set<T>, pruned: bool)
    requires mid <= start + first && (!pruned ==> mid == start + first)
    requires end <= mid + second && (!pruned ==> end == mid + second)
    ensures end <= start + (first + second) && (!pruned ==> end == start + (first + second))
  {
  }

  /** One more item contributes its path. */
  lemma PathsInAdd(ns: set<AssetItem>, root: AssetItem, x: AssetItem)
    requires x != root
    ensures PathsIn(ns + {x}, root) == PathsIn(ns, root) + {x.path}
  {
  }

  /** The paths of the folders above `path`, as a set. */
  function AncestorSet(path: string): set<string> {
    set a | a in Ancestors(path)
  }

  /** No two items of a valid tree share a path. */
  lemma {:induction false} PathsUnique(w: InteractiveAssetSelector, a: AssetItem, b: AssetItem)
    requires w.Valid() && a in w.nodes && b in w.nodes && a != w.selectionRoot && b != w.selectionRoot
    requires a.path == b.path
    ensures a == b
    decreases |a.path|
  {
    assert w.Placed(a) && w.Placed(b);
    if HasParentPath(a.path) {
      PathsUnique(w, a.parent, b.parent);
    }
    var parent := a.parent;
    var i :| 0 <= i < |parent.children| && parent.children[i] == a;
    var j :| 0 <= j < |parent.children| && parent.children[j] == b;
    assert w.SortedChildren(parent);
    SortedNamesDistinct(w.compare, NamesOf(parent.children), i, j);
  }

  /** A child named `Name(path)` of the item that holds `path` is the item for `path`. */
  lemma {:induction false} ChildPath(w: InteractiveAssetSelector, parent: AssetItem, c: AssetItem, path: string)
    requires w.Valid() && parent in w.nodes && c in parent.children && c.name == Name(path)
    requires if HasParentPath(path) then parent != w.selectionRoot && parent.path == ParentPath(path)
             else parent == w.selectionRoot
    ensures c.path == path
  {
    assert c in w.nodes && c != w.selectionRoot && w.Placed(c);
    if HasParentPath(c.path) {
      SplitPath(c.path);
      SplitPath(path);
    }
  }

  /** The item for `path`, if there is one, is a child of the item that holds `path`. */
  lemma {:induction false} FoundUnderParent(w: InteractiveAssetSelector, parent: AssetItem, m: AssetItem, path: string)
    requires w.Valid() && parent in w.nodes && m in w.nodes && m != w.selectionRoot && m.path == path
    requires if HasParentPath(path) then parent != w.selectionRoot && parent.path == ParentPath(path)
             else parent == w.selectionRoot
    ensures m in parent.children && m.name == Name(path)
  {
    assert w.Placed(m);
    if HasParentPath(path) {
      PathsUnique(w, m.parent, parent);
    }
  }

  /** When the search under the folder that holds `path` finds no child of that name, no item has `path`. */
  lemma {:induction false} NotFoundAbsent(w: InteractiveAssetSelector, parent: AssetItem, path: string, p: int)
    requires w.Valid() && parent in w.nodes
    requires if HasParentPath(path) then parent != w.selectionRoot && parent.path == ParentPath(path)
             else parent == w.selectionRoot
    requires InsertionPoint(w.compare, NamesOf(parent.children), Name(path), p)
    ensures path !in w.Paths()
  {
    if path in w.Paths() {
      var m :| m in w.nodes && m != w.selectionRoot && m.path == path;
      FoundUnderParent(w, parent, m, path);
    }
  }

  /** The folders above an item's path are all in the tree. */
  lemma {:induction false} AncestorsPresent(w: InteractiveAssetSelector, m: AssetItem)
    requires w.Valid() && m in w.nodes && m != w.selectionRoot
    ensures AncestorSet(m.path) <= w.Paths()
    decreases m.depth
  {
    assert w.Placed(m);
    if HasParentPath(m.path) {
      AncestorsPresent(w, m.parent);
      assert m.parent in w.nodes;
    }
  }

  /** Every item of the tree reaches the root through its chain of parents. */
  lemma {:induction false} LinkedInTree(w: InteractiveAssetSelector, m: AssetItem)
    requires w.Tree() && m in w.nodes
    ensures m.Linked()
    decreases m.depth
  {
    if m != w.selectionRoot {
      LinkedInTree(w, m.parent);
    }
  }

  /** The ancestors of an item of the tree are items of the tree. */
  lemma {:induction false} AncestorInNodes(w: InteractiveAssetSelector, m: AssetItem, d: nat)
    requires w.Tree() && m in w.nodes && d <= m.depth
    ensures m.Linked() && m.AncestorAt(d) in w.nodes
    decreases m.depth
  {
    LinkedInTree(w, m);
    if d < m.depth {
      AncestorInNodes(w, m.parent, d);
    }
  }

  /** An item strictly below `n` is reached through one of `n`'s children. */
  lemma ChildOnPath(w: InteractiveAssetSelector, n: AssetItem, m: AssetItem)
    requires w.Tree() && n in w.nodes && m in w.nodes && m.Below(n)
    ensures m.AncestorAt(n.depth + 1) in n.children
  {
    var a := m.AncestorAt(n.depth + 1);
    AncestorInNodes(w, m, n.depth + 1);
    AncestorParent(m, n.depth + 1);
    assert a.parent == n;
    assert a != w.selectionRoot;
  }

  /** One level of `Abs`: an item's own fields, and the values of its children in order. */
  lemma AbsUnfold(w: InteractiveAssetSelector, n: AssetItem)
    requires w.Tree() && n in w.nodes
    ensures w.Abs(n).path == n.path && w.Abs(n).name == n.name && w.Abs(n).selected == n.selected
    ensures w.Abs(n).Folder? == n.isFolder
    ensures n.isFolder ==> w.Abs(n).foldout == n.foldout && |w.Abs(n).children| == |n.children|
    ensures forall i :: 0 <= i < |n.children| ==>
              n.children[i] in w.nodes && n.children[i].parent == n && n.children[i].depth == n.depth + 1
    ensures n.isFolder ==> forall i :: 0 <= i < |n.children| ==> w.Abs(n).children[i] == w.Abs(n.children[i])
  {
    forall i | 0 <= i < |n.children|
      ensures n.children[i] in w.nodes && n.children[i].parent == n && n.children[i].depth == n.depth + 1
    {
      assert n.children[i] in n.children;
    }
    if n.isFolder && n.children != [] {
      assert n.children[0] in w.nodes;
      assert n.depth < w.height;
      ViewOfIndex(w.Snap(), n.children, w.height - n.depth - 1);
    }
  }

  /** What lies within a child `c` is exactly what lies below its parent on `c`'s side. */
  lemma WithinChildIff(c: AssetItem)
    requires c.Linked() && c.parent != null
    ensures forall m: AssetItem :: m.Within(c) <==> m.Below(c.parent) && m.AncestorAt(c.depth) == c
  {
    ChildWithin(c);
    forall m: AssetItem | m.Within(c) ensures m.Below(c.parent) {
      WithinTrans(m, c, c.parent);
    }
  }

  /** `m` lies below `top`, inside one of the items `cs`, which are meant to be children of `top`. */
  ghost predicate UnderSome(m: AssetItem, top: AssetItem, cs: seq<AssetItem>) {
    m.Below(top) && m.AncestorAt(top.depth + 1) in cs
  }

  /** Taking one more child `cs[i]` of `top` adds exactly what lies within it. */
  lemma UnderSomeStep(top: AssetItem, cs: seq<AssetItem>, i: int)
    requires 0 <= i < |cs| && cs[i].Linked() && cs[i].parent == top
    ensures forall m: AssetItem :: UnderSome(m, top, cs[..i + 1]) <==> UnderSome(m, top, cs[..i]) || m.Within(cs[i])
  {
    WithinChildIff(cs[i]);
    assert cs[..i + 1] == cs[..i] + [cs[i]];
  }

  /** The snapshot of a tree records its parent/child links. */
  lemma SnapLinked(w: InteractiveAssetSelector)
    requires w.Tree()
    ensures ChildLinked(w.Snap())
  {
  }

  /** `View(s, n, fuel)` depends only on what `s` records for the items within `n`. */
  lemma {:induction false} ViewFrame(s1: Snapshot, s2: Snapshot, n: AssetItem, fuel: nat)
    requires ChildLinked(s1) && n in s1 && n.Linked()
    requires forall m {:trigger m.Within(n)} :: m in s1 && m.Within(n) ==> m in s2 && s2[m] == s1[m]
    ensures View(s2, n, fuel) == View(s1, n, fuel)
    decreases fuel, 0
  {
    assert n.Within(n);
    var st := s1[n];
    if n.isFolder && fuel > 0 {
      var v1, v2 := ViewOf(s1, st.children, fuel - 1), ViewOf(s2, st.children, fuel - 1);
      assert v2 == v1 by {
        ViewOfFrame(s1, s2, n, fuel - 1);
      }
      assert View(s1, n, fuel) == Folder(n.path, n.name, st.selected, st.foldout, v1);
      assert View(s2, n, fuel) == Folder(n.path, n.name, st.selected, st.foldout, v2);
    }
  }

  /** The children of `n` show the same in both snapshots. */
  lemma {:induction false} ViewOfFrame(s1: Snapshot, s2: Snapshot, n: AssetItem, fuel: nat)
    requires ChildLinked(s1) && n in s1 && n.Linked()
    requires forall m {:trigger m.Within(n)} :: m in s1 && m.Within(n) ==> m in s2 && s2[m] == s1[m]
    ensures ViewOf(s2, s1[n].children, fuel) == ViewOf(s1, s1[n].children, fuel)
    decreases fuel, 1
  {
    var cs := s1[n].children;
    var v1, v2 := ViewOf(s1, cs, fuel), ViewOf(s2, cs, fuel);
    forall i | 0 <= i < |cs| ensures v2[i] == v1[i] {
      ViewOfAt(s1, cs, fuel, i);
      ViewOfAt(s2, cs, fuel, i);
      ChildFrame(s1, s2, n, cs[i]);
      ViewFrame(s1, s2, cs[i], fuel);
    }
  }

  /** What the snapshots agree on within `n`, they agree on within each child of `n`. */
  lemma {:induction false} ChildFrame(s1: Snapshot, s2: Snapshot, n: AssetItem, c: AssetItem)
    requires ChildLinked(s1) && n in s1 && n.Linked() && c in s1[n].children
    requires forall m {:trigger m.Within(n)} :: m in s1 && m.Within(n) ==> m in s2 && s2[m] == s1[m]
    ensures c in s1 && c.Linked()
    ensures forall m {:trigger m.Within(c)} :: m in s1 && m.Within(c) ==> m in s2 && s2[m] == s1[m]
  {
    ChildWithin(c);
    forall m: AssetItem | m.Within(c) ensures m.Within(n) {
      WithinTrans(m, c, n);
    }
  }

  /** `s2` is `s1` with every flag strictly below `top` set to `v`, and nothing else changed. */
  ghost predicate FlagsSetBelow(s1: Snapshot, s2: Snapshot, top: AssetItem, v: bool) {
    forall m :: m in s1 ==>
      && m in s2 && s2[m].children == s1[m].children && s2[m].foldout == s1[m].foldout
      && s2[m].selected == (if m.Below(top) then v else s1[m].selected)
  }

  lemma {:induction false} ViewSetAll(s1: Snapshot, s2: Snapshot, top: AssetItem, n: AssetItem, v: bool, fuel: nat)
    requires ChildLinked(s1) && n in s1 && n.Linked() && n.Below(top)
    requires FlagsSetBelow(s1, s2, top, v)
    ensures View(s2, n, fuel) == SetAll(View(s1, n, fuel), v)
    decreases fuel, 0
  {
    var st1, st2 := s1[n], s2[n];
    assert st2 == ItemState(st1.children, v, st1.foldout);
    if n.isFolder {
      var kids1 := if fuel == 0 then [] else ViewOf(s1, st1.children, fuel - 1);
      var kids2 := if fuel == 0 then [] else ViewOf(s2, st1.children, fuel - 1);
      if fuel > 0 {
        forall c | c in st1.children ensures c in s1 && c.Linked() && c.Below(top) {
          ChildWithin(c);
          WithinTrans(c, n, top);
        }
        ViewOfSetAll(s1, s2, top, st1.children, v, fuel - 1);
      }
      assert kids2 == SetAllOf(kids1, v);
      assert View(s1, n, fuel) == Folder(n.path, n.name, st1.selected, st1.foldout, kids1);
      assert View(s2, n, fuel) == Folder(n.path, n.name, v, st1.foldout, kids2);
    }
  }

  lemma {:induction false} ViewOfSetAll(s1: Snapshot, s2: Snapshot, top: AssetItem, cs: seq<AssetItem>, v: bool, fuel: nat)
    requires ChildLinked(s1) && FlagsSetBelow(s1, s2, top, v)
    requires forall c :: c in cs ==> c in s1 && c.Linked() && c.Below(top)
    ensures ViewOf(s2, cs, fuel) == SetAllOf(ViewOf(s1, cs, fuel), v)
    decreases fuel, 1
  {
    ViewOfIndex(s1, cs, fuel);
    ViewOfIndex(s2, cs, fuel);
    forall i | 0 <= i < |cs| ensures View(s2, cs[i], fuel) == SetAll(View(s1, cs[i], fuel), v) {
      ViewSetAll(s1, s2, top, cs[i], v, fuel);
    }
  }

  /** `ViewSetBelow` for the current heap of the window. */
  lemma {:induction false} AbsSetBelow(w: InteractiveAssetSelector, s0: Snapshot, top: AssetItem, v: bool, fuel: nat, before: Item)
    requires top in w.nodes && top.depth <= w.height && ChildLinked(s0) && top in s0 && top.Linked()
    requires FlagsSetBelow(s0, w.Snap(), top, v)
    requires fuel == w.height - top.depth && before == View(s0, top, fuel)
    ensures w.Abs(top) == SetBelow(before, v)
  {
    ViewSetBelow(s0, w.Snap(), top, v, fuel);
  }


  lemma {:induction false} ViewSetBelow(s1: Snapshot, s2: Snapshot, top: AssetItem, v: bool, fuel: nat)
    requires ChildLinked(s1) && top in s1 && top.Linked()
    requires FlagsSetBelow(s1, s2, top, v)
    ensures View(s2, top, fuel) == SetBelow(View(s1, top, fuel), v)
  {
    var st1, st2 := s1[top], s2[top];
    assert st2 == st1;
    if top.isFolder {
      var kids1 := if fuel == 0 then [] else ViewOf(s1, st1.children, fuel - 1);
      var kids2 := if fuel == 0 then [] else ViewOf(s2, st1.children, fuel - 1);
      if fuel > 0 {
        forall c | c in st1.children ensures c in s1 && c.Linked() && c.Below(top) {
          ChildWithin(c);
        }
        ViewOfSetAll(s1, s2, top, st1.children, v, fuel - 1);
      }
      assert kids2 == SetAllOf(kids1, v);
      assert View(s1, top, fuel) == Folder(top.path, top.name, st1.selected, st1.foldout, kids1);
      assert View(s2, top, fuel) == Folder(top.path, top.name, st1.selected, st1.foldout, kids2);
    }
  }

  /** In snapshot `s`, item `c` is a folder left without children: `RemoveAll` drops it. */
  ghost predicate Dropped(s: Snapshot, c: AssetItem)
  {
    c.isFolder && c in s && s[c].children == []
  }

  /** The items among the first `n` of `cs` that `RemoveAll` keeps in snapshot `s`, in order. */
  ghost function Survivors(s: Snapshot, cs: seq<AssetItem>, n: nat): seq<AssetItem>
    requires n <= |cs|
    decreases n
  {
    if n == 0 then [] else Survivors(s, cs, n - 1) + (if Dropped(s, cs[n - 1]) then [] else [cs[n - 1]])
  }

  /** Every survivor is one of the first `n` items. */
  lemma {:induction false} SurvivorsIn(s: Snapshot, cs: seq<AssetItem>, n: nat)
    requires n <= |cs|
    ensures forall c :: c in Survivors(s, cs, n) ==> c in cs[..n]
    decreases n
  {
    if n > 0 {
      SurvivorsIn(s, cs, n - 1);
      assert cs[..n] == cs[..n - 1] + [cs[n - 1]];
    }
  }

  /** Every one of the first `n` items that does not survive is dropped. */
  lemma {:induction false} SurvivorsDropped(s: Snapshot, cs: seq<AssetItem>, n: nat)
    requires n <= |cs|
    ensures forall j :: 0 <= j < n && cs[j] !in Survivors(s, cs, n) ==> Dropped(s, cs[j])
    decreases n
  {
    if n > 0 {
      SurvivorsDropped(s, cs, n - 1);
    }
  }

  /** The survivors of a whole list are among its items, and the items that do not survive are dropped. */
  lemma SurvivorsAll(s: Snapshot, cs: seq<AssetItem>)
    ensures forall c :: c in Survivors(s, cs, |cs|) ==> c in cs
    ensures forall c :: c in cs && c !in Survivors(s, cs, |cs|) ==> Dropped(s, c)
  {
    SurvivorsIn(s, cs, |cs|);
    SurvivorsDropped(s, cs, |cs|);
    assert cs[..|cs|] == cs;
    forall c | c in cs && c !in Survivors(s, cs, |cs|) ensures Dropped(s, c) {
      var j :| 0 <= j < |cs| && cs[j] == c;
    }
  }

  /** Survivors depend only on the states of the items themselves. */
  lemma {:induction false} SurvivorsFrame(s1: Snapshot, s2: Snapshot, cs: seq<AssetItem>, n: nat)
    requires n <= |cs|
    requires forall j :: 0 <= j < n ==> cs[j] in s1 && cs[j] in s2 && s2[cs[j]] == s1[cs[j]]
    ensures Survivors(s2, cs, n) == Survivors(s1, cs, n)
    decreases n
  {
    if n > 0 {
      SurvivorsFrame(s1, s2, cs, n - 1);
    }
  }

  /** The names of the views of `cs` are the names of `cs`. */
  lemma NamesOfView(s: Snapshot, cs: seq<AssetItem>, fuel: nat)
    ensures Names(ViewOf(s, cs, fuel)) == NamesOf(cs)
  {
    ViewOfIndex(s, cs, fuel);
    forall i | 0 <= i < |cs| ensures Names(ViewOf(s, cs, fuel))[i] == NamesOf(cs)[i] {
      assert ViewOf(s, cs, fuel)[i] == View(s, cs[i], fuel);
    }
  }

  /** The children that `RemoveAll` keeps are still strictly sorted by name. */
  lemma SurvivorsSorted(compare: Comparator, s0: Snapshot, s1: Snapshot, cs: seq<AssetItem>, kept: seq<AssetItem>, fuel: nat)
    requires StrictlySorted(compare, NamesOf(cs)) && forall c :: c in kept ==> c in cs
    requires fuel == 0 ==> cs == []
    requires fuel > 0 ==> ViewOf(s1, kept, fuel - 1) == PruneOf(ViewOf(s0, cs, fuel - 1))
    ensures StrictlySorted(compare, NamesOf(kept))
  {
    if fuel > 0 {
      var v0 := ViewOf(s0, cs, fuel - 1);
      assert StrictlySorted(compare, Names(v0)) by {
        NamesOfView(s0, cs, fuel - 1);
      }
      PruneKeepsSorted(compare, v0);
      assert NamesOf(kept) == Names(PruneOf(v0)) by {
        NamesOfView(s1, kept, fuel - 1);
      }
    } else {
      EmptyBelowEmpty(kept, cs);
    }
  }

  /** Only the empty list has all its elements in the empty list. */
  lemma EmptyBelowEmpty<T>(a: seq<T>, b: seq<T>)
    requires forall x :: x in a ==> x in b
    ensures b == [] ==> a == []
  {
    if a != [] {
      assert a[0] in b;
    }
  }

  /**
   * Once the kept children replace the old ones and the dropped ones are
   * gone, `folder` shows as its former self with `RemoveAll` applied.
   */
  lemma PruneCommitView(s0: Snapshot, s1: Snapshot, s2: Snapshot, folder: AssetItem, cs: seq<AssetItem>,
                        kept: seq<AssetItem>, fuel: nat)
    requires ChildLinked(s1) && folder in s1 && s1[folder].children == cs && folder.Linked() && folder.isFolder
    requires folder in s0 && s0[folder] == s1[folder]
    requires folder in s2 && s2[folder] == s1[folder].(children := kept)
    requires forall m :: m in s1 && m != folder && (m !in cs || m in kept) ==> m in s2 && s2[m] == s1[m]
    requires forall c :: c in kept ==> c in cs
    requires fuel == 0 ==> cs == []
    requires fuel > 0 ==> ViewOf(s1, kept, fuel - 1) == PruneOf(ViewOf(s0, cs, fuel - 1))
    ensures View(s2, folder, fuel) == Prune(View(s0, folder, fuel))
  {
    var st := s1[folder];
    if fuel > 0 {
      assert ViewOf(s2, kept, fuel - 1) == ViewOf(s1, kept, fuel - 1) by {
        KeptFrame(s1, s2, folder, cs, kept, fuel - 1);
      }
      assert View(s2, folder, fuel) == Folder(folder.path, folder.name, st.selected, st.foldout, ViewOf(s2, kept, fuel - 1));
      assert View(s0, folder, fuel) == Folder(folder.path, folder.name, st.selected, st.foldout, ViewOf(s0, cs, fuel - 1));
    } else {
      EmptyBelowEmpty(kept, cs);
      assert View(s2, folder, fuel) == Folder(folder.path, folder.name, st.selected, st.foldout, []);
      assert View(s0, folder, fuel) == Folder(folder.path, folder.name, st.selected, st.foldout, []);
    }
  }

  /** Items outside `folder` keep their state through pruning its children and dropping the empty ones. */
  lemma OutsideCommit(s0: Snapshot, s1: Snapshot, s2: Snapshot, folder: AssetItem, cs: seq<AssetItem>, kept: seq<AssetItem>)
    requires ChildLinked(s0) && folder in s0 && s0[folder].children == cs && folder.Linked()
    requires SameOutsideAll(s0, s1, folder, cs)
    requires forall m :: m in s1 && m != folder && (m !in cs || m in kept) ==> m in s2 && s2[m] == s1[m]
    ensures SameOutside(s0, s2, folder)
  {
    forall m {:trigger m.Within(folder)} | m in s0 && !m.Within(folder) ensures m in s2 && s2[m] == s0[m] {
      assert !UnderSome(m, folder, cs);
      assert m != folder by {
        assert folder.Within(folder);
      }
      assert m !in cs by {
        if m in cs {
          assert m in s0[folder].children;
          ChildWithin(m);
        }
      }
    }
  }

  /** The children kept show the same once the dropped ones are gone. */
  lemma KeptFrame(s1: Snapshot, s2: Snapshot, folder: AssetItem, cs: seq<AssetItem>, kept: seq<AssetItem>, fuel: nat)
    requires ChildLinked(s1) && folder in s1 && s1[folder].children == cs && folder.Linked()
    requires forall m :: m in s1 && m != folder && (m !in cs || m in kept) ==> m in s2 && s2[m] == s1[m]
    requires forall c :: c in kept ==> c in cs
    ensures ViewOf(s2, kept, fuel) == ViewOf(s1, kept, fuel)
  {
    forall k | 0 <= k < |kept| ensures View(s2, kept[k], fuel) == View(s1, kept[k], fuel) {
      KeptChildFrame(s1, s2, folder, cs, kept, kept[k], fuel);
    }
    ViewOfIndex(s1, kept, fuel);
    ViewOfIndex(s2, kept, fuel);
  }

  lemma KeptChildFrame(s1: Snapshot, s2: Snapshot, folder: AssetItem, cs: seq<AssetItem>,
                       kept: seq<AssetItem>, d: AssetItem, fuel: nat)
    requires ChildLinked(s1) && folder in s1 && s1[folder].children == cs && folder.Linked()
    requires forall m :: m in s1 && m != folder && (m !in cs || m in kept) ==> m in s2 && s2[m] == s1[m]
    requires d in kept && d in cs
    ensures View(s2, d, fuel) == View(s1, d, fuel)
  {
    assert d in s1[folder].children;
    forall m {:trigger m.Within(d)} | m in s1 && m.Within(d) ensures m in s2 && s2[m] == s1[m] {
      if m in cs {
        assert m in s1[folder].children;
        SameLevel(m, m, d);
      }
    }
    ViewFrame(s1, s2, d, fuel);
  }

  /** No item occurs twice in `cs`. */
  ghost predicate Distinct(cs: seq<AssetItem>)
  {
    forall j, k :: 0 <= j < k < |cs| ==> cs[j] != cs[k]
  }

  /** The children of a folder of a valid tree are distinct items: their names are. */
  lemma ChildrenDistinct(w: InteractiveAssetSelector, n: AssetItem)
    requires w.Valid() && n in w.nodes
    ensures Distinct(n.children)
  {
    assert w.SortedChildren(n);
    forall i, j | 0 <= i < j < |n.children| ensures n.children[i] != n.children[j] {
      assert w.compare(NamesOf(n.children)[i], NamesOf(n.children)[j]) < 0;
    }
  }

  /** Two items on one level with something within both are the same item. */
  lemma SameLevel(m: AssetItem, a: AssetItem, b: AssetItem)
    ensures m.Within(a) && m.Within(b) && a.depth == b.depth ==> a == b
  {
  }

  /** `s2` agrees with `s1` on every item of `s1` other than `p` and those within `c`. */
  ghost predicate SameExcept(s1: Snapshot, s2: Snapshot, p: AssetItem, c: AssetItem) {
    forall m {:trigger m.Within(c)} :: m in s1 && m != p && !m.Within(c) ==> m in s2 && s2[m] == s1[m]
  }

  /** A method that changes nothing but `p` and what lies within `c` leaves the rest of the snapshot as it was. */
  lemma SnapExcept(w: InteractiveAssetSelector, s1: Snapshot, p: AssetItem, c: AssetItem)
    requires forall m :: m in s1 && m != p && !m.Within(c) ==>
               m in w.nodes && StateIn(s1, m) == ItemState(m.children, m.selected, m.foldout)
    ensures SameExcept(s1, w.Snap(), p, c)
  {
  }

  /** `s2` agrees with `s1` on every item of `s1` that is not within `c`. */
  ghost predicate SameOutside(s1: Snapshot, s2: Snapshot, c: AssetItem) {
    forall m {:trigger m.Within(c)} :: m in s1 && !m.Within(c) ==> m in s2 && s2[m] == s1[m]
  }

  /** `s2` agrees with `s1` on every item of `s1` that is not under one of `cs`, children of `top`. */
  ghost predicate SameOutsideAll(s1: Snapshot, s2: Snapshot, top: AssetItem, cs: seq<AssetItem>) {
    forall m {:trigger UnderSome(m, top, cs)} :: m in s1 && !UnderSome(m, top, cs) ==> m in s2 && s2[m] == s1[m]
  }

  /**
   * Before child `cs[i]` of `top` is pruned, nothing within it has changed
   * since the loop began.
   */
  lemma PruneStepBefore(w: InteractiveAssetSelector, s0: Snapshot, top: AssetItem, cs: seq<AssetItem>, i: int, fuel: nat)
    requires w.Tree() && top in w.nodes && top.children == cs && 0 <= i < |cs|
    requires ChildLinked(s0) && top in s0 && s0[top].children == cs && top.Linked()
    requires Distinct(cs)
    requires SameOutsideAll(s0, w.Snap(), top, cs[..i])
    requires fuel == w.height - top.depth
    ensures fuel > 0 && View(w.Snap(), cs[i], fuel - 1) == View(s0, cs[i], fuel - 1)
  {
    var c := cs[i];
    assert c in s0[top].children;
    assert c in top.children;
    ChildWithin(c);
    forall m {:trigger m.Within(c)} | m in s0 && m.Within(c) ensures m in w.Snap() && w.Snap()[m] == s0[m] {
      assert m.AncestorAt(top.depth + 1) == c;
      assert !UnderSome(m, top, cs[..i]);
    }
    ViewFrame(s0, w.Snap(), c, fuel - 1);
  }
  /**
   * After child `cs[i]` of `top` has been pruned: the children kept so far
   * still show as before, and the loop's record of what is done grows by
   * `cs[i]`, kept exactly when it is not an empty folder.
   */
  lemma PruneStepAfter(s0: Snapshot, s1: Snapshot, s2: Snapshot, top: AssetItem, cs: seq<AssetItem>,
                       kept: seq<AssetItem>, i: int, fuel: nat, before: Item, after: Item, keep: bool, next: seq<AssetItem>)
    requires 0 <= i < |cs|
    requires ChildLinked(s0) && top in s0 && s0[top].children == cs && top.Linked() && ChildLinked(s1)
    requires Distinct(cs)
    requires SameOutsideAll(s0, s1, top, cs[..i]) && SameOutside(s1, s2, cs[i])
    requires kept == Survivors(s1, cs, i)
    requires ViewOf(s1, kept, fuel) == PruneOf(ViewOf(s0, cs[..i], fuel))
    requires before == View(s0, cs[i], fuel) && after == View(s2, cs[i], fuel) && after == Prune(before)
    requires keep <==> !IsEmptyFolder(after)
    requires keep <==> !Dropped(s2, cs[i])
    requires next == if keep then kept + [cs[i]] else kept
    ensures SameOutsideAll(s0, s2, top, cs[..i + 1])
    ensures next == Survivors(s2, cs, i + 1)
    ensures ViewOf(s2, next, fuel) == PruneOf(ViewOf(s0, cs[..i + 1], fuel))
  {
    assert top in s1 && s1[top] == s0[top] by {
      assert !UnderSome(top, top, cs[..i]);
    }
    OutsideAllStep(s0, s1, s2, top, cs, i);
    KeptUnchanged(s1, s2, top, cs, kept, i, fuel);
    PruneSnoc(s0, s2, cs, kept, i, fuel);
  }

  /** What is unchanged outside `cs[..i]` and then outside `cs[i]` is unchanged outside `cs[..i + 1]`. */
  lemma OutsideAllStep(s0: Snapshot, s1: Snapshot, s2: Snapshot, top: AssetItem, cs: seq<AssetItem>, i: int)
    requires 0 <= i < |cs| && ChildLinked(s0) && top in s0 && s0[top].children == cs && top.Linked()
    requires SameOutsideAll(s0, s1, top, cs[..i]) && SameOutside(s1, s2, cs[i])
    ensures SameOutsideAll(s0, s2, top, cs[..i + 1])
  {
    assert cs[i] in s0[top].children;
    UnderSomeStep(top, cs, i);
    forall m {:trigger UnderSome(m, top, cs[..i + 1])} | m in s0 && !UnderSome(m, top, cs[..i + 1])
      ensures m in s2 && s2[m] == s0[m]
    {
      assert !UnderSome(m, top, cs[..i]) && !m.Within(cs[i]);
    }
  }

  /** Pruning `cs[i]` does not change how the children kept before it show. */
  lemma KeptUnchanged(s1: Snapshot, s2: Snapshot, top: AssetItem, cs: seq<AssetItem>,
                      kept: seq<AssetItem>, i: int, fuel: nat)
    requires 0 <= i < |cs| && ChildLinked(s1) && top in s1 && s1[top].children == cs && top.Linked()
    requires Distinct(cs)
    requires SameOutside(s1, s2, cs[i])
    requires kept == Survivors(s1, cs, i)
    ensures ViewOf(s2, kept, fuel) == ViewOf(s1, kept, fuel)
    ensures Survivors(s2, cs, i) == kept
  {
    var c := cs[i];
    assert c in s1[top].children;
    forall j | 0 <= j < i ensures cs[j] in s1 && cs[j] in s2 && s2[cs[j]] == s1[cs[j]] {
      assert cs[j] in s1[top].children;
      assert cs[j] != c;
      SameLevel(cs[j], c, cs[j]);
    }
    SurvivorsFrame(s1, s2, cs, i);
    SurvivorsIn(s1, cs, i);
    forall k | 0 <= k < |kept| ensures View(s2, kept[k], fuel) == View(s1, kept[k], fuel) {
      var d := kept[k];
      assert d in cs[..i];
      assert d in s1[top].children;
      assert d != c;
      forall m {:trigger m.Within(d)} | m in s1 && m.Within(d) ensures m in s2 && s2[m] == s1[m] {
        SameLevel(m, c, d);
      }
      ViewFrame(s1, s2, d, fuel);
    }
    ViewOfIndex(s1, kept, fuel);
    ViewOfIndex(s2, kept, fuel);
  }

  /** The pruned views of `cs[..i + 1]`: those of `cs[..i]`, then `cs[i]`'s unless it is an empty folder. */
  lemma PruneSnoc(s0: Snapshot, s2: Snapshot, cs: seq<AssetItem>, kept: seq<AssetItem>, i: int, fuel: nat)
    requires 0 <= i < |cs|
    requires ViewOf(s2, kept, fuel) == PruneOf(ViewOf(s0, cs[..i], fuel))
    requires View(s2, cs[i], fuel) == Prune(View(s0, cs[i], fuel))
    ensures ViewOf(s2, if IsEmptyFolder(View(s2, cs[i], fuel)) then kept else kept + [cs[i]], fuel)
            == PruneOf(ViewOf(s0, cs[..i + 1], fuel))
  {
    var prefix := ViewOf(s0, cs[..i], fuel);
    assert cs[..i + 1][..i] == cs[..i];
    assert ViewOf(s0, cs[..i + 1], fuel) == prefix + [View(s0, cs[i], fuel)];
    assert (prefix + [View(s0, cs[i], fuel)])[..|prefix|] == prefix;
    if !IsEmptyFolder(View(s2, cs[i], fuel)) {
      assert (kept + [cs[i]])[..|kept|] == kept;
    }
  }

  /** Changing flags alone keeps every recorded child linked. */
  lemma ChildLinkedFlags(s1: Snapshot, s2: Snapshot)
    requires ChildLinked(s1)
    requires forall m :: m in s1 ==> m in s2 && s2[m].children == s1[m].children
    requires forall m :: m in s2 ==> m in s1
    ensures ChildLinked(s2)
  {
  }

  /** Changing only the flag of `n` changes only the flag of its view. */
  lemma {:induction false} ViewOwnFlag(s1: Snapshot, s2: Snapshot, n: AssetItem, fuel: nat, b: bool)
    requires ChildLinked(s1) && n in s1 && n.Linked()
    requires n in s2 && s2[n] == s1[n].(selected := b)
    requires forall m :: m in s1 && m != n ==> m in s2 && s2[m] == s1[m]
    ensures View(s2, n, fuel) == View(s1, n, fuel).(selected := b)
  {
    var st := s1[n];
    if n.isFolder && fuel > 0 {
      var cs := st.children;
      var v1, v2 := ViewOf(s1, cs, fuel - 1), ViewOf(s2, cs, fuel - 1);
      forall i | 0 <= i < |cs| ensures v2[i] == v1[i] {
        OwnFlagChild(s1, s2, n, i, fuel - 1);
      }
      assert v2 == v1;
      assert View(s1, n, fuel) == Folder(n.path, n.name, st.selected, st.foldout, v1);
      assert View(s2, n, fuel) == Folder(n.path, n.name, b, st.foldout, v2);
    }
  }

  /** A child of `n` shows the same whatever the flag of `n` is. */
  lemma {:induction false} OwnFlagChild(s1: Snapshot, s2: Snapshot, n: AssetItem, i: int, fuel: nat)
    requires ChildLinked(s1) && n in s1 && n.Linked() && 0 <= i < |s1[n].children|
    requires forall m :: m in s1 && m != n ==> m in s2 && s2[m] == s1[m]
    ensures ViewOf(s2, s1[n].children, fuel)[i] == ViewOf(s1, s1[n].children, fuel)[i]
  {
    var cs := s1[n].children;
    ViewOfAt(s1, cs, fuel, i);
    ViewOfAt(s2, cs, fuel, i);
    assert cs[i] in cs;
    assert cs[i] in s1 && cs[i].Linked();
    ViewFrame(s1, s2, cs[i], fuel);
  }

  /** An item within `a` other than `a` has its parent within `a` too. */
  lemma {:induction false} WithinParent(c: AssetItem, a: AssetItem)
    requires c.Within(a) && c != a
    ensures c.parent != null && c.parent.Within(a)
  {
  }

  /**
   * After child `cs[k]` of `p` is taken out, `p` shows as before without
   * that child's value, provided nothing else that `p` shows changed.
   */
  lemma {:induction false} DetachView(s1: Snapshot, s2: Snapshot, p: AssetItem, cs: seq<AssetItem>, k: int, fuel: nat)
    requires ChildLinked(s1) && p in s1 && p.isFolder && p.Linked() && s1[p].children == cs
    requires 0 <= k < |cs| && Distinct(cs) && fuel > 0
    requires p in s2 && s2[p] == s1[p].(children := cs[..k] + cs[k + 1..])
    requires SameExcept(s1, s2, p, cs[k])
    ensures View(s1, p, fuel).Folder? && k < |View(s1, p, fuel).children|
    ensures View(s2, p, fuel) == WithoutChild(View(s1, p, fuel), k)
  {
    var rest := cs[..k] + cs[k + 1..];
    forall j | 0 <= j < |rest| ensures View(s2, rest[j], fuel - 1) == View(s1, cs[if j < k then j else j + 1], fuel - 1) {
      var i := if j < k then j else j + 1;
      assert rest[j] == cs[i] && cs[i] in s1[p].children;
      DetachChildFrame(s1, s2, p, cs, k, i);
      ViewFrame(s1, s2, cs[i], fuel - 1);
    }
    ViewOfIndex(s1, cs, fuel - 1);
    ViewOfIndex(s2, rest, fuel - 1);
    var v1, v2 := ViewOf(s1, cs, fuel - 1), ViewOf(s2, rest, fuel - 1);
    assert v2 == v1[..k] + v1[k + 1..];
  }

  /** What lies within a sibling of the removed child is untouched. */
  lemma {:induction false} DetachChildFrame(s1: Snapshot, s2: Snapshot, p: AssetItem, cs: seq<AssetItem>, k: int, i: int)
    requires ChildLinked(s1) && p in s1 && p.Linked() && s1[p].children == cs
    requires 0 <= k < |cs| && 0 <= i < |cs| && i != k && Distinct(cs)
    requires SameExcept(s1, s2, p, cs[k])
    ensures cs[i].Linked() && cs[i] in s1
    ensures forall m {:trigger m.Within(cs[i])} :: m in s1 && m.Within(cs[i]) ==> m in s2 && s2[m] == s1[m]
  {
    assert cs[i] in s1[p].children && cs[k] in s1[p].children;
    forall m | m in s1 && m.Within(cs[i]) ensures m in s2 && s2[m] == s1[m] {
      SameLevel(m, cs[i], cs[k]);
    }
  }
}
