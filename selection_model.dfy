/**
 * The selection tree as a value: what a folder of the selector holds at one
 * moment, with the flags the window shows. The heap model in asset_tree.dfy
 * is tied to this view by `InteractiveAssetSelector.Abs`, and every property
 * of the tree operations is proved here, on values.
 */
module SelectionModel {
  import opened NaturalOrder

  datatype Item =
    | Leaf(path: string, name: string, selected: bool)
    | Folder(path: string, name: string, selected: bool, foldout: bool, children: seq<Item>)

  /** Every item strictly below `t`, in pre-order. */
  function Descendants(t: Item): seq<Item>
    decreases t
  {
    if t.Leaf? then [] else DescendantsOf(t.children)
  }

  /** The items `cs` and everything below them, in pre-order. */
  function DescendantsOf(cs: seq<Item>): seq<Item>
    decreases cs
  {
    if cs == [] then []
    else DescendantsOf(cs[..|cs| - 1]) + [cs[|cs| - 1]] + Descendants(cs[|cs| - 1])
  }

  function Names(cs: seq<Item>): seq<string> {
    seq(|cs|, i requires 0 <= i < |cs| => cs[i].name)
  }

  /** The leaves of a list of items, in order. */
  function Leaves(s: seq<Item>): seq<Item> {
    if s == [] then []
    else Leaves(s[..|s| - 1]) + (if s[|s| - 1].Leaf? then [s[|s| - 1]] else [])
  }

  predicate IsEmptyFolder(t: Item) {
    t.Folder? && t.children == []
  }

  lemma {:induction false} DescendantsOfAppend(a: seq<Item>, b: seq<Item>)
    ensures DescendantsOf(a + b) == DescendantsOf(a) + DescendantsOf(b)
    decreases |b|
  {
    if b != [] {
      var b' := b[..|b| - 1];
      assert (a + b)[..|a + b| - 1] == a + b';
      DescendantsOfAppend(a, b');
    } else {
      assert a + b == a;
    }
  }

  lemma {:induction false} DescendantsOfMember(cs: seq<Item>, d: Item)
    ensures d in DescendantsOf(cs) <==>
            exists i :: 0 <= i < |cs| && (d == cs[i] || d in Descendants(cs[i]))
    decreases |cs|
  {
    if cs != [] {
      var init := cs[..|cs| - 1];
      DescendantsOfMember(init, d);
      if d in DescendantsOf(init) {
        var i :| 0 <= i < |init| && (d == init[i] || d in Descendants(init[i]));
        assert cs[i] == init[i];
      }
      if exists i :: 0 <= i < |cs| && (d == cs[i] || d in Descendants(cs[i])) {
        var i :| 0 <= i < |cs| && (d == cs[i] || d in Descendants(cs[i]));
        if i < |cs| - 1 {
          assert init[i] == cs[i];
        }
      }
    }
  }

  lemma {:induction false} LeavesAppend(a: seq<Item>, b: seq<Item>)
    ensures Leaves(a + b) == Leaves(a) + Leaves(b)
    decreases |b|
  {
    if b != [] {
      var b' := b[..|b| - 1];
      assert (a + b)[..|a + b| - 1] == a + b';
      LeavesAppend(a, b');
    } else {
      assert a + b == a;
    }
  }

  // ---------------------------------------------------------------------------
  // ChildrenSelected / AnyChildrenSelected: the tri-state summary of a folder
  // ---------------------------------------------------------------------------

  /** What one child adds to its folder's summary: a leaf its flag (1 or 0), a folder its own summary. */
  function State(t: Item): (r: int)
    ensures -1 <= r <= 1
    ensures IsEmptyFolder(t) ==> r == 0
    decreases t
  {
    if t.Leaf? then (if t.selected then 1 else 0) else ChildrenSelected(t.children)
  }

  /** The `any` flag of the summary loop after it has seen `cs`. */
  function AnySelected(cs: seq<Item>): (r: bool)
    ensures r ==> cs != []
    decreases cs, 0
  {
    cs != [] && (AnySelected(cs[..|cs| - 1]) || State(cs[|cs| - 1]) != 0)
  }

  /** The `all` flag of the summary loop after it has seen `cs`. */
  function AllSelected(cs: seq<Item>): (r: bool)
    ensures cs == [] ==> r
    decreases cs, 0
  {
    cs == [] || (AllSelected(cs[..|cs| - 1]) && State(cs[|cs| - 1]) == 1)
  }

  /** The summary of a folder whose children are `cs`: 0 none, 1 all, -1 mixed. */
  function ChildrenSelected(cs: seq<Item>): (r: int)
    ensures -1 <= r <= 1
    ensures cs == [] ==> r == 0
    decreases cs, 1
  {
    if AnySelected(cs) then (if AllSelected(cs) then 1 else -1) else 0
  }

  /** One turn of the summary loop: the flags after child `i` from those before it and the child's state. */
  lemma SummaryStep(cs: seq<Item>, i: int)
    requires 0 <= i < |cs|
    ensures AnySelected(cs[..i + 1]) == (AnySelected(cs[..i]) || State(cs[i]) != 0)
    ensures AllSelected(cs[..i + 1]) == (AllSelected(cs[..i]) && State(cs[i]) == 1)
  {
    assert cs[..i + 1][..i] == cs[..i];
  }

  /** The `any` flag: some child is a selected leaf or a folder whose own summary is not 0. */
  lemma {:induction false} AnySelectedExists(cs: seq<Item>)
    ensures AnySelected(cs) <==> exists i :: 0 <= i < |cs| && State(cs[i]) != 0
    decreases |cs|
  {
    if cs != [] {
      var init := cs[..|cs| - 1];
      AnySelectedExists(init);
      if exists i :: 0 <= i < |init| && State(init[i]) != 0 {
        var i :| 0 <= i < |init| && State(init[i]) != 0;
        assert cs[i] == init[i];
      }
      if exists i :: 0 <= i < |cs| && State(cs[i]) != 0 {
        var i :| 0 <= i < |cs| && State(cs[i]) != 0;
        if i < |init| {
          assert init[i] == cs[i];
        }
      }
    }
  }

  /** The `all` flag: every child is a selected leaf or a folder whose own summary is 1. */
  lemma {:induction false} AllSelectedForall(cs: seq<Item>)
    ensures AllSelected(cs) <==> forall i :: 0 <= i < |cs| ==> State(cs[i]) == 1
    decreases |cs|
  {
    if cs != [] {
      var init := cs[..|cs| - 1];
      AllSelectedForall(init);
      if !forall i :: 0 <= i < |init| ==> State(init[i]) == 1 {
        var i :| 0 <= i < |init| && State(init[i]) != 1;
        assert cs[i] == init[i];
      }
      if !forall i :: 0 <= i < |cs| ==> State(cs[i]) == 1 {
        var i :| 0 <= i < |cs| && State(cs[i]) != 1;
        if i < |init| {
          assert init[i] == cs[i];
        }
      }
    }
  }

  /** A leaf that is selected, or a folder that is not empty. */
  predicate Good(d: Item) {
    (d.Leaf? ==> d.selected) && (d.Folder? ==> d.children != [])
  }

  ghost predicate AllGood(s: seq<Item>) {
    forall d :: d in s ==> Good(d)
  }

  ghost predicate AnyLeafSelected(s: seq<Item>) {
    exists d :: d in s && d.Leaf? && d.selected
  }

  /** Some leaf below a folder with children `cs` is selected. */
  ghost predicate SomeLeafSelected(cs: seq<Item>) {
    AnyLeafSelected(DescendantsOf(cs))
  }

  /** Not empty, every leaf below selected, and no folder below empty. */
  ghost predicate FullySelected(cs: seq<Item>) {
    cs != [] && AllGood(DescendantsOf(cs))
  }

  /** The summary stated over the items below a folder rather than by the loop. */
  ghost function TriState(cs: seq<Item>): (r: int)
    ensures r == 0 <==> !SomeLeafSelected(cs)
    ensures r == 1 <==> FullySelected(cs)
    ensures r == -1 <==> SomeLeafSelected(cs) && !FullySelected(cs)
  {
    FlagsMeaning(cs);
    if !SomeLeafSelected(cs) then 0 else if FullySelected(cs) then 1 else -1
  }

  lemma DescendantsOfSingle(t: Item)
    ensures DescendantsOf([t]) == [t] + Descendants(t)
  {
    assert [t][..0] == [];
  }

  lemma {:induction false} StateMeaning(t: Item)
    ensures State(t) != 0 <==> AnyLeafSelected(DescendantsOf([t]))
    ensures State(t) == 1 <==> AllGood(DescendantsOf([t]))
    ensures t.Folder? && FullySelected(t.children) ==> SomeLeafSelected(t.children)
    decreases t, 1
  {
    DescendantsOfSingle(t);
    var below := Descendants(t);
    assert forall d :: d in [t] + below <==> d == t || d in below;
    if t.Folder? {
      FlagsMeaning(t.children);
      assert below == DescendantsOf(t.children);
      if AnyLeafSelected([t] + below) {
        var d: Item :| d in [t] + below && d.Leaf? && d.selected;
        assert d in below;
      }
      if t.children == [] {
        assert below == [];
        assert !Good(t);
      } else if AllGood([t] + below) {
        assert FullySelected(t.children);
      }
    }
  }

  lemma {:induction false} FlagsMeaning(cs: seq<Item>)
    ensures AnySelected(cs) <==> SomeLeafSelected(cs)
    ensures AllSelected(cs) <==> AllGood(DescendantsOf(cs))
    ensures FullySelected(cs) ==> SomeLeafSelected(cs)
    decreases cs, 0
  {
    if cs != [] {
      var init, last := cs[..|cs| - 1], cs[|cs| - 1];
      assert cs == init + [last];
      FlagsMeaning(init);
      StateMeaning(last);
      DescendantsOfAppend(init, [last]);
      StepMeaning(init, last);
    }
  }

  /** One step of the summary loop: the flags after `init + [last]` from those after `init` and `last`'s state. */
  lemma StepMeaning(init: seq<Item>, last: Item)
    requires AnySelected(init) <==> SomeLeafSelected(init)
    requires AllSelected(init) <==> AllGood(DescendantsOf(init))
    requires State(last) != 0 <==> AnyLeafSelected(DescendantsOf([last]))
    requires State(last) == 1 <==> AllGood(DescendantsOf([last]))
    requires last.Folder? && FullySelected(last.children) ==> SomeLeafSelected(last.children)
    requires DescendantsOf(init + [last]) == DescendantsOf(init) + DescendantsOf([last])
    ensures AnySelected(init + [last]) <==> SomeLeafSelected(init + [last])
    ensures AllSelected(init + [last]) <==> AllGood(DescendantsOf(init + [last]))
    ensures FullySelected(init + [last]) ==> SomeLeafSelected(init + [last])
  {
    var cs := init + [last];
    assert cs[..|cs| - 1] == init && cs[|cs| - 1] == last;
    var a, b := DescendantsOf(init), DescendantsOf([last]);
    assert forall d :: d in a + b <==> d in a || d in b;
    if SomeLeafSelected(cs) {
      var d: Item :| d in a + b && d.Leaf? && d.selected;
      if d in a { assert AnyLeafSelected(a); } else { assert AnyLeafSelected(b); }
    }
    if AnyLeafSelected(a) {
      var d: Item :| d in a && d.Leaf? && d.selected;
      assert d in a + b;
    }
    if AnyLeafSelected(b) {
      var d: Item :| d in b && d.Leaf? && d.selected;
      assert d in a + b;
    }
    if FullySelected(cs) {
      DescendantsOfSingle(last);
      assert last in b;
      if last.Folder? {
        assert FullySelected(last.children);
        var d: Item :| d in DescendantsOf(last.children) && d.Leaf? && d.selected;
        assert d in b;
        assert d in a + b;
      } else {
        assert last in a + b;
      }
    }
  }

  /**
   * The summary loop means what the window shows: 0 when no leaf below the
   * folder is selected; 1 when some leaf is, every leaf below is selected
   * and no folder at or below is empty; -1 otherwise.
   */
  lemma {:induction false} ChildrenSelectedMeaning(cs: seq<Item>)
    ensures ChildrenSelected(cs) == TriState(cs)
    ensures ChildrenSelected(cs) == 0 <==> !SomeLeafSelected(cs)
  {
    FlagsMeaning(cs);
  }

  // ---------------------------------------------------------------------------
  // SelectChildren / DeselectChildren
  // ---------------------------------------------------------------------------

  /** `t` with its own flag and every flag below it set to `v`. */
  function SetAll(t: Item, v: bool): (r: Item)
    ensures r.path == t.path && r.name == t.name && r.Leaf? == t.Leaf? && r.selected == v
    ensures t.Folder? ==> r.foldout == t.foldout && |r.children| == |t.children|
    decreases t
  {
    match t
    case Leaf(p, n, _) => Leaf(p, n, v)
    case Folder(p, n, _, f, cs) => Folder(p, n, v, f, SetAllOf(cs, v))
  }

  function SetAllOf(cs: seq<Item>, v: bool): (r: seq<Item>)
    ensures |r| == |cs|
    ensures forall i :: 0 <= i < |cs| ==> r[i].name == cs[i].name && r[i].selected == v
    decreases cs
  {
    seq(|cs|, i requires 0 <= i < |cs| => SetAll(cs[i], v))
  }

  /** A folder after SelectChildren (`v` true) or DeselectChildren (`v` false): its own flag is kept. */
  function SetBelow(t: Item, v: bool): (r: Item)
    ensures r.path == t.path && r.name == t.name && r.Leaf? == t.Leaf? && r.selected == t.selected
    ensures t.Folder? ==> r.foldout == t.foldout && |r.children| == |t.children|
    ensures t.Folder? ==> forall i :: 0 <= i < |t.children| ==> r.children[i].name == t.children[i].name && r.children[i].selected == v
  {
    match t
    case Leaf(_, _, _) => t
    case Folder(p, n, s, f, cs) => Folder(p, n, s, f, SetAllOf(cs, v))
  }

  lemma SetAllOfAppend(a: seq<Item>, b: seq<Item>, v: bool)
    ensures SetAllOf(a + b, v) == SetAllOf(a, v) + SetAllOf(b, v)
  {
  }

  /** Setting the flags of a list of items sets the flags of every item below it, and nothing else. */
  lemma {:induction false} DescendantsOfSetAll(cs: seq<Item>, v: bool)
    ensures DescendantsOf(SetAllOf(cs, v)) == SetAllOf(DescendantsOf(cs), v)
    decreases cs
  {
    if cs != [] {
      var init, last := cs[..|cs| - 1], cs[|cs| - 1];
      var r := SetAllOf(cs, v);
      assert r[..|r| - 1] == SetAllOf(init, v);
      assert r[|r| - 1] == SetAll(last, v);
      DescendantsOfSetAll(init, v);
      if last.Folder? {
        DescendantsOfSetAll(last.children, v);
      }
      assert Descendants(SetAll(last, v)) == SetAllOf(Descendants(last), v);
      SetAllOfAppend(DescendantsOf(init), [last], v);
      SetAllOfAppend(DescendantsOf(init) + [last], Descendants(last), v);
    }
  }

  /** After DeselectChildren the folder shows "none selected". */
  lemma DeselectClears(cs: seq<Item>)
    ensures ChildrenSelected(SetAllOf(cs, false)) == 0
  {
    ChildrenSelectedMeaning(SetAllOf(cs, false));
    DescendantsOfSetAll(cs, false);
    var below := DescendantsOf(SetAllOf(cs, false));
    forall d | d in below ensures !d.selected {
      var i :| 0 <= i < |below| && below[i] == d;
      assert d == SetAll(DescendantsOf(cs)[i], false);
    }
  }

  ghost predicate HasLeaf(s: seq<Item>) {
    exists d :: d in s && d.Leaf?
  }

  ghost predicate HasEmptyFolder(s: seq<Item>) {
    exists d :: d in s && IsEmptyFolder(d)
  }

  /** Once every flag is set, a selected leaf is any leaf and a good item any item but an empty folder. */
  lemma SelectedFlat(s: seq<Item>)
    ensures AnyLeafSelected(SetAllOf(s, true)) <==> HasLeaf(s)
    ensures AllGood(SetAllOf(s, true)) <==> !HasEmptyFolder(s)
  {
    var r := SetAllOf(s, true);
    assert forall i :: 0 <= i < |s| ==> r[i] == SetAll(s[i], true);
    assert forall i :: 0 <= i < |s| ==> r[i].Leaf? == s[i].Leaf? && r[i].selected;
    forall i | 0 <= i < |s| ensures IsEmptyFolder(r[i]) <==> IsEmptyFolder(s[i]) {
      if s[i].Folder? {
        assert |r[i].children| == |SetAllOf(s[i].children, true)| == |s[i].children|;
      }
    }
    if HasLeaf(s) {
      var d: Item :| d in s && d.Leaf?;
      var i :| 0 <= i < |s| && s[i] == d;
      assert r[i] in r;
    }
    if AnyLeafSelected(r) {
      var d: Item :| d in r && d.Leaf? && d.selected;
      var i :| 0 <= i < |r| && r[i] == d;
      assert s[i] in s;
    }
    if HasEmptyFolder(s) {
      var d: Item :| d in s && IsEmptyFolder(d);
      var i :| 0 <= i < |s| && s[i] == d;
      assert r[i] in r;
    }
    if !AllGood(r) {
      var d: Item :| d in r && !Good(d);
      var i :| 0 <= i < |r| && r[i] == d;
      assert s[i] in s;
    }
  }

  /**
   * After SelectChildren the folder shows "none" only when there is no leaf
   * below it, and "all" exactly when it is not empty and no folder below it is.
   */
  lemma SelectFills(cs: seq<Item>)
    ensures ChildrenSelected(SetAllOf(cs, true)) == 0 <==> !HasLeaf(DescendantsOf(cs))
    ensures ChildrenSelected(SetAllOf(cs, true)) == 1 <==>
            cs != [] && HasLeaf(DescendantsOf(cs)) && !HasEmptyFolder(DescendantsOf(cs))
  {
    ChildrenSelectedMeaning(SetAllOf(cs, true));
    DescendantsOfSetAll(cs, true);
    SelectedFlat(DescendantsOf(cs));
  }

  /** Setting all flags twice is setting them once: only the flags change. */
  lemma {:induction false} SetAllTwice(t: Item, v: bool, u: bool)
    ensures SetAll(SetAll(t, v), u) == SetAll(t, u)
    decreases t
  {
    if t.Folder? {
      forall i | 0 <= i < |t.children| ensures SetAll(SetAll(t.children[i], v), u) == SetAll(t.children[i], u) {
        SetAllTwice(t.children[i], v, u);
      }
      assert SetAllOf(SetAllOf(t.children, v), u) == SetAllOf(t.children, u);
    }
  }

  /** Select/DeselectChildren change flags only: children, their order, names and foldouts stay. */
  lemma SetBelowOnlyFlags(t: Item, v: bool, u: bool)
    ensures SetAll(SetBelow(t, v), u) == SetAll(t, u)
  {
    if t.Folder? {
      SetAllTwice(Folder(t.path, t.name, t.selected, t.foldout, t.children), v, u);
    }
  }

  // ---------------------------------------------------------------------------
  // Remove from selector
  // ---------------------------------------------------------------------------

  /** A folder after `children.Remove` took out its child at index `k`. */
  function WithoutChild(t: Item, k: int): (r: Item)
    requires t.Folder? && 0 <= k < |t.children|
    ensures r.Folder? && r.path == t.path && r.name == t.name && r.selected == t.selected && r.foldout == t.foldout
    ensures |r.children| == |t.children| - 1
    ensures forall i :: 0 <= i < k ==> r.children[i] == t.children[i]
    ensures forall i :: k <= i < |r.children| ==> r.children[i] == t.children[i + 1]
  {
    t.(children := t.children[..k] + t.children[k + 1..])
  }

  /**
   * Taking child `k` out of a folder takes out exactly that child and
   * everything below it; the other items below the folder stay, in order.
   */
  lemma WithoutChildDescendants(t: Item, k: int)
    requires t.Folder? && 0 <= k < |t.children|
    ensures Descendants(t) == DescendantsOf(t.children[..k]) + ([t.children[k]] + Descendants(t.children[k])) + DescendantsOf(t.children[k + 1..])
    ensures Descendants(WithoutChild(t, k)) == DescendantsOf(t.children[..k]) + DescendantsOf(t.children[k + 1..])
  {
    var cs := t.children;
    assert cs == cs[..k] + [cs[k]] + cs[k + 1..];
    DescendantsOfAppend(cs[..k] + [cs[k]], cs[k + 1..]);
    DescendantsOfAppend(cs[..k], [cs[k]]);
    DescendantsOfSingle(cs[k]);
    DescendantsOfAppend(cs[..k], cs[k + 1..]);
  }

  /** The leaves left below the folder are the others, in their order. */
  lemma WithoutChildLeaves(t: Item, k: int)
    requires t.Folder? && 0 <= k < |t.children|
    ensures Leaves(Descendants(t)) == Leaves(DescendantsOf(t.children[..k])) + Leaves([t.children[k]] + Descendants(t.children[k])) + Leaves(DescendantsOf(t.children[k + 1..]))
    ensures Leaves(Descendants(WithoutChild(t, k))) == Leaves(DescendantsOf(t.children[..k])) + Leaves(DescendantsOf(t.children[k + 1..]))
  {
    WithoutChildDescendants(t, k);
    var a, b, c := DescendantsOf(t.children[..k]), [t.children[k]] + Descendants(t.children[k]), DescendantsOf(t.children[k + 1..]);
    LeavesAppend(a + b, c);
    LeavesAppend(a, b);
    LeavesAppend(a, c);
  }

  // ---------------------------------------------------------------------------
  // RemoveEmptyFolders
  // ---------------------------------------------------------------------------

  /** A folder after RemoveEmptyFolders: every child folder is pruned first, then dropped if that left it empty. */
  function Prune(t: Item): (r: Item)
    ensures r.path == t.path && r.name == t.name && r.Leaf? == t.Leaf? && r.selected == t.selected
    ensures t.Folder? ==> r.foldout == t.foldout
    decreases t, 1
  {
    match t
    case Leaf(_, _, _) => t
    case Folder(p, n, s, f, cs) => Folder(p, n, s, f, PruneOf(cs))
  }

  /** `List.RemoveAll` over one folder's children, the predicate visiting them in order. */
  function PruneOf(cs: seq<Item>): seq<Item>
    decreases cs, 0
  {
    if cs == [] then []
    else
      var last := Prune(cs[|cs| - 1]);
      PruneOf(cs[..|cs| - 1]) + (if IsEmptyFolder(last) then [] else [last])
  }

  ghost predicate NoEmptyFolder(s: seq<Item>) {
    forall d :: d in s ==> !IsEmptyFolder(d)
  }

  /** `RemoveAll` on one folder's children keeps at most all of them, and none it keeps is an empty folder. */
  lemma {:induction false} PruneOfShape(cs: seq<Item>)
    ensures |PruneOf(cs)| <= |cs|
    ensures NoEmptyFolder(PruneOf(cs))
    decreases cs
  {
    if cs != [] {
      var init, last := cs[..|cs| - 1], Prune(cs[|cs| - 1]);
      PruneOfShape(init);
      var tail := if IsEmptyFolder(last) then [] else [last];
      assert PruneOf(cs) == PruneOf(init) + tail;
      forall d | d in PruneOf(cs) ensures !IsEmptyFolder(d) {
        if d !in PruneOf(init) {
          assert d in tail;
        }
      }
    }
  }

  /** After RemoveEmptyFolders no folder anywhere below is empty. */
  lemma {:induction false} PruneLeavesNoEmptyFolder(cs: seq<Item>)
    ensures NoEmptyFolder(DescendantsOf(PruneOf(cs)))
    decreases cs
  {
    if cs != [] {
      var init, last := cs[..|cs| - 1], Prune(cs[|cs| - 1]);
      var tail := if IsEmptyFolder(last) then [] else [last];
      PruneLeavesNoEmptyFolder(init);
      DescendantsOfAppend(PruneOf(init), tail);
      if tail != [] {
        DescendantsOfSingle(last);
        if last.Folder? {
          PruneLeavesNoEmptyFolder(cs[|cs| - 1].children);
        }
      }
    }
  }

  /** Leaves are never removed, and they keep their order. */
  lemma {:induction false} PruneKeepsLeaves(cs: seq<Item>)
    ensures Leaves(DescendantsOf(PruneOf(cs))) == Leaves(DescendantsOf(cs))
    decreases cs
  {
    if cs != [] {
      var init, x := cs[..|cs| - 1], cs[|cs| - 1];
      var last := Prune(x);
      var tail := if IsEmptyFolder(last) then [] else [last];
      assert cs == init + [x];
      PruneKeepsLeaves(init);
      DescendantsOfAppend(PruneOf(init), tail);
      DescendantsOfAppend(init, [x]);
      LeavesAppend(DescendantsOf(PruneOf(init)), DescendantsOf(tail));
      LeavesAppend(DescendantsOf(init), DescendantsOf([x]));
      DescendantsOfSingle(x);
      LeavesAppend([x], Descendants(x));
      assert Leaves([x]) == Leaves([]) + (if x.Leaf? then [x] else []);
      if x.Folder? {
        PruneKeepsLeaves(x.children);
        if tail != [] {
          DescendantsOfSingle(last);
          LeavesAppend([last], Descendants(last));
          assert Leaves([last]) == Leaves([]) + [];
        }
      } else {
        DescendantsOfSingle(last);
        LeavesAppend([last], Descendants(last));
      }
    }
  }

  /** A tree with no empty folder below is left as it is. */
  lemma {:induction false} PruneStable(cs: seq<Item>)
    requires NoEmptyFolder(DescendantsOf(cs))
    ensures PruneOf(cs) == cs
    decreases cs
  {
    if cs != [] {
      var init, x := cs[..|cs| - 1], cs[|cs| - 1];
      assert cs == init + [x];
      DescendantsOfAppend(init, [x]);
      DescendantsOfSingle(x);
      PruneStable(init);
      if x.Folder? {
        PruneStable(x.children);
        assert x in DescendantsOf([x]);
      }
    }
  }

  /** Running RemoveEmptyFolders a second time changes nothing. */
  lemma PruneIdempotent(t: Item)
    ensures Prune(Prune(t)) == Prune(t)
  {
    if t.Folder? {
      PruneLeavesNoEmptyFolder(t.children);
      PruneStable(PruneOf(t.children));
    }
  }

  /** Every item RemoveEmptyFolders keeps is the pruned form of an original child with the same name. */
  lemma {:induction false} PruneOfSubsequence(cs: seq<Item>, i: int)
    requires 0 <= i < |PruneOf(cs)|
    ensures exists j :: 0 <= j < |cs| && PruneOf(cs)[i] == Prune(cs[j]) && PruneOf(cs)[i].name == cs[j].name
    decreases cs
  {
    var init, last := cs[..|cs| - 1], Prune(cs[|cs| - 1]);
    if i < |PruneOf(init)| {
      PruneOfSubsequence(init, i);
      var j :| 0 <= j < |init| && PruneOf(init)[i] == Prune(init[j]) && PruneOf(init)[i].name == init[j].name;
      assert cs[j] == init[j];
    } else {
      assert PruneOf(cs)[i] == last;
    }
  }

  /** RemoveEmptyFolders keeps a folder's children strictly sorted. */
  lemma {:induction false} PruneKeepsSorted(compare: Comparator, cs: seq<Item>)
    requires StrictlySorted(compare, Names(cs))
    ensures StrictlySorted(compare, Names(PruneOf(cs)))
    decreases cs
  {
    if cs != [] {
      var init, x := cs[..|cs| - 1], cs[|cs| - 1];
      var last := Prune(x);
      assert StrictlySorted(compare, Names(init)) by {
        forall i, j | 0 <= i < j < |init| ensures compare(Names(init)[i], Names(init)[j]) < 0 {
          assert Names(init)[i] == Names(cs)[i] && Names(init)[j] == Names(cs)[j];
        }
      }
      PruneKeepsSorted(compare, init);
      if !IsEmptyFolder(last) {
        var r, p := PruneOf(cs), PruneOf(init);
        assert r == p + [last];
        forall i, j | 0 <= i < j < |r| ensures compare(Names(r)[i], Names(r)[j]) < 0 {
          if j < |p| {
            assert Names(r)[i] == Names(p)[i] && Names(r)[j] == Names(p)[j];
          } else {
            PruneOfSubsequence(init, i);
            var k :| 0 <= k < |init| && p[i] == Prune(init[k]) && p[i].name == init[k].name;
            assert Names(r)[i] == Names(cs)[k] && Names(r)[j] == Names(cs)[|cs| - 1];
          }
        }
      } else {
        assert PruneOf(cs) == PruneOf(init);
      }
    }
  }
}
