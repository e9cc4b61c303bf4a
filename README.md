# Interactive Asset Selector — the selection tree

This project models the selection tree of the Unity editor window
`InteractiveAssetSelector`. The window shows a set of project assets as a
tree of folders and files. Each row has a check box, and each folder has a
foldout and a three-way summary: nothing, everything or part of what lies
below it is selected. Assets come in one path at a time or in bulk. Folders
above a path are inserted first. Every folder's children stay sorted by name
under the editor's natural string comparison. An item can be removed from the
selector. When `ignoreEmptyFolders` is set, folders left without children are
pruned.

The model has four modules:

- `Paths` (paths.dfy): how a path splits at its last slash into a parent
  folder path and a display name, and the chain of folders above a path.
- `NaturalOrder` (natural_order.dfy): the comparison
  (`EditorUtility.NaturalCompare`) as a parameter that is a strict total order.
  It also holds the facts about strictly sorted name lists that insertion and
  removal need.
- `SelectionModel` (selection_model.dfy): the tree as a value (`Item`). It
  defines the summary the code computes and what that summary means in terms
  of leaves. It gives the value each operation should produce
  (`SetBelow`, `Prune`, `WithoutChild`) and proves the properties of those values.
- `AssetTree` (asset_tree.dfy): the window and its items as heap objects,
  which is how the C# code works on them.
  - `AssetItem` is one class for both `AssetItem` and `FolderItem`, with an
    `isFolder` tag.
  - `InteractiveAssetSelector` holds the root folder, the `ignoreEmptyFolders`
    option and the editor services as parameters.
  - Every method updates the objects in place.
  - The selection methods (summary, select, deselect, folder click), the
    pruning methods and the removal methods are proved against the value
    model through `Abs`, the value that an item and everything below it show
    at that moment.
  - The insert methods (`SortedInsert` and the ones it calls, and the bulk
    and recursive inserts) are proved against `Paths()`, the set of paths in
    the tree, and the `Added`/`AddedAll` functions of the inserted paths,
    together with `Valid()`.

The well-formed tree is `Valid()`:

- each item hangs below the root through its parent and appears exactly once
  among its parent's children;
- only folders have children;
- an item's name is the end of its path, and its parent's path is the rest;
- an item is a folder exactly when the asset database says its path is one;
- every folder's children are strictly sorted by name.

Every state-changing operation keeps `Valid()`.

In four places the C# code behaves differently from what a reader might expect; the model follows the code:

- **The summary.** A folder's summary is "all" only if there is at least one
  child and every leaf below is selected. In addition, no folder below may be
  empty. An empty folder counts as "nothing selected" in its parent's loop.
  `TriState` states this outright, and `ChildrenSelectedMeaning` proves that
  the loop computes it.
- **A folder click.** The code does not decide what a click on a mixed folder
  does. The toggle control returns its new value, and the code selects or
  deselects everything below according to that value. The model takes that
  value as the parameter `toggle`.
- **The folder's own flag.** After the click is handled, the flag is reset
  from the summary taken before the click (line 290). Until the next redraw,
  the flag shows the state before the click.
- **Removal.** Removing an item does not prune only the folders it emptied.
  With `ignoreEmptyFolders` set, `ValidateSelection` prunes every empty folder
  in the whole tree. Without it, nothing else changes.

## Model

| member | source | states |
|---|---|---|
| Paths.LastIndexOfSlash | Assets/InteractiveAssetSelector/Editor/InteractiveAssetSelector.cs:235 | the result is -1 or the index of a slash, and no slash comes after it |
| Paths.Name | Assets/InteractiveAssetSelector/Editor/InteractiveAssetSelector.cs:22 | the name has no slash, is the whole path when there is no slash, and is no longer than the path |
| Paths.ParentPath | Assets/InteractiveAssetSelector/Editor/InteractiveAssetSelector.cs:237 | the parent folder's path is strictly shorter than the path, so inserting parents first terminates |
| Paths.SplitPath | Assets/InteractiveAssetSelector/Editor/InteractiveAssetSelector.cs:235-243 | a path with a slash is its parent path, a slash and its name |
| Paths.JoinSplit | Assets/InteractiveAssetSelector/Editor/InteractiveAssetSelector.cs:235-243 | joining a parent path and a slash-free name and splitting again gives back both parts |
| Paths.Ancestors | Assets/InteractiveAssetSelector/Editor/InteractiveAssetSelector.cs:235-241 | every folder above a path is shorter than it |
| Paths.AncestorsOfJoin | Assets/InteractiveAssetSelector/Editor/InteractiveAssetSelector.cs:235-241 | the folders above `parent/name` are `parent` and the folders above it |
| NaturalOrder.SortedNamesDistinct | Assets/InteractiveAssetSelector/Editor/InteractiveAssetSelector.cs:58-78 | in a strictly sorted list a name occurs at one index only, so the index a search finds is unique |
| NaturalOrder.InsertKeepsSorted | Assets/InteractiveAssetSelector/Editor/InteractiveAssetSelector.cs:243-246 | inserting a name at its insertion point keeps the list strictly sorted |
| NaturalOrder.RemoveKeepsSorted | Assets/InteractiveAssetSelector/Editor/InteractiveAssetSelector.cs:349 | removing any entry keeps the list strictly sorted |
| AssetTree.AssetItem.constructor | Assets/InteractiveAssetSelector/Editor/InteractiveAssetSelector.cs:19-26 | a new item has the given path, parent and flag, its name is the text after the last slash, it has no children and its foldout is open |
| AssetTree.AssetItem.Root | Assets/InteractiveAssetSelector/Editor/InteractiveAssetSelector.cs:186-190 | the root folder stands for no asset: empty path and name, no parent, no children |
| AssetTree.AssetItem.CompareTo | Assets/InteractiveAssetSelector/Editor/InteractiveAssetSelector.cs:30-33 | the result is 0 exactly for the item's own name, and negative exactly when the item's name sorts before the other |
| AssetTree.AssetItem.BinarySearch | Assets/InteractiveAssetSelector/Editor/InteractiveAssetSelector.cs:58-78 | a non-negative result indexes the child with that name; a negative result `~p` gives in sorted children the place `p` where the name belongs, with lower names before it and higher names from it on; empty children give `~0` |
| AssetTree.AssetItem.AnyChildrenSelected | Assets/InteractiveAssetSelector/Editor/InteractiveAssetSelector.cs:80-95 | true exactly when the folder's summary is not "none" |
| AssetTree.AssetItem.ChildrenSelected | Assets/InteractiveAssetSelector/Editor/InteractiveAssetSelector.cs:97-113 | the loop returns the summary function of the folder's current children |
| AssetTree.AssetItem.SelectChildren | Assets/InteractiveAssetSelector/Editor/InteractiveAssetSelector.cs:115-126 | every item strictly below the folder becomes selected and nothing else changes; the folder's value becomes `SetBelow(old, true)`; afterwards its summary is "none" exactly when there is no leaf below |
| AssetTree.AssetItem.DeselectChildren | Assets/InteractiveAssetSelector/Editor/InteractiveAssetSelector.cs:127-138 | every item strictly below the folder becomes unselected and nothing else changes; the folder's value becomes `SetBelow(old, false)`; afterwards its summary is "none" |
| AssetTree.AssetItem.SetChildren | Assets/InteractiveAssetSelector/Editor/InteractiveAssetSelector.cs:116-125 | the loop over the children sets the flags strictly below the folder to `v` and no other flag |
| AssetTree.AssetItem.SetDescendants | Assets/InteractiveAssetSelector/Editor/InteractiveAssetSelector.cs:115-138 | the recursion sets the flags strictly below the folder to `v` and no other flag |
| AssetTree.AssetItem.SetFlag | Assets/InteractiveAssetSelector/Editor/InteractiveAssetSelector.cs:117-124 | one child's turn: the child and everything below it get `v`, nothing else changes |
| AssetTree.IndexOf | Assets/InteractiveAssetSelector/Editor/InteractiveAssetSelector.cs:349 | `List.Remove`'s search: -1 exactly when the item is absent, otherwise the index of its first occurrence |
| AssetTree.InteractiveAssetSelector.constructor | Assets/InteractiveAssetSelector/Editor/InteractiveAssetSelector.cs:186-190 | a new window holds a valid tree made of the fresh root alone (`nodes == {selectionRoot}`), with an empty root path, no paths selected and `ignoreEmptyFolders` off |
| AssetTree.InteractiveAssetSelector.SortedInsert | Assets/InteractiveAssetSelector/Editor/InteractiveAssetSelector.cs:221-252 | a sub-asset is refused with null and nothing changes; otherwise the item for the path is returned, the tree stays valid, and the paths present become the old ones plus the path and every folder above it; a path already present changes nothing; a new item is selected, open and childless |
| AssetTree.InteractiveAssetSelector.Added | Assets/InteractiveAssetSelector/Editor/InteractiveAssetSelector.cs:196-201 | the paths a run of `SortedInsert` calls adds: each path that is not a sub-asset and every folder above it are in it |
| AssetTree.InteractiveAssetSelector.AddedOnly | Assets/InteractiveAssetSelector/Editor/InteractiveAssetSelector.cs:196-201 | `Added` holds nothing else: every path in it is an inserted path that is not a sub-asset, or a folder above one |
| AssetTree.InteractiveAssetSelector.AddedAll | Assets/InteractiveAssetSelector/Editor/InteractiveAssetSelector.cs:203-219 | the paths the bulk insert adds: every path's own additions are in it, and with `recursive` also the additions of what was found below each path; without `recursive` it is exactly `Added` |
| AssetTree.InteractiveAssetSelector.ParentFolder | Assets/InteractiveAssetSelector/Editor/InteractiveAssetSelector.cs:233-241 | returns the folder whose path is the text before the last slash, or the root when there is no slash; the folders above the path are inserted first |
| AssetTree.InteractiveAssetSelector.InsertUnder | Assets/InteractiveAssetSelector/Editor/InteractiveAssetSelector.cs:243-251 | searches the parent's children; a found item is returned unchanged; otherwise exactly one new item with that path joins the tree |
| AssetTree.InteractiveAssetSelector.Attach | Assets/InteractiveAssetSelector/Editor/InteractiveAssetSelector.cs:245-246 | `children.Insert(~index, item)` at the insertion point: the new children are the old ones with the item at `p`, and the tree stays valid and sorted |
| AssetTree.InteractiveAssetSelector.InsertChild | Assets/InteractiveAssetSelector/Editor/InteractiveAssetSelector.cs:246 | the list insert keeps the tree shape and adds exactly the new item |
| AssetTree.InteractiveAssetSelector.SortedInsertAll | Assets/InteractiveAssetSelector/Editor/InteractiveAssetSelector.cs:196-201 | inserting each path and then validating keeps the tree valid; without pruning the paths become exactly the old ones plus what each insert adds, and with pruning no other path appears |
| AssetTree.InteractiveAssetSelector.InsertEach | Assets/InteractiveAssetSelector/Editor/InteractiveAssetSelector.cs:197-199 | after the loop the paths are exactly the old ones plus those of each inserted path and its folders |
| AssetTree.InteractiveAssetSelector.SortedInsertPaths | Assets/InteractiveAssetSelector/Editor/InteractiveAssetSelector.cs:203-208 | the bulk insert keeps the tree valid; without pruning the paths become the old ones plus what each path adds, its found contents first when `recursive`; with pruning no other path appears |
| AssetTree.InteractiveAssetSelector.InsertEachPath | Assets/InteractiveAssetSelector/Editor/InteractiveAssetSelector.cs:204-206 | the loop keeps the tree valid; without pruning it adds, path after path, exactly what `AddedAll` says, and with pruning nothing beyond it |
| AssetTree.InteractiveAssetSelector.InsertNextPath | Assets/InteractiveAssetSelector/Editor/InteractiveAssetSelector.cs:205 | one turn of the loop keeps the tree valid and extends the paths added so far by what path `i` adds (exactly without pruning, as an upper bound with it) |
| AssetTree.InteractiveAssetSelector.InsertPath | Assets/InteractiveAssetSelector/Editor/InteractiveAssetSelector.cs:214-219 | with `recursive`, the assets found below the path go in first through the non-recursive bulk insert, then the path itself; without `recursive` the paths gained are exactly the path and the folders above it; either way the path and its folders are present afterwards, and without pruning the paths gained are exactly theirs and the path's |
| AssetTree.InteractiveAssetSelector.DoFolderToggle | Assets/InteractiveAssetSelector/Editor/InteractiveAssetSelector.cs:273-290 | the folder's value after drawing is the value before, with everything below set to the toggle's value when the click changed it; its own flag says whether everything below was selected before the click; nothing outside the folder changes |
| AssetTree.InteractiveAssetSelector.ClickFolder | Assets/InteractiveAssetSelector/Editor/InteractiveAssetSelector.cs:279-289 | the toggle's value becomes the folder's flag, and on a change everything below takes it too; nothing outside the folder changes |
| AssetTree.InteractiveAssetSelector.SetOwnFlag | Assets/InteractiveAssetSelector/Editor/InteractiveAssetSelector.cs:290 | assigning the folder's flag changes its value in that flag only |
| AssetTree.InteractiveAssetSelector.ValidateSelection | Assets/InteractiveAssetSelector/Editor/InteractiveAssetSelector.cs:499-503 | with `ignoreEmptyFolders` the root's value becomes its pruned value and no folder below is left empty; without it nothing changes |
| AssetTree.InteractiveAssetSelector.RemoveEmptyFolders | Assets/InteractiveAssetSelector/Editor/InteractiveAssetSelector.cs:505-514 | the folder's value becomes `Prune` of its old value, the tree stays valid and only loses items, and nothing outside the folder changes |
| AssetTree.InteractiveAssetSelector.PruneFolder | Assets/InteractiveAssetSelector/Editor/InteractiveAssetSelector.cs:505-514 | the recursive call on a folder: its view becomes `Prune` of what it was, and everything outside it stays as it was |
| AssetTree.InteractiveAssetSelector.PruneChildren | Assets/InteractiveAssetSelector/Editor/InteractiveAssetSelector.cs:506-513 | the `RemoveAll` predicate visits the children in order; the children it keeps show exactly `PruneOf` of the old children |
| AssetTree.InteractiveAssetSelector.PruneStep | Assets/InteractiveAssetSelector/Editor/InteractiveAssetSelector.cs:506-513 | one child's turn extends the kept list by that child unless it was left an empty folder, and only that child's subtree changes |
| AssetTree.InteractiveAssetSelector.PruneChild | Assets/InteractiveAssetSelector/Editor/InteractiveAssetSelector.cs:507-512 | the predicate prunes a child folder first, and keeps the child exactly when it is not a folder without children |
| AssetTree.InteractiveAssetSelector.CommitPrune | Assets/InteractiveAssetSelector/Editor/InteractiveAssetSelector.cs:506 | dropping the children the predicate rejected leaves the folder showing `Prune` of its old value |
| AssetTree.InteractiveAssetSelector.DropEmpty | Assets/InteractiveAssetSelector/Editor/InteractiveAssetSelector.cs:506 | `RemoveAll` leaves exactly the kept children in order, the dropped empty folders leave the tree, and no other item changes |
| AssetTree.InteractiveAssetSelector.DropChildren | Assets/InteractiveAssetSelector/Editor/InteractiveAssetSelector.cs:506 | removing childless children keeps the tree shape and takes exactly them out |
| AssetTree.InteractiveAssetSelector.RemoveFromSelector | Assets/InteractiveAssetSelector/Editor/InteractiveAssetSelector.cs:348-351 | the item and everything within it leave the tree, and the tree stays valid; without pruning nothing else leaves, and the parent's children lose exactly that item in place; with pruning no folder is left empty |
| AssetTree.InteractiveAssetSelector.Detach | Assets/InteractiveAssetSelector/Editor/InteractiveAssetSelector.cs:349 | `parent.children.Remove(asset)` takes out the first (only) occurrence; the subtree leaves the tree, and the parent's value becomes `WithoutChild` of its old value at that index |
| AssetTree.InteractiveAssetSelector.RemoveAt | Assets/InteractiveAssetSelector/Editor/InteractiveAssetSelector.cs:349 | removing child `k` leaves the other children in order, keeps the tree valid and sorted, and the parent's value loses exactly child `k` |
| AssetTree.InteractiveAssetSelector.DetachAt | Assets/InteractiveAssetSelector/Editor/InteractiveAssetSelector.cs:349 | removing child `k` changes only the parent's children and what lies within the removed child |
| AssetTree.InteractiveAssetSelector.RemoveChild | Assets/InteractiveAssetSelector/Editor/InteractiveAssetSelector.cs:349 | the list removal keeps the tree shape and takes out exactly the removed child's subtree |
| AssetTree.InsertedNamesSorted | Assets/InteractiveAssetSelector/Editor/InteractiveAssetSelector.cs:243-246 | inserting at the place `BinarySearch` reports keeps a folder's children strictly sorted |
| AssetTree.PathsUnique | Assets/InteractiveAssetSelector/Editor/InteractiveAssetSelector.cs:221-252 | no two items of a valid tree have the same path |
| AssetTree.ChildPath | Assets/InteractiveAssetSelector/Editor/InteractiveAssetSelector.cs:243-250 | a child of the parent folder with the searched name has the searched path |
| AssetTree.FoundUnderParent | Assets/InteractiveAssetSelector/Editor/InteractiveAssetSelector.cs:243-250 | an item already present for the path is a child of its parent folder under the path's name, so the search finds it |
| AssetTree.NotFoundAbsent | Assets/InteractiveAssetSelector/Editor/InteractiveAssetSelector.cs:243-248 | when the search reports an insertion point, the path is absent from the whole tree |
| AssetTree.AncestorsPresent | Assets/InteractiveAssetSelector/Editor/InteractiveAssetSelector.cs:233-241 | every folder above an item's path is in the tree |
| AssetTree.AddAncestors | Assets/InteractiveAssetSelector/Editor/InteractiveAssetSelector.cs:235-241 | inserting the parent folder adds exactly the folders above the path |
| SelectionModel.State | Assets/InteractiveAssetSelector/Editor/InteractiveAssetSelector.cs:101-110 | what one child adds to the summary is -1, 0 or 1, and an empty folder adds 0 ("nothing selected") |
| SelectionModel.AnySelected | Assets/InteractiveAssetSelector/Editor/InteractiveAssetSelector.cs:97-113 | the `any` flag of the loop; it can only be set once a child has been seen |
| SelectionModel.AllSelected | Assets/InteractiveAssetSelector/Editor/InteractiveAssetSelector.cs:97-113 | the `all` flag of the loop; it starts set, so it holds for no children |
| SelectionModel.ChildrenSelected | Assets/InteractiveAssetSelector/Editor/InteractiveAssetSelector.cs:97-113 | the summary of a folder is -1, 0 or 1, and a folder without children has summary 0 |
| SelectionModel.TriState | Assets/InteractiveAssetSelector/Editor/InteractiveAssetSelector.cs:97-113 | the summary as the leaves define it: 0 exactly when no leaf below is selected, 1 exactly when there are children, every leaf below is selected and no folder below is empty, -1 otherwise |
| SelectionModel.AnySelectedExists | Assets/InteractiveAssetSelector/Editor/InteractiveAssetSelector.cs:80-95 | the `any` flag holds exactly when some child's state is not "none" |
| SelectionModel.AllSelectedForall | Assets/InteractiveAssetSelector/Editor/InteractiveAssetSelector.cs:97-113 | the `all` flag holds exactly when every child's state is "all" |
| SelectionModel.SummaryStep | Assets/InteractiveAssetSelector/Editor/InteractiveAssetSelector.cs:99-111 | one turn of the summary loop updates `any` and `all` from the child's state |
| SelectionModel.StateMeaning | Assets/InteractiveAssetSelector/Editor/InteractiveAssetSelector.cs:97-113 | an item's state is not "none" exactly when a selected leaf is at or below it, and is "all" exactly when every leaf at or below is selected and no folder there is empty |
| SelectionModel.FlagsMeaning | Assets/InteractiveAssetSelector/Editor/InteractiveAssetSelector.cs:97-113 | `any` means some leaf below is selected; `all` means every leaf below is selected and no folder below is empty |
| SelectionModel.ChildrenSelectedMeaning | Assets/InteractiveAssetSelector/Editor/InteractiveAssetSelector.cs:97-113 | the loop's summary equals `TriState`, which is defined from the leaves below; it is 0 exactly when no leaf below is selected |
| SelectionModel.SetAll | Assets/InteractiveAssetSelector/Editor/InteractiveAssetSelector.cs:115-138 | an item with its own and every flag below set to `v`: same path, name, kind, foldout and number of children |
| SelectionModel.SetAllOf | Assets/InteractiveAssetSelector/Editor/InteractiveAssetSelector.cs:116-125 | the children after the loop: same number and names, every one with flag `v` |
| SelectionModel.SetBelow | Assets/InteractiveAssetSelector/Editor/InteractiveAssetSelector.cs:115-138 | the folder after `SelectChildren`/`DeselectChildren`: its own flag, path, name and foldout are kept, and each child keeps its name and gets flag `v` |
| SelectionModel.DescendantsOfSetAll | Assets/InteractiveAssetSelector/Editor/InteractiveAssetSelector.cs:115-138 | setting every flag below, then listing the items, equals listing them, then setting the flags |
| SelectionModel.SelectedFlat | Assets/InteractiveAssetSelector/Editor/InteractiveAssetSelector.cs:115-126 | once every flag is set, some leaf is selected exactly when there is a leaf, and everything is selected exactly when no folder is empty |
| SelectionModel.SelectFills | Assets/InteractiveAssetSelector/Editor/InteractiveAssetSelector.cs:115-126 | after SelectChildren the summary is "none" exactly when there is no leaf below, and "all" exactly when there are children, some leaf and no empty folder below |
| SelectionModel.DeselectClears | Assets/InteractiveAssetSelector/Editor/InteractiveAssetSelector.cs:127-138 | after DeselectChildren the summary is "none" |
| SelectionModel.SetAllTwice | Assets/InteractiveAssetSelector/Editor/InteractiveAssetSelector.cs:115-138 | setting all flags twice is the same as setting them once to the last value |
| SelectionModel.SetBelowOnlyFlags | Assets/InteractiveAssetSelector/Editor/InteractiveAssetSelector.cs:282-289 | selecting or deselecting below a folder changes selection flags only: once every flag is set to one value, the tree before and the tree after are equal |
| SelectionModel.WithoutChild | Assets/InteractiveAssetSelector/Editor/InteractiveAssetSelector.cs:349 | the folder after removing child `k`: its own fields are kept, it has one child fewer, the children before `k` stay where they were, and those after it move up by one |
| SelectionModel.WithoutChildDescendants | Assets/InteractiveAssetSelector/Editor/InteractiveAssetSelector.cs:349 | removing child `k` removes from the folder's items exactly that child and everything below it, and keeps the others in order |
| SelectionModel.WithoutChildLeaves | Assets/InteractiveAssetSelector/Editor/InteractiveAssetSelector.cs:349 | removing child `k` removes exactly that child's leaves from the folder's leaves |
| SelectionModel.Prune | Assets/InteractiveAssetSelector/Editor/InteractiveAssetSelector.cs:505-514 | a pruned item keeps its path, name, kind, flag and foldout |
| SelectionModel.PruneOfShape | Assets/InteractiveAssetSelector/Editor/InteractiveAssetSelector.cs:506-513 | `RemoveAll` on the children, as `PruneOf` computes it, keeps no more children than there were, and none of those kept is an empty folder |
| SelectionModel.PruneLeavesNoEmptyFolder | Assets/InteractiveAssetSelector/Editor/InteractiveAssetSelector.cs:505-514 | after pruning, no folder anywhere below is empty |
| SelectionModel.PruneKeepsLeaves | Assets/InteractiveAssetSelector/Editor/InteractiveAssetSelector.cs:505-514 | pruning keeps every leaf, in order |
| SelectionModel.PruneStable | Assets/InteractiveAssetSelector/Editor/InteractiveAssetSelector.cs:505-514 | a tree without empty folders is left as it is |
| SelectionModel.PruneIdempotent | Assets/InteractiveAssetSelector/Editor/InteractiveAssetSelector.cs:499-514 | validating twice gives the same tree as validating once |
| SelectionModel.PruneOfSubsequence | Assets/InteractiveAssetSelector/Editor/InteractiveAssetSelector.cs:506-513 | every child left after pruning is the pruned form of an original child with the same name |
| SelectionModel.PruneKeepsSorted | Assets/InteractiveAssetSelector/Editor/InteractiveAssetSelector.cs:506-513 | pruning keeps a folder's children strictly sorted by name |

## Left out

- The drawing code is not modelled: layout, icons, scroll position, indentation, the foldout control (`ContentlessFoldout`), context menus, drag and drop, and the `OnEndGUI` delegate and its Export button. The operations that the menus and drag and drop call are modelled: removal, the recursive insert and `ValidateSelection`.
- "Colapse children foldouts" (lines 328-334) only sets the `foldout` flag of the child folders, and it is not modelled.
- Asset database calls become parameters of the window. `GetAssetPath` is replaced by the asset's path. `IsValidFolder` and `IsSubAsset` are functions on paths. `GetAssetsAtPaths`, `FindAssets` and `GetDependencies` become the `contents` function or the `found` list. `LoadAssetAtPath` is not modelled.
- `EditorUtility.NaturalCompare` is only required to be a strict total order on names. Its digit-run rules are not modelled.
- `Debug.Log` calls, window creation (`GetWindow`, `Repaint`, `Close`) and the menu-item wiring are not modelled.
- SortedInsert: a path with a folder above it that the asset database does not call a valid folder, or that is a sub-asset, is excluded by a precondition. In the source, the parent lookup then gives null, and `parent.BinarySearch` would throw.
- SortedInsertAll: with `ignoreEmptyFolders` set, the contract states only that no path outside the old ones and the inserted ones appears. It does not name which inserted folders pruning removes.
- SortedInsertPaths: with `ignoreEmptyFolders` set, the contract states only that no path outside the old ones and the inserted ones appears.
- InsertEachPath: with `ignoreEmptyFolders` set, the contract states only that no path outside the old ones and the inserted ones appears. It does not name which inserted folders pruning removes.
- InsertNextPath: with `ignoreEmptyFolders` set, the contract states only that no path outside the old ones and the inserted ones appears after each turn.
- InsertPath: with `ignoreEmptyFolders` and `recursive` set, the contract states that the path and its folders are present and that no other new path appears. It does not state which of the found paths survive the pruning.
- RemoveFromSelector: with `ignoreEmptyFolders` set, the contract states only that the removed subtree is gone and no empty folder is left. It does not state the exact pruned value of the tree.
- DoFolderToggle: the value the toggle returns after a click is a parameter. What Unity's `ToggleLeft` returns for a mixed-state click is not part of this model.
- `List.Remove` on an item missing from its parent's children returns false and changes nothing. In a valid tree the item is always present, so that branch is not modelled.
- `AssetItem.asset` (the Unity object) is not modelled. Items are known by their path.
- The tree depth bound `height` is a ghost proof device. It is not a limit of the source.
