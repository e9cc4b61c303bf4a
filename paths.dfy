/**
 * Slash-delimited asset paths ("Assets/Textures/rock.png").
 *
 * The selector never splits a path into components: it finds the last '/'
 * (C#'s `LastIndexOf('/')`), calls the text after it the item's name and the
 * text before it the parent folder's path.
 */
module Paths {

  /** C#'s `s.LastIndexOf('/')`: the index of the last slash, or -1 when there is none. */
  function LastIndexOfSlash(s: string): (k: int)
    ensures -1 <= k < |s|
    ensures 0 <= k ==> s[k] == '/'
    ensures forall i :: k < i < |s| ==> s[i] != '/'
  {
    if s == [] then -1
    else if s[|s| - 1] == '/' then |s| - 1
    else LastIndexOfSlash(s[..|s| - 1])
  }

  /** A path with a slash lives in the folder named by the text before its last slash. */
  predicate HasParentPath(path: string) {
    LastIndexOfSlash(path) >= 0
  }

  /** The display name of an item: the text after the last slash (the whole path if there is none). */
  function Name(path: string): (name: string)
    ensures '/' !in name
    ensures !HasParentPath(path) ==> name == path
    ensures |name| <= |path|
  {
    var k := LastIndexOfSlash(path);
    if k < 0 then path
    else
      var name := path[k + 1..];
      assert '/' !in name by {
        forall j | 0 <= j < |name| ensures name[j] != '/' {
          assert name[j] == path[k + 1 + j];
        }
      }
      name
  }

  /** The path of the folder that holds `path`: the text before the last slash. */
  function ParentPath(path: string): (parent: string)
    requires HasParentPath(path)
    ensures |parent| < |path|
  {
    path[..LastIndexOfSlash(path)]
  }

  /** A path with a slash is its parent's path, a slash and its name. */
  lemma SplitPath(path: string)
    requires HasParentPath(path)
    ensures path == ParentPath(path) + "/" + Name(path)
  {
    var k := LastIndexOfSlash(path);
    assert path == path[..k] + "/" + path[k + 1..];
  }

  /**
   * Every proper folder prefix of `path`, nearest first: the paths that
   * SortedInsert makes sure exist before it places `path` itself.
   */
  function Ancestors(path: string): (a: seq<string>)
    ensures forall i :: 0 <= i < |a| ==> |a[i]| < |path|
    decreases |path|
  {
    if HasParentPath(path) then [ParentPath(path)] + Ancestors(ParentPath(path)) else []
  }

  /** Splitting a path at its last slash and joining the parts again gives back the path. */
  lemma {:induction false} JoinSplit(parent: string, name: string)
    requires '/' !in name
    ensures HasParentPath(parent + "/" + name)
    ensures ParentPath(parent + "/" + name) == parent
    ensures Name(parent + "/" + name) == name
  {
    var path := parent + "/" + name;
    var k := LastIndexOfSlash(path);
    assert path[|parent|] == '/';
    forall i | |parent| < i < |path| ensures path[i] != '/' {
      assert path[i] == name[i - |parent| - 1];
    }
    assert k == |parent|;
    assert path[k + 1..] == name;
  }

  /** The ancestors of `parent/name` are `parent` followed by the ancestors of `parent`. */
  lemma {:induction false} AncestorsOfJoin(parent: string, name: string)
    requires '/' !in name
    ensures Ancestors(parent + "/" + name) == [parent] + Ancestors(parent)
  {
    JoinSplit(parent, name);
  }
}
