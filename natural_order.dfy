/**
 * The order in which a folder keeps its children.
 *
 * The selector compares names with the editor's `EditorUtility.NaturalCompare`,
 * whose definition is not part of this model. It is a parameter here: any
 * three-way comparison that is a strict total order on names, with 0 meaning
 * "the same name".
 */
module NaturalOrder {

  /** A three-way comparison: negative, zero or positive as `a` sorts before, with or after `b`. */
  type Comparator = (string, string) -> int

  ghost predicate IsTotalOrder(compare: Comparator) {
    && (forall a, b :: compare(a, b) == 0 <==> a == b)
    && (forall a, b :: compare(a, b) < 0 <==> compare(b, a) > 0)
    && (forall a, b, c {:trigger Chain(compare, a, b, c)} :: Chain(compare, a, b, c) ==> compare(a, c) < 0)
  }

  /**
   * `a` sorts before `b` and `b` before `c`. Transitivity is stated over this
   * predicate so that the solver applies it only where a proof names a chain.
   */
  ghost predicate Chain(compare: Comparator, a: string, b: string, c: string) {
    compare(a, b) < 0 && compare(b, c) < 0
  }

  /** Names in strictly increasing order: sorted, and no name twice. */
  ghost predicate StrictlySorted(compare: Comparator, names: seq<string>) {
    forall i, j :: 0 <= i < j < |names| ==> compare(names[i], names[j]) < 0
  }

  /** `p` is where `key` belongs in `names`: everything before it sorts lower, everything from it on higher. */
  ghost predicate InsertionPoint(compare: Comparator, names: seq<string>, key: string, p: int) {
    && 0 <= p <= |names|
    && (forall i :: 0 <= i < p ==> compare(names[i], key) < 0)
    && (forall i :: p <= i < |names| ==> compare(names[i], key) > 0)
  }

  /** In a strictly sorted list, equal names sit at the same index. */
  lemma {:induction false} SortedNamesDistinct(compare: Comparator, names: seq<string>, i: int, j: int)
    requires IsTotalOrder(compare) && StrictlySorted(compare, names)
    requires 0 <= i < |names| && 0 <= j < |names| && names[i] == names[j]
    ensures i == j
  {
  }

  /** Placing `key` at its insertion point keeps the list strictly sorted. */
  lemma {:induction false} InsertKeepsSorted(compare: Comparator, names: seq<string>, key: string, p: int)
    requires IsTotalOrder(compare) && StrictlySorted(compare, names)
    requires InsertionPoint(compare, names, key, p)
    ensures StrictlySorted(compare, names[..p] + [key] + names[p..])
  {
    var r := names[..p] + [key] + names[p..];
    forall i, j | 0 <= i < j < |r| ensures compare(r[i], r[j]) < 0 {
      if j < p {
        assert r[i] == names[i] && r[j] == names[j];
      } else if j == p {
        assert r[i] == names[i] && r[j] == key;
      } else if i == p {
        assert r[i] == key && r[j] == names[j - 1];
        assert compare(names[j - 1], key) > 0;
      } else if i < p {
        assert r[i] == names[i] && r[j] == names[j - 1];
      } else {
        assert r[i] == names[i - 1] && r[j] == names[j - 1];
      }
    }
  }

  /** Taking one name out of a strictly sorted list leaves it strictly sorted. */
  lemma {:induction false} RemoveKeepsSorted(compare: Comparator, names: seq<string>, k: int)
    requires StrictlySorted(compare, names)
    requires 0 <= k < |names|
    ensures StrictlySorted(compare, names[..k] + names[k + 1..])
  {
    var r := names[..k] + names[k + 1..];
    forall i, j | 0 <= i < j < |r| ensures compare(r[i], r[j]) < 0 {
      var i' := if i < k then i else i + 1;
      var j' := if j < k then j else j + 1;
      assert r[i] == names[i'] && r[j] == names[j'];
    }
  }
}
