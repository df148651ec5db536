/** Sequences as lists of distinct elements. */
module Sequences {

  predicate NoDuplicates<T(==)>(s: seq<T>) {
    forall i, j | 0 <= i < j < |s| :: s[i] != s[j]
  }

  lemma PrefixMembers<T>(list: seq<T>, longer: seq<T>)
    requires list <= longer
    ensures forall x | x in list :: x in longer
  {
    forall x | x in list ensures x in longer {
      var k :| 0 <= k < |list| && list[k] == x;
      assert longer[k] == x;
    }
  }
}
