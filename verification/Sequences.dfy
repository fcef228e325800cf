// Sequences of different elements: the clusters of a chain, the nodes of a list, the processes'
// page directories.

module Sequences {
  predicate Distinct<T(==)>(s: seq<T>) {
    forall i, j | 0 <= i < j < |s| :: s[i] != s[j]
  }

  lemma DistinctWithout<T>(s: seq<T>, k: nat)
    requires Distinct(s) && k < |s|
    ensures Distinct(s[..k] + s[k + 1..])
    ensures forall x :: x in s[..k] + s[k + 1..] <==> x in s && x != s[k]
  {
    var rest := s[..k] + s[k + 1..];
    assert forall i | 0 <= i < |rest| :: rest[i] == s[if i < k then i else i + 1];
    forall x | x in s && x != s[k] ensures x in rest {
      var j :| 0 <= j < |s| && s[j] == x;
      assert rest[if j < k then j else j - 1] == x;
    }
  }

  lemma DistinctWith<T>(s: seq<T>, at: nat, u: T)
    requires Distinct(s) && at < |s| && u !in s
    ensures Distinct(s[..at] + [u] + s[at..])
  {
    var new' := s[..at] + [u] + s[at..];
    forall i, j | 0 <= i < j < |new'| ensures new'[i] != new'[j] {
      assert new'[i] == if i < at then s[i] else if i == at then u else s[i - 1];
      assert new'[j] == if j < at then s[j] else if j == at then u else s[j - 1];
    }
  }
}
