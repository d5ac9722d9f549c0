/** Removing from an unordered table: the last entry moves into the gap. */
module SwapTable {

  ghost predicate Distinct<T>(s: seq<T>) {
    forall i, j :: 0 <= i < j < |s| ==> s[i] != s[j]
  }

  function SwapRemoved<T>(s: seq<T>, at: nat): (r: seq<T>)
    requires at < |s|
    ensures |r| == |s| - 1
    ensures forall i :: 0 <= i < |r| ==> r[i] == s[if i == at then |r| else i]
  {
    s[at := s[|s| - 1]][..|s| - 1]
  }

  /** Exactly the entry at that position goes, and no entry comes to be listed twice. */
  lemma SwapRemovedElements<T>(s: seq<T>, at: nat)
    requires at < |s| && Distinct(s)
    ensures Distinct(SwapRemoved(s, at))
    ensures forall x :: x in SwapRemoved(s, at) <==> x in s && x != s[at]
  {
    var r := SwapRemoved(s, at);
    forall x | x in s && x != s[at]
      ensures x in r
    {
      var i :| 0 <= i < |s| && s[i] == x;
      assert x == if i < |s| - 1 then r[i] else r[at];
    }
  }

  lemma SomeElement<T>(s: seq<T>)
    ensures s == [] || exists x :: x in s
  {
    if s != [] {
      assert s[0] in s;
    }
  }
}
