/** Small shared vocabulary: optional values, sequences as sets, and the
    first-two cut that the subset search works with. */
module Prelude {

  datatype Option<+T> = None | Some(value: T)

  function Abs(x: int): int {
    if x < 0 then -x else x
  }

  ghost function Elems<T>(s: seq<T>): set<T> {
    set x | x in s
  }

  ghost predicate NoDups<T>(s: seq<T>) {
    forall i, j :: 0 <= i < j < |s| ==> s[i] != s[j]
  }

  lemma {:induction false} NoDupsCard<T>(s: seq<T>)
    requires NoDups(s)
    ensures |Elems(s)| == |s|
  {
    if s == [] {
    } else {
      var n := |s| - 1;
      NoDupsCard(s[..n]);
      assert Elems(s) == Elems(s[..n]) + {s[n]};
    }
  }

  lemma NoDupsConcat<T>(a: seq<T>, b: seq<T>)
    requires NoDups(a) && NoDups(b)
    requires forall x :: x in a ==> x !in b
    ensures NoDups(a + b)
  {
    forall i, j | 0 <= i < j < |a + b| ensures (a + b)[i] != (a + b)[j] {
      if i < |a| <= j {
        assert a[i] in a && b[j - |a|] in b;
      }
    }
  }

  lemma SubsetCard<T>(a: set<T>, b: set<T>)
    requires a <= b
    ensures |a| <= |b|
    ensures |a| == |b| ==> a == b
  {
    assert b == a + (b - a);
  }

  /** At most the first two items. */
  function FirstTwo<T>(s: seq<T>): seq<T> {
    if |s| > 2 then s[..2] else s
  }

  /** Two items in hand, or nothing more to come: the cut is what is in hand. */
  lemma FirstTwoDone<T>(a: seq<T>, b: seq<T>)
    requires |a| == 2 || (|a| < 2 && b == [])
    ensures FirstTwo(a + b) == a
  {
  }

  lemma FirstTwoAppend<T>(a: seq<T>, b: seq<T>)
    ensures FirstTwo(FirstTwo(a) + b) == FirstTwo(a + b)
  {
  }

  /** One element more. */
  lemma TakeNext<T>(s: seq<T>, i: nat)
    requires i < |s|
    ensures s[..i + 1] == s[..i] + [s[i]]
  {
  }

  lemma TakeAll<T>(s: seq<T>)
    ensures s[..|s|] == s
  {
  }
}
