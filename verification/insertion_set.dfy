/**
 A JavaScript `Set` modelled as the sequence of its elements in insertion order.
 Room member sets and the active-room set are values of this shape, and the order
 matters because `Array.from(set)` is what the server broadcasts.
 */
module InsertionSet {

  /** No element occurs twice. */
  predicate NoDup<T(==)>(s: seq<T>) {
    forall i, j :: 0 <= i < j < |s| ==> s[i] != s[j]
  }

  /** `Set.prototype.add`: an element already present keeps its place, a new one goes last. */
  function Add<T(==,!new)>(s: seq<T>, x: T): (r: seq<T>)
    ensures forall y :: y in r <==> y in s || y == x
    ensures NoDup(s) ==> NoDup(r)
    ensures |s| <= |r| <= |s| + 1 && r[..|s|] == s
    ensures x in s ==> r == s
  {
    if x in s then s else s + [x]
  }

  /** `Set.prototype.delete`: every other element keeps its relative order. */
  function Delete<T(==,!new)>(s: seq<T>, x: T): (r: seq<T>)
    ensures forall y :: y in r <==> y in s && y != x
    ensures NoDup(s) ==> NoDup(r)
    ensures x !in s ==> r == s
    ensures NoDup(s) && x in s ==> |r| == |s| - 1
  {
    if |s| == 0 then []
    else if s[0] == x then Delete(s[1..], x)
    else
      var rest := Delete(s[1..], x);
      NoDupCons(s[0], rest);
      NoDupCons(s[0], s[1..]);
      assert s == [s[0]] + s[1..];
      [s[0]] + rest
  }

  /** Prepending keeps a sequence duplicate-free exactly when the new element is fresh. */
  lemma NoDupCons<T>(x: T, s: seq<T>)
    ensures NoDup([x] + s) <==> x !in s && NoDup(s)
  {
    var t := [x] + s;
    if NoDup(t) {
      forall k | 0 <= k < |s| ensures s[k] != x {
        assert t[k + 1] == s[k] && t[0] != t[k + 1];
      }
      forall i, j | 0 <= i < j < |s| ensures s[i] != s[j] {
        assert t[i + 1] == s[i] && t[j + 1] == s[j];
      }
    }
    if x !in s && NoDup(s) {
      forall i, j | 0 <= i < j < |t| ensures t[i] != t[j] {
        assert t[j] == s[j - 1];
        if i > 0 { assert t[i] == s[i - 1]; }
      }
    }
  }

  /** In a duplicate-free sequence an element that occurs at all occurs exactly once. */
  lemma {:induction false} NoDupOccursOnce<T>(s: seq<T>, x: T)
    requires NoDup(s) && x in s
    ensures multiset(s)[x] == 1
  {
    if s[0] == x {
      assert x !in s[1..];
      assert s == [s[0]] + s[1..];
    } else {
      assert NoDup(s[1..]);
      NoDupOccursOnce(s[1..], x);
      assert s == [s[0]] + s[1..];
    }
  }
}
