/**
 The abstract meaning of the linked list: its contents as a sequence, read
 head to tail. The heap-based list in module SinglyLinkedList is specified
 against the functions here.
 */
module ListSpec {

  /** Position of the first occurrence of `v` in `s`, counting from the head. */
  function IndexOf<T(==)>(s: seq<T>, v: T): (i: nat)
    requires v in s
    ensures i < |s| && s[i] == v
    ensures v !in s[..i]
  {
    if s[0] == v then 0
    else
      var j := IndexOf(s[1..], v);
      assert s[..j + 1] == [s[0]] + s[1..][..j];
      j + 1
  }

  /** The first occurrence is the only position with `v` and no `v` before it. */
  lemma IndexOfUnique<T>(s: seq<T>, v: T, i: nat)
    requires i < |s| && s[i] == v && v !in s[..i]
    ensures v in s
    ensures IndexOf(s, v) == i
  {
  }

  /**
   Deletes the first occurrence of `v`, scanning from the head; a sequence
   without `v` is returned as is.
   */
  function RemoveFirst<T(==)>(s: seq<T>, v: T): (r: seq<T>)
    ensures v !in s ==> r == s
    ensures |r| == if v in s then |s| - 1 else |s|
  {
    if |s| == 0 then []
    else if s[0] == v then s[1..]
    else [s[0]] + RemoveFirst(s[1..], v)
  }

  /**
   Removing `v` whose first occurrence is at `k` cuts out exactly position
   `k` and keeps everything before and after it in order.
   */
  lemma {:induction false} RemoveFirstAt<T>(s: seq<T>, v: T, k: nat)
    requires k < |s| && s[k] == v && v !in s[..k]
    ensures v in s && IndexOf(s, v) == k
    ensures RemoveFirst(s, v) == s[..k] + s[k + 1..]
  {
    IndexOfUnique(s, v, k);
    if k > 0 {
      assert s[0] in s[..k];
      assert s[1..][..k - 1] == s[1..k];
      assert v !in s[1..k] by {
        assert forall x :: x in s[1..k] ==> x in s[..k];
      }
      RemoveFirstAt(s[1..], v, k - 1);
      assert s[..k] == [s[0]] + s[1..][..k - 1];
      assert s[k + 1..] == s[1..][k..];
    }
  }

  /** The result of removal in closed form, for any `v` present in `s`. */
  lemma {:induction false} RemoveFirstSplices<T>(s: seq<T>, v: T)
    requires v in s
    ensures var i := IndexOf(s, v); RemoveFirst(s, v) == s[..i] + s[i + 1..]
  {
    var i := IndexOf(s, v);
    RemoveFirstAt(s, v, i);
  }

  /** Cutting out position 0 is dropping the head. */
  lemma CutFirst<T>(s: seq<T>)
    requires |s| > 0
    ensures s[..0] + s[1..] == s[1..]
  {
  }

  /** The prefix as long as the sequence is the sequence. */
  lemma FullPrefix<T>(s: seq<T>)
    ensures s[..|s|] == s
  {
  }

  /** Removal takes away exactly one copy of `v`, and only when there is one. */
  lemma {:induction false} RemoveFirstMultiset<T>(s: seq<T>, v: T)
    ensures multiset(RemoveFirst(s, v)) == multiset(s) - multiset{v}
  {
    if |s| == 0 {
    } else {
      assert s == [s[0]] + s[1..];
      if s[0] != v {
        RemoveFirstMultiset(s[1..], v);
      }
    }
  }

  /** Putting `v` back where it was taken out restores the original sequence. */
  lemma {:induction false} RemoveFirstInsertBack<T>(s: seq<T>, v: T)
    requires v in s
    ensures var i := IndexOf(s, v);
            var r := RemoveFirst(s, v);
            i <= |r| && s == r[..i] + [v] + r[i..]
  {
    var i := IndexOf(s, v);
    RemoveFirstAt(s, v, i);
    var r := RemoveFirst(s, v);
    assert r[..i] == s[..i];
    assert r[i..] == s[i + 1..];
    assert s == s[..i] + [s[i]] + s[i + 1..];
  }

  /** Removal leaves the sequence as it was exactly when `v` is absent. */
  lemma RemoveFirstUnchangedIff<T>(s: seq<T>, v: T)
    ensures RemoveFirst(s, v) == s <==> v !in s
  {
  }

  /** The elements of `s` from tail to head. */
  function Reversed<T>(s: seq<T>): (r: seq<T>)
    ensures |r| == |s|
    ensures forall i :: 0 <= i < |s| ==> r[i] == s[|s| - 1 - i]
  {
    if |s| == 0 then [] else Reversed(s[1..]) + [s[0]]
  }

  /** Reversing a sequence extended at the end puts the new element first. */
  lemma ReversedSnoc<T>(s: seq<T>, v: T)
    ensures Reversed(s + [v]) == [v] + Reversed(s)
  {
  }
}
