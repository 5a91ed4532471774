/**
 A client of the list at T = int, rendering elements in decimal. It shows
 that the contracts of the list operations are strong enough to determine
 concrete results, including the tail repair after removing the last node.
 */
module Scenario {
  import ListSpec
  import Rendering
  import SinglyLinkedList

  function DigitChar(d: nat): char
    requires d < 10
  {
    "0123456789"[d]
  }

  /** Decimal text of a natural number, most significant digit first. */
  function NatText(n: nat): (r: string)
    ensures |r| > 0
    decreases n
  {
    if n < 10 then [DigitChar(n)] else NatText(n / 10) + [DigitChar(n % 10)]
  }

  /** Decimal text of an integer, with a leading '-' when it is negative. */
  function IntText(i: int): string
  {
    if i < 0 then "-" + NatText(-i) else NatText(i)
  }

  /** The braced decimal texts the run below needs. */
  lemma SmallTexts()
    ensures Rendering.Braced(IntText, -1) == "{-1}" && Rendering.Braced(IntText, 0) == "{0}"
    ensures Rendering.Braced(IntText, 1) == "{1}" && Rendering.Braced(IntText, 2) == "{2}"
    ensures Rendering.Braced(IntText, 5) == "{5}"
  {
  }

  lemma JoinThree(x: string, y: string, z: string, sep: string)
    ensures Rendering.Join([x, y, z], sep) == x + sep + y + sep + z
  {
    assert [x, y, z][1..] == [y, z];
    assert [y, z][1..] == [z];
    assert Rendering.Join([y, z], sep) == y + sep + z;
  }

  lemma JoinFour(w: string, x: string, y: string, z: string, sep: string)
    ensures Rendering.Join([w, x, y, z], sep) == w + sep + x + sep + y + sep + z
  {
    assert [w, x, y, z][1..] == [x, y, z];
    JoinThree(x, y, z, sep);
    assert Rendering.Join([w, x, y, z], sep) == w + sep + (x + sep + y + sep + z);
  }

  lemma FourItems()
    ensures Rendering.Items(IntText, [-1, 0, 1, 2]) == ["{-1}", "{0}", "{1}", "{2}"]
  {
    SmallTexts();
    var items := Rendering.Items(IntText, [-1, 0, 1, 2]);
    assert items[0] == "{-1}" && items[1] == "{0}" && items[2] == "{1}" && items[3] == "{2}";
  }

  lemma RenderedFour()
    ensures Rendering.Render(IntText, [-1, 0, 1, 2]) == "[{-1}, {0}, {1}, {2}]"
  {
    FourItems();
    JoinFour("{-1}", "{0}", "{1}", "{2}", ", ");
    assert "{-1}" + ", " + "{0}" + ", " + "{1}" + ", " + "{2}" == "{-1}, {0}, {1}, {2}";
  }

  /** Renders a three-element list -1, 0, x whose last braced text is `z`. */
  lemma RenderedThree(s: seq<int>, z: string)
    requires |s| == 3 && s[0] == -1 && s[1] == 0 && Rendering.Braced(IntText, s[2]) == z
    ensures Rendering.Render(IntText, s) == "[" + "{-1}, {0}, " + z + "]"
  {
    SmallTexts();
    var items := Rendering.Items(IntText, s);
    assert items == ["{-1}", "{0}", z];
    JoinThree("{-1}", "{0}", z, ", ");
    assert Rendering.Join(items, ", ") == "{-1}, {0}, " + z;
  }

  /** The contents left by removing 1 from [-1, 0, 1, 2], and by removing the absent 99. */
  lemma RemovedInner()
    ensures ListSpec.RemoveFirst([-1, 0, 1, 2], 1) == [-1, 0, 2]
    ensures ListSpec.RemoveFirst([-1, 0, 2], 99) == [-1, 0, 2]
  {
  }

  /** The contents left by removing the tail value 2 from [-1, 0, 2]. */
  lemma RemovedTail()
    ensures ListSpec.RemoveFirst([-1, 0, 2], 2) == [-1, 0]
  {
  }

  /** A new list filled by calling AddLast with each of `vs` in turn: it holds `vs` in order. */
  method FromAddLast<T(==)>(vs: seq<T>, show: T -> string) returns (list: SinglyLinkedList.LinkedList<T>, text: string)
    ensures list.Valid() && list.Contents == vs && list.count == |vs|
    ensures text == Rendering.Render(show, vs)
  {
    list := new SinglyLinkedList.LinkedList<T>();
    var i := 0;
    while i < |vs|
      invariant 0 <= i <= |vs|
      invariant list.Valid() && fresh(list.Repr)
      invariant list.Contents == vs[..i]
    {
      list.AddLast(vs[i]);
      assert vs[..i + 1] == vs[..i] + [vs[i]];
      i := i + 1;
    }
    ListSpec.FullPrefix(vs);
    text := list.ToString(show);
  }

  /** A new list filled by calling AddFirst with each of `vs` in turn: it holds `vs` backwards. */
  method FromAddFirst<T(==)>(vs: seq<T>, show: T -> string) returns (list: SinglyLinkedList.LinkedList<T>, text: string)
    ensures list.Valid() && list.Contents == ListSpec.Reversed(vs) && list.count == |vs|
    ensures text == Rendering.Render(show, ListSpec.Reversed(vs))
  {
    list := new SinglyLinkedList.LinkedList<T>();
    var i := 0;
    while i < |vs|
      invariant 0 <= i <= |vs|
      invariant list.Valid() && fresh(list.Repr)
      invariant list.Contents == ListSpec.Reversed(vs[..i])
    {
      list.AddFirst(vs[i]);
      assert vs[..i + 1] == vs[..i] + [vs[i]];
      ListSpec.ReversedSnoc(vs[..i], vs[i]);
      i := i + 1;
    }
    ListSpec.FullPrefix(vs);
    text := list.ToString(show);
  }

  /** Adds 0, 1, 2 at the end and then -1 at the front of a new list. */
  method Build() returns (list: SinglyLinkedList.LinkedList<int>, built: string)
    ensures list.Valid() && fresh(list.Repr)
    ensures list.Contents == [-1, 0, 1, 2]
    ensures built == "[{-1}, {0}, {1}, {2}]"
  {
    list := new SinglyLinkedList.LinkedList<int>();
    list.AddLast(0);
    list.AddLast(1);
    list.AddLast(2);
    list.AddFirst(-1);
    built := list.ToString(IntText);
    RenderedFour();
  }

  /** Removes the present value 1 and then the absent value 99. */
  method RemoveInner(list: SinglyLinkedList.LinkedList<int>) returns (removedOne: bool, removedMissing: bool)
    requires list.Valid() && list.Contents == [-1, 0, 1, 2]
    modifies list.Repr
    ensures list.Valid() && fresh(list.Repr - old(list.Repr))
    ensures list.Contents == [-1, 0, 2]
    ensures removedOne && !removedMissing
  {
    removedOne := list.Remove(1);
    RemovedInner();
    removedMissing := list.Remove(99);
  }

  /** Removes the tail value 2, so that a following AddLast links after the new tail 0. */
  method RemoveTailThenAddLast(list: SinglyLinkedList.LinkedList<int>) returns (removedTail: bool)
    requires list.Valid() && list.Contents == [-1, 0, 2]
    modifies list.Repr
    ensures list.Valid() && fresh(list.Repr - old(list.Repr))
    ensures removedTail && list.Contents == [-1, 0, 5]
  {
    removedTail := list.Remove(2);
    RemovedTail();
    list.AddLast(5);
  }

  /** The text of a list holding -1, 0 and `x`, where `x` prints in braces as `z`. */
  method ThreeText(list: SinglyLinkedList.LinkedList<int>, x: int, z: string) returns (text: string)
    requires list.Valid() && list.Contents == [-1, 0, x]
    requires Rendering.Braced(IntText, x) == z
    ensures text == "[" + "{-1}, {0}, " + z + "]"
  {
    text := list.ToString(IntText);
    RenderedThree([-1, 0, x], z);
  }

  /** A cleared list is reusable: adding to it afterwards gives a one-element list. */
  method ClearThenAddLast(list: SinglyLinkedList.LinkedList<int>, v: int)
    requires list.Valid()
    modifies list.Repr
    ensures list.Valid() && list.Contents == [v] && list.head == list.tail
  {
    list.Clear();
    list.AddLast(v);
  }

  /** Empties the list; its text is then "[]" and reading its first element fails. */
  method ClearAndInspect(list: SinglyLinkedList.LinkedList<int>) returns (text: string, first: SinglyLinkedList.Result<int>)
    requires list.Valid()
    modifies list
    ensures text == "[]"
    ensures first == SinglyLinkedList.Failure(SinglyLinkedList.InvalidOperation("List is empty"))
  {
    list.Clear();
    text := list.ToString(IntText);
    first := list.First();
  }

  /** The literal texts of the two three-element lists the run renders. */
  lemma ThreeLiterals()
    ensures "[" + "{-1}, {0}, " + "{2}" + "]" == "[{-1}, {0}, {2}]"
    ensures "[" + "{-1}, {0}, " + "{5}" + "]" == "[{-1}, {0}, {5}]"
  {
  }

  /**
   Builds [-1, 0, 1, 2], removes 1 and the absent 99, then removes the tail
   value 2 and adds 5 at the end, and finally clears the list.
   */
  method Run() returns (built: string, afterRemove: string, removedOne: bool, removedMissing: bool,
                        afterTailRepair: string, cleared: string, firstWhenEmpty: SinglyLinkedList.Result<int>)
    ensures built == "[{-1}, {0}, {1}, {2}]"
    ensures removedOne && afterRemove == "[{-1}, {0}, {2}]"
    ensures !removedMissing
    ensures afterTailRepair == "[{-1}, {0}, {5}]"
    ensures cleared == "[]"
    ensures firstWhenEmpty == SinglyLinkedList.Failure(SinglyLinkedList.InvalidOperation("List is empty"))
  {
    var list;
    list, built := Build();
    removedOne, removedMissing := RemoveInner(list);
    SmallTexts();
    afterRemove := ThreeText(list, 2, "{2}");
    var removedTail := RemoveTailThenAddLast(list);
    afterTailRepair := ThreeText(list, 5, "{5}");
    cleared, firstWhenEmpty := ClearAndInspect(list);
    ThreeLiterals();
  }
}
