/**
 The text form of a list: "[]" when it is empty, otherwise every element
 in braces, head to tail, separated by ", " and enclosed in "[" "]".
 How a single element prints is the caller's `show` function.
 */
module Rendering {

  /** One node's rendering: the element's own text wrapped in braces. */
  function Braced<T>(show: T -> string, x: T): (r: string)
    ensures |r| == |show(x)| + 2
    ensures r[0] == '{' && r[|r| - 1] == '}' && r[1..|r| - 1] == show(x)
  {
    "{" + show(x) + "}"
  }

  /** The parts in order with `sep` between neighbours and none at the end. */
  function Join(parts: seq<string>, sep: string): string
  {
    if |parts| == 0 then ""
    else if |parts| == 1 then parts[0]
    else parts[0] + sep + Join(parts[1..], sep)
  }

  /** The braced rendering of each element, in order. */
  function Items<T>(show: T -> string, s: seq<T>): seq<string>
  {
    seq(|s|, i requires 0 <= i < |s| => Braced(show, s[i]))
  }

  /** The parts of a list extended at the end are its old parts and the new element's text. */
  lemma ItemsAppend<T>(show: T -> string, s: seq<T>, v: T)
    ensures Items(show, s + [v]) == Items(show, s) + [Braced(show, v)]
  {
  }

  /** The reference rendering of a whole list with contents `s`. */
  function Render<T>(show: T -> string, s: seq<T>): string
  {
    if |s| == 0 then "[]" else "[" + Join(Items(show, s), ", ") + "]"
  }

  /** Joining one more part at the end adds one separator and that part. */
  lemma {:induction false} JoinAppend(parts: seq<string>, p: string, sep: string)
    requires |parts| > 0
    ensures Join(parts + [p], sep) == Join(parts, sep) + sep + p
  {
    if |parts| == 1 {
      assert (parts + [p])[1..] == [p];
    } else {
      assert (parts + [p])[1..] == parts[1..] + [p];
      JoinAppend(parts[1..], p, sep);
    }
  }

  /** Rendering one more element of `s` extends the joined prefix by one part. */
  lemma JoinItemsPrefixStep<T>(show: T -> string, s: seq<T>, i: nat)
    requires i < |s|
    ensures Join(Items(show, s[..i + 1]), ", ")
            == if i == 0 then Braced(show, s[0])
               else Join(Items(show, s[..i]), ", ") + ", " + Braced(show, s[i])
  {
    var prefix := Items(show, s[..i]);
    assert s[..i + 1] == s[..i] + [s[i]];
    ItemsAppend(show, s[..i], s[i]);
    if i > 0 {
      JoinAppend(prefix, Braced(show, s[i]), ", ");
    }
  }

  /**
   The text written after the first `i` elements of `s`: the opening bracket,
   their braced texts joined, and a separator while more elements follow.
   */
  function Opened<T>(show: T -> string, s: seq<T>, i: nat): string
    requires i <= |s|
  {
    "[" + Join(Items(show, s[..i]), ", ") + (if 0 < i < |s| then ", " else "")
  }

  /** Writing element `i` and, unless it is the last, a separator advances the text by one element. */
  lemma OpenedStep<T>(show: T -> string, s: seq<T>, i: nat)
    requires i < |s|
    ensures Opened(show, s, i) + Braced(show, s[i]) + (if i + 1 < |s| then ", " else "")
            == Opened(show, s, i + 1)
  {
    JoinItemsPrefixStep(show, s, i);
  }

  /** Closing the bracket after every element gives the rendering of a non-empty list. */
  lemma OpenedDone<T>(show: T -> string, s: seq<T>)
    requires |s| > 0
    ensures Opened(show, s, |s|) + "]" == Render(show, s)
  {
    assert s[..|s|] == s;
  }

  /** The rendering is "[]" exactly for the empty list. */
  lemma RenderEmptyIff<T>(show: T -> string, s: seq<T>)
    ensures Render(show, s) == "[]" <==> |s| == 0
  {
  }

  /**
   Appending `v` to a non-empty list changes its rendering by inserting
   ", " and the braced `v` before the closing bracket.
   */
  lemma {:induction false} RenderAppend<T>(show: T -> string, s: seq<T>, v: T)
    requires |s| > 0
    ensures var old_text := Render(show, s);
            |old_text| >= 1 &&
            Render(show, s + [v]) == old_text[..|old_text| - 1] + ", " + Braced(show, v) + "]"
  {
    var items := Items(show, s);
    assert |items| == |s|;
    ItemsAppend(show, s, v);
    JoinAppend(items, Braced(show, v), ", ");
    var front := "[" + Join(items, ", ");
    var old_text := Render(show, s);
    assert old_text == front + "]";
    assert old_text[..|old_text| - 1] == front;
    assert Render(show, s + [v]) == "[" + Join(items + [Braced(show, v)], ", ") + "]";
  }
}
