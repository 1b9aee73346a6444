/** The region-split layout of ui.c: a binary tree whose inner nodes are splits (a direction
    and a fraction) and whose leaves are views. ui.c links nodes with child and parent
    pointers; here the tree is a value, a node is reached by a path (false = left,
    true = right), and the parent of the node at path p is the node at p minus its last step,
    so re-parenting is implicit. */
module Regions {
  import opened Base

  datatype Direction = Vertical | Horizontal

  datatype Region =
    | Split(left: Region, right: Region, fraction: real, direction: Direction)
    | View(id: nat)

  type Path = seq<bool>

  predicate ValidPath(t: Region, p: Path)
    decreases |p|
  {
    |p| == 0 || (t.Split? && ValidPath(if p[0] then t.right else t.left, p[1..]))
  }

  /** The node at path p. */
  function Get(t: Region, p: Path): (r: Region)
    requires ValidPath(t, p)
    decreases |p|
  {
    if |p| == 0 then t else Get(if p[0] then t.right else t.left, p[1..])
  }

  /** t with the node at path p replaced by s. */
  function ReplaceAt(t: Region, p: Path, s: Region): (r: Region)
    requires ValidPath(t, p)
    ensures ValidPath(r, p) && Get(r, p) == s
    decreases |p|
  {
    if |p| == 0 then s
    else if p[0] then t.(right := ReplaceAt(t.right, p[1..], s))
    else t.(left := ReplaceAt(t.left, p[1..], s))
  }

  /** Putting back what was there changes nothing. */
  lemma {:induction false} ReplaceWithSelf(t: Region, p: Path)
    requires ValidPath(t, p)
    ensures ReplaceAt(t, p, Get(t, p)) == t
    decreases |p|
  {
    if |p| > 0 {
      ReplaceWithSelf(if p[0] then t.right else t.left, p[1..]);
    }
  }

  /** A second replacement at the same place overrides the first. */
  lemma {:induction false} ReplaceTwice(t: Region, p: Path, s1: Region, s2: Region)
    requires ValidPath(t, p)
    ensures ReplaceAt(ReplaceAt(t, p, s1), p, s2) == ReplaceAt(t, p, s2)
    decreases |p|
  {
    if |p| > 0 {
      ReplaceTwice(if p[0] then t.right else t.left, p[1..], s1, s2);
    }
  }

  /** A path through the node at p reaches into the subtree there. */
  lemma {:induction false} GetExtend(t: Region, p: Path, q: Path)
    requires ValidPath(t, p)
    ensures ValidPath(t, p + q) <==> ValidPath(Get(t, p), q)
    ensures ValidPath(t, p + q) ==> Get(t, p + q) == Get(Get(t, p), q)
    decreases |p|
  {
    if |p| > 0 {
      var c := if p[0] then t.right else t.left;
      assert (p + q)[0] == p[0] && (p + q)[1..] == p[1..] + q;
      GetExtend(c, p[1..], q);
      assert ValidPath(t, p + q) == ValidPath(c, p[1..] + q);
      if ValidPath(t, p + q) {
        assert Get(t, p + q) == Get(c, p[1..] + q);
      }
    } else {
      assert p + q == q;
    }
  }

  /** Every prefix of a path into the tree is a path into the tree. */
  lemma {:induction false} PrefixValid(t: Region, p: Path, k: nat)
    requires ValidPath(t, p) && k <= |p|
    ensures ValidPath(t, p[..k])
    decreases |p|
  {
    if k > 0 {
      PrefixValid(if p[0] then t.right else t.left, p[1..], k - 1);
      assert p[..k][1..] == p[1..][..k - 1];
    }
  }

  /** The views of the tree from left to right. */
  function Views(t: Region): (r: seq<nat>)
    ensures |r| >= 1
  {
    match t
    case View(id) => [id]
    case Split(l, r, _, _) => Views(l) + Views(r)
  }

  /** The views left of, and right of, the node at p. */
  function ViewsBefore(t: Region, p: Path): seq<nat>
    requires ValidPath(t, p)
    decreases |p|
  {
    if |p| == 0 then []
    else if p[0] then Views(t.left) + ViewsBefore(t.right, p[1..])
    else ViewsBefore(t.left, p[1..])
  }

  function ViewsAfter(t: Region, p: Path): seq<nat>
    requires ValidPath(t, p)
    decreases |p|
  {
    if |p| == 0 then []
    else if p[0] then ViewsAfter(t.right, p[1..])
    else ViewsAfter(t.left, p[1..]) + Views(t.right)
  }

  /** Replacing the node at p changes the views there and nowhere else. */
  lemma {:induction false} ViewsReplace(t: Region, p: Path, s: Region)
    requires ValidPath(t, p)
    ensures Views(ReplaceAt(t, p, s)) == ViewsBefore(t, p) + Views(s) + ViewsAfter(t, p)
    decreases |p|
  {
    if |p| > 0 {
      ViewsReplace(if p[0] then t.right else t.left, p[1..], s);
    }
  }

  /** `ui_split_region` (ui.c:1131-1143) with the caller's new view (ui.c:1168-1169,
      ui.c:1186-1187): a split with fraction 0.5 takes the view's slot, the view becomes its
      left child and the new view its right child. */
  function SplitRegion(t: Region, p: Path, direction: Direction, newView: nat): (r: Region)
    requires ValidPath(t, p) && Get(t, p).View?
    ensures ValidPath(r, p) && Get(r, p) == Split(Get(t, p), View(newView), 0.5, direction)
    ensures Views(r) == ViewsBefore(t, p) + [Get(t, p).id, newView] + ViewsAfter(t, p)
  {
    ViewsReplace(t, p, Split(Get(t, p), View(newView), 0.5, direction));
    ReplaceAt(t, p, Split(Get(t, p), View(newView), 0.5, direction))
  }

  /** The UI_BID_CLOSE_VIEW case of `ui_button_interaction` (ui.c:2600-2620): the view's
      enclosing split is replaced, in its own parent's slot, by the view's sibling. `None` is a
      failed ASSERT: the node is not a view, or its split has no parent split. */
  function CloseView(t: Region, p: Path): (r: Option<Region>)
    requires ValidPath(t, p)
    ensures r.Some? <==> |p| >= 2 && Get(t, p).View?
    ensures r.Some? ==>
      var region := p[..|p| - 1];
      ValidPath(t, region) && Get(t, region).Split? && ValidPath(r.value, region)
      && Get(r.value, region) == (if p[|p| - 1] then Get(t, region).left else Get(t, region).right)
  {
    if |p| < 2 || !Get(t, p).View? then None
    else
      var region := p[..|p| - 1];
      PrefixValid(t, p, |p| - 1);
      GetExtend(t, region, [p[|p| - 1]]);
      assert region + [p[|p| - 1]] == p;
      var split := Get(t, region);
      var remaining := if p[|p| - 1] then split.left else split.right;
      Some(ReplaceAt(t, region, remaining))
  }

  /** Closing the view a split just opened gives the layout back. */
  lemma SplitThenCloseRestores(t: Region, p: Path, direction: Direction, newView: nat)
    requires ValidPath(t, p) && Get(t, p).View? && |p| >= 1
    ensures var t2 := SplitRegion(t, p, direction, newView);
            ValidPath(t2, p + [true]) && CloseView(t2, p + [true]) == Some(t)
  {
    var t2 := SplitRegion(t, p, direction, newView);
    GetExtend(t2, p, [true]);
    assert (p + [true])[..|p + [true]| - 1] == p;
    ReplaceTwice(t, p, Split(Get(t, p), View(newView), 0.5, direction), Get(t, p));
    ReplaceWithSelf(t, p);
  }

  /** Closing a view removes exactly that view from the left-to-right order. */
  lemma CloseRemovesView(t: Region, p: Path)
    requires ValidPath(t, p) && |p| >= 2 && Get(t, p).View?
    ensures var region := p[..|p| - 1];
            ValidPath(t, region) && Get(t, region).Split?
            && var s := Get(t, region);
            Views(CloseView(t, p).value) ==
              ViewsBefore(t, region) + (if p[|p| - 1] then Views(s.left) else Views(s.right)) + ViewsAfter(t, region)
  {
    var region := p[..|p| - 1];
    PrefixValid(t, p, |p| - 1);
    GetExtend(t, region, [p[|p| - 1]]);
    assert region + [p[|p| - 1]] == p;
    var s := Get(t, region);
    ViewsReplace(t, region, if p[|p| - 1] then s.left else s.right);
  }

  /** Every node in pre-order: a split, then its left subtree, then its right subtree. */
  function PreOrder(t: Region): (r: seq<Region>)
    ensures |r| >= 1 && r[0] == t
  {
    match t
    case View(_) => [t]
    case Split(l, r, _, _) => [t] + PreOrder(l) + PreOrder(r)
  }

  /** The pending frames of the explicit stack, top last, in the order they will be drawn. */
  function Pending(stack: seq<Region>): seq<Region>
    decreases |stack|
  {
    if |stack| == 0 then [] else PreOrder(stack[|stack| - 1]) + Pending(stack[..|stack| - 1])
  }

  function Size(t: Region): (n: nat)
    ensures n >= 1
  {
    match t
    case View(_) => 1
    case Split(l, r, _, _) => 1 + Size(l) + Size(r)
  }

  function StackSize(stack: seq<Region>): nat
    decreases |stack|
  {
    if |stack| == 0 then 0 else Size(stack[|stack| - 1]) + StackSize(stack[..|stack| - 1])
  }

  /** The traversal of `draw_ui_regions` (ui.c:2355-2394): pop a frame, draw it, and for a split
      push the right child and then the left one. Nodes are drawn in pre-order. */
  method DrawOrder(root: Region) returns (drawn: seq<Region>)
    ensures drawn == PreOrder(root)
  {
    var stack := [root];
    drawn := [];
    while |stack| > 0
      invariant drawn + Pending(stack) == PreOrder(root)
      decreases StackSize(stack)
    {
      var top := stack[|stack| - 1];
      var rest := stack[..|stack| - 1];
      assert Pending(stack) == PreOrder(top) + Pending(rest);
      drawn := drawn + [top];
      match top {
        case View(_) =>
          assert StackSize(stack) == Size(top) + StackSize(rest);
          stack := rest;
        case Split(l, r, _, _) =>
          var next := rest + [r] + [l];
          assert next[..|next| - 1] == rest + [r];
          assert (rest + [r])[..|rest + [r]| - 1] == rest;
          assert StackSize(next) == Size(l) + Size(r) + StackSize(rest);
          stack := next;
      }
    }
  }
}
