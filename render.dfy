/**
 * The renderer the test uses as its oracle: every node below the root, in
 * pre-order, on a line of its own, indented two spaces per level.
 */
module Rendering {
  import opened Items

  /** A node's line without indent or line break: its kind label, then a space and its name when it has one. */
  function Line(n: Item): (r: string)
    ensures KindLabel(n.kind) <= r
    ensures r == KindLabel(n.kind) <==> n.name == []
  {
    KindLabel(n.kind) + (if n.name == [] then "" else " " + n.name)
  }

  /** The indent of a node `d` levels below the children of the root. */
  function Indent(d: nat): string
  {
    if d == 0 then "" else "  " + Indent(d - 1)
  }

  /** The indent is two spaces per level and nothing else. */
  lemma {:induction false} IndentIsSpaces(d: nat)
    ensures |Indent(d)| == 2 * d
    ensures forall k :: 0 <= k < |Indent(d)| ==> Indent(d)[k] == ' '
  {
    if d > 0 {
      IndentIsSpaces(d - 1);
      assert forall k :: 2 <= k < |Indent(d)| ==> Indent(d)[k] == Indent(d - 1)[k - 2];
    }
  }

  /** `toString(item, out, indent)`: the node's line at `indent`, then its children two spaces deeper. */
  function RenderItem(n: Item, indent: string): string
    decreases n, |n.children| + 1
  {
    indent + Line(n) + "\n" + RenderChildren(n, 0, indent + "  ")
  }

  /** The loop over `children_` from child `i` on. */
  function RenderChildren(n: Item, i: nat, indent: string): string
    decreases n, |n.children| - i
  {
    if i >= |n.children| then ""
    else RenderItem(n.children[i], indent) + RenderChildren(n, i + 1, indent)
  }

  /** `toString(root)`: the root's own line is not printed; its children are rendered without indent. */
  function Render(root: Item): string
  {
    RenderChildren(root, 0, "")
  }

  /** Every address of `ps` names a proper descendant of `n`. */
  predicate Proper(n: Item, ps: seq<Path>)
    decreases |ps|
  {
    ps == [] || (ps[0] != [] && ValidPath(n, ps[0]) && Proper(n, ps[1..]))
  }

  lemma {:induction false} ProperFromAll(n: Item, ps: seq<Path>)
    requires forall k :: 0 <= k < |ps| ==> ps[k] != [] && ValidPath(n, ps[k])
    ensures Proper(n, ps)
    decreases |ps|
  {
    if ps != [] {
      assert forall k :: 0 <= k < |ps[1..]| ==> ps[1..][k] == ps[k + 1];
      ProperFromAll(n, ps[1..]);
    }
  }

  /** The lines of the nodes at the addresses `ps` below `n`, each indented by its depth. */
  function Lines(n: Item, ps: seq<Path>, indent: string): string
    requires Proper(n, ps)
    decreases |ps|
  {
    if ps == [] then ""
    else indent + Indent(|ps[0]| - 1) + Line(At(n, ps[0])) + "\n" + Lines(n, ps[1..], indent)
  }

  lemma {:induction false} LinesConcat(n: Item, a: seq<Path>, b: seq<Path>, indent: string)
    requires Proper(n, a) && Proper(n, b)
    ensures Proper(n, a + b)
    ensures Lines(n, a + b, indent) == Lines(n, a, indent) + Lines(n, b, indent)
    decreases |a|
  {
    if a == [] {
      assert a + b == b;
    } else {
      Uncons(a, b);
      LinesConcat(n, a[1..], b, indent);
      Associative(indent + Indent(|a[0]| - 1) + Line(At(n, a[0])) + "\n", Lines(n, a[1..], indent), Lines(n, b, indent));
    }
  }

  lemma Associative(x: string, y: string, z: string)
    ensures x + (y + z) == x + y + z
  {
  }

  lemma Unit(x: string)
    ensures x + "" == x
  {
  }

  lemma Uncons(a: seq<Path>, b: seq<Path>)
    requires a != []
    ensures (a + b)[0] == a[0] && (a + b)[1..] == a[1..] + b
  {
  }

  /** The lines of a child's descendants, read from the holder, are one indent step deeper. */
  lemma {:induction false} LinesUnder(n: Item, i: nat, ps: seq<Path>, indent: string)
    requires i < |n.children| && Proper(n.children[i], ps)
    ensures Proper(n, Under(i, ps))
    ensures Lines(n, Under(i, ps), indent) == Lines(n.children[i], ps, indent + "  ")
    decreases |ps|
  {
    if ps != [] {
      var p := ps[0];
      AtCons(n, i, p);
      assert Under(i, ps)[0] == [i] + p;
      assert Under(i, ps)[1..] == Under(i, ps[1..]);
      assert Indent(|[i] + p| - 1) == "  " + Indent(|p| - 1);
      LinesUnder(n, i, ps[1..], indent);
    }
  }

  /**
   * The renderer prints exactly the pre-order enumeration of the proper
   * descendants: one line per node, indented two spaces per level below
   * the root's children, in the order `find` visits them.
   */
  lemma RenderIsPreorder(root: Item)
    ensures Proper(root, Preorder(root))
    ensures Render(root) == Lines(root, Preorder(root), "")
  {
    RenderChildrenLines(root, 0, "");
  }

  lemma {:induction false} RenderChildrenLines(n: Item, i: nat, indent: string)
    ensures Proper(n, PreorderFrom(n, i))
    ensures RenderChildren(n, i, indent) == Lines(n, PreorderFrom(n, i), indent)
    decreases n, |n.children| - i
  {
    ProperFromAll(n, PreorderFrom(n, i));
    if i < |n.children| {
      var c := n.children[i];
      var sub := Preorder(c);
      var rest := PreorderFrom(n, i + 1);
      var head := Lines(n, [[i]], indent);
      ChildLine(n, i, indent);
      RenderChildrenLines(c, 0, indent + "  ");
      LinesUnder(n, i, sub, indent);
      RenderChildrenLines(n, i + 1, indent);
      LinesConcat(n, [[i]], Under(i, sub), indent);
      LinesConcat(n, [[i]] + Under(i, sub), rest, indent);
      calc {
        RenderChildren(n, i, indent);
        RenderItem(c, indent) + RenderChildren(n, i + 1, indent);
        head + RenderChildren(c, 0, indent + "  ") + RenderChildren(n, i + 1, indent);
        head + Lines(c, sub, indent + "  ") + Lines(n, rest, indent);
        head + Lines(n, Under(i, sub), indent) + Lines(n, rest, indent);
        Lines(n, [[i]] + Under(i, sub), indent) + Lines(n, rest, indent);
        Lines(n, [[i]] + Under(i, sub) + rest, indent);
      }
    }
  }

  /** The line of a child of `n`, read through its address. */
  lemma ChildLine(n: Item, i: nat, indent: string)
    requires i < |n.children|
    ensures Proper(n, [[i]])
    ensures Lines(n, [[i]], indent) == indent + Line(n.children[i]) + "\n"
  {
    AtCons(n, i, []);
    assert [i] + [] == [i];
    var ps := [[i]];
    assert ps[0] == [i] && ps[1..] == [];
    assert Indent(|ps[0]| - 1) == "" && Lines(n, ps[1..], indent) == "";
    Unit(indent);
    Unit(indent + Line(n.children[i]) + "\n");
  }

  /** A childless node renders as its own line. */
  lemma LeafRenders(n: Item, indent: string)
    requires n.children == []
    ensures RenderItem(n, indent) == indent + Line(n) + "\n"
  {
    Unit(indent + Line(n) + "\n");
  }

  /** The children of a node with one child render as that child. */
  lemma OnlyChildRenders(n: Item, indent: string)
    requires |n.children| == 1
    ensures RenderChildren(n, 0, indent) == RenderItem(n.children[0], indent)
  {
    Unit(RenderItem(n.children[0], indent));
  }

  /** The children of a node with two children render one after the other. */
  lemma TwoChildrenRender(n: Item, indent: string)
    requires |n.children| == 2
    ensures RenderChildren(n, 0, indent) == RenderItem(n.children[0], indent) + RenderItem(n.children[1], indent)
  {
    assert RenderChildren(n, 2, indent) == "";
    Unit(RenderItem(n.children[1], indent));
    assert RenderChildren(n, 1, indent) == RenderItem(n.children[1], indent);
  }

  /** Structurally equal trees render alike, whatever their parents; so a clone renders as its original. */
  lemma {:induction false} SameShapeRendersAlike(a: Item, b: Item, indent: string)
    requires SameShape(a, b)
    ensures RenderItem(a, indent) == RenderItem(b, indent)
    decreases a, |a.children| + 1
  {
    SameShapeChildrenRenderAlike(a, b, 0, indent + "  ");
  }

  lemma {:induction false} SameShapeChildrenRenderAlike(a: Item, b: Item, i: nat, indent: string)
    requires SameShape(a, b)
    ensures RenderChildren(a, i, indent) == RenderChildren(b, i, indent)
    decreases a, |a.children| - i
  {
    if i < |a.children| {
      SameShapeRendersAlike(a.children[i], b.children[i], indent);
      SameShapeChildrenRenderAlike(a, b, i + 1, indent);
    }
  }
}
