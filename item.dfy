/**
 * The schema tree: a node (`Item`) has a name, one of fifteen kinds, a
 * back-reference to the node that holds it and an ordered list of children
 * it owns.
 *
 * Nodes are values here. A node is identified by its address: the sequence
 * of child indices that leads to it from the root. Children are only ever
 * appended, so an address, once valid, keeps naming the same node. The
 * source's non-owning `parent_` pointer is kept as the parent's address,
 * which makes "the parent of a node is the node that holds it" a property
 * to prove rather than a consequence of the representation.
 */
module Items {
  import opened Wrappers

  /** The kinds of `Item::Type`, in declaration order. */
  datatype Kind =
    | Root | Namespace | Struct
    | Bool | Double
    | Int8 | Int16 | Int32 | Int64
    | UInt8 | UInt16 | UInt32 | UInt64
    | String | Array

  const AllKinds: seq<Kind> :=
    [Root, Namespace, Struct, Bool, Double, Int8, Int16, Int32, Int64,
     UInt8, UInt16, UInt32, UInt64, String, Array]

  /** The position of a kind in the enumeration. */
  function Ordinal(k: Kind): (r: nat)
    ensures r < |AllKinds| && AllKinds[r] == k
  {
    match k
    case Root => 0
    case Namespace => 1
    case Struct => 2
    case Bool => 3
    case Double => 4
    case Int8 => 5
    case Int16 => 6
    case Int32 => 7
    case Int64 => 8
    case UInt8 => 9
    case UInt16 => 10
    case UInt32 => 11
    case UInt64 => 12
    case String => 13
    case Array => 14
  }

  /** There are exactly fifteen kinds and the enumeration lists each once. */
  lemma KindsAreFifteen()
    ensures |AllKinds| == 15
    ensures forall i, j :: 0 <= i < j < |AllKinds| ==> AllKinds[i] != AllKinds[j]
    ensures forall k: Kind :: k in AllKinds
  {
    forall k: Kind ensures k in AllKinds {
      var r := Ordinal(k);
    }
  }

  /** `toString(Item::Type)`: the fixed label of each kind. */
  function KindLabel(k: Kind): (s: string)
  {
    match k
    case Root => "{root}"
    case Namespace => "namespace"
    case Struct => "struct"
    case Bool => "bool"
    case Double => "double"
    case Int8 => "int8"
    case Int16 => "int16"
    case Int32 => "int32"
    case Int64 => "int64"
    case UInt8 => "uint8"
    case UInt16 => "uint16"
    case UInt32 => "uint32"
    case UInt64 => "uint64"
    case String => "string"
    case Array => "array"
  }

  /** Labels are non-empty, contain no space or line break, and tell kinds apart. */
  lemma KindLabelsDistinct(a: Kind, b: Kind)
    ensures KindLabel(a) != [] && ' ' !in KindLabel(a) && '\n' !in KindLabel(a)
    ensures KindLabel(a) == KindLabel(b) ==> a == b
  {
    if KindLabel(a) == KindLabel(b) {
      var la := KindLabel(a);
      assert la[0] == KindLabel(b)[0] && |la| == |KindLabel(b)|;
      assert la[|la| - 1] == KindLabel(b)[|la| - 1];
      if |la| > 4 { assert la[4] == KindLabel(b)[4]; }
    }
  }

  /** The address of a node: child indices from the root. */
  type Path = seq<nat>

  datatype Item = Item(name: string, kind: Kind, parent: Option<Path>, children: seq<Item>)

  /** `Item()`: a Root with an empty name, no parent and no children. */
  function NewRoot(): (r: Item)
    ensures WellFormed(r) && r.name == [] && r.kind == Root
    ensures forall q :: ValidPath(r, q) ==> q == []
  {
    Item([], Root, None, [])
  }

  predicate ValidPath(n: Item, p: Path)
    decreases |p|
  {
    p == [] || (p[0] < |n.children| && ValidPath(n.children[p[0]], p[1..]))
  }

  /** The node at address `p` below `n`. */
  function At(n: Item, p: Path): Item
    requires ValidPath(n, p)
    decreases |p|
  {
    if p == [] then n else At(n.children[p[0]], p[1..])
  }

  lemma AtCons(n: Item, i: nat, p: Path)
    requires i < |n.children|
    ensures ValidPath(n, [i] + p) == ValidPath(n.children[i], p)
    ensures ValidPath(n, [i] + p) ==> At(n, [i] + p) == At(n.children[i], p)
  {
    assert ([i] + p)[0] == i && ([i] + p)[1..] == p;
  }

  lemma AtSnoc(n: Item, p: Path, i: nat)
    requires ValidPath(n, p)
    ensures ValidPath(n, p + [i]) <==> i < |At(n, p).children|
    ensures ValidPath(n, p + [i]) ==> At(n, p + [i]) == At(n, p).children[i]
    decreases |p|
  {
    if p != [] {
      assert (p + [i])[0] == p[0] && (p + [i])[1..] == p[1..] + [i];
      AtSnoc(n.children[p[0]], p[1..], i);
    }
  }

  /** `push_back` of an already built child onto the children of the node at `p`. */
  function AttachAt(n: Item, p: Path, child: Item): (r: Item)
    requires ValidPath(n, p)
    ensures r.name == n.name && r.kind == n.kind && r.parent == n.parent
    ensures ValidPath(r, p) && At(r, p).children == At(n, p).children + [child]
    ensures At(r, p).name == At(n, p).name && At(r, p).kind == At(n, p).kind
    ensures At(r, p).parent == At(n, p).parent
    ensures forall q :: ValidPath(r, q) <==> ValidPath(n, q) || InSlot(q, NextSlot(n, p), child)
    decreases |p|
  {
    if p == [] then n.(children := n.children + [child])
    else
      var sub := AttachAt(n.children[p[0]], p[1..], child);
      AtCons(n, p[0], p[1..]);
      assert NextSlot(n, p) == [p[0]] + NextSlot(n.children[p[0]], p[1..]);
      ReplaceChildPaths(n, p[0], sub, NextSlot(n.children[p[0]], p[1..]), child);
      n.(children := n.children[p[0] := sub])
  }

  /**
   * Replacing child `i` by a tree whose addresses are the old child's plus
   * those of `child` placed at `slot` adds exactly the addresses of `child`
   * placed at `[i] + slot`.
   */
  lemma ReplaceChildPaths(n: Item, i: nat, c: Item, slot: Path, child: Item)
    requires i < |n.children|
    requires forall q :: ValidPath(c, q) <==> ValidPath(n.children[i], q) || InSlot(q, slot, child)
    ensures forall q :: ValidPath(n.(children := n.children[i := c]), q) <==> ValidPath(n, q) || InSlot(q, [i] + slot, child)
  {
    var r := n.(children := n.children[i := c]);
    forall q ensures ValidPath(r, q) <==> ValidPath(n, q) || InSlot(q, [i] + slot, child) {
      if q != [] && q[0] == i {
        var t := q[1..];
        assert q == [i] + t;
        assert ([i] + slot)[..] == [i] + slot;
        if |slot| <= |t| {
          assert q[..|[i] + slot|] == [i] + t[..|slot|];
          assert q[|[i] + slot|..] == t[|slot|..];
        }
      } else if q != [] {
        assert !InSlot(q, [i] + slot, child) by {
          if |[i] + slot| <= |q| { assert q[..|[i] + slot|][0] == q[0]; }
        }
      }
    }
  }

  /** `q` addresses the node `child` placed at `slot`, or one of its descendants. */
  predicate InSlot(q: Path, slot: Path, child: Item)
  {
    |slot| <= |q| && q[..|slot|] == slot && ValidPath(child, q[|slot|..])
  }

  /** Pushing onto the node at `q + [i]` changes, at `q`, only child `i`. */
  lemma {:induction false} AttachHolder(n: Item, q: Path, i: nat, child: Item)
    requires ValidPath(n, q + [i])
    ensures var r := AttachAt(n, q + [i], child);
      && ValidPath(n, q) && ValidPath(r, q) && ValidPath(r, q + [i]) && i < |At(n, q).children|
      && At(r, q).children == At(n, q).children[i := At(r, q + [i])]
    decreases |q|
  {
    var r := AttachAt(n, q + [i], child);
    if q == [] {
      assert q + [i] == [i];
      assert [i][1..] == [];
    } else {
      var h := q[0];
      assert (q + [i])[0] == h && (q + [i])[1..] == q[1..] + [i];
      AttachHolder(n.children[h], q[1..], i, child);
      assert r.children[h] == AttachAt(n.children[h], q[1..] + [i], child);
    }
  }

  /** The address the next child of the node at `p` receives. */
  function NextSlot(n: Item, p: Path): Path
    requires ValidPath(n, p)
  {
    p + [|At(n, p).children|]
  }

  /**
   * `addChild(name, type)` on the node at `p`: it appends one childless node
   * whose parent is `p`; the handle the source returns is `NextSlot(n, p)`.
   */
  function AddChild(n: Item, p: Path, name: string, kind: Kind): (r: Item)
    requires ValidPath(n, p)
    ensures ValidPath(r, p) && ValidPath(r, NextSlot(n, p))
    ensures At(r, NextSlot(n, p)) == Item(name, kind, Some(p), [])
    ensures |At(r, p).children| == |At(n, p).children| + 1
    ensures At(r, p).children[..|At(n, p).children|] == At(n, p).children
    ensures Extends(n, r)
    ensures forall q :: ValidPath(r, q) <==> ValidPath(n, q) || q == NextSlot(n, p)
  {
    var r := AttachAt(n, p, Item(name, kind, Some(p), []));
    LeafSlot(NextSlot(n, p), Item(name, kind, Some(p), []));
    AtSnoc(r, p, |At(n, p).children|);
    AttachExtends(n, p, Item(name, kind, Some(p), []));
    r
  }

  /** Below a childless node placed at `slot` there is no address but `slot` itself. */
  lemma LeafSlot(slot: Path, leaf: Item)
    requires leaf.children == []
    ensures forall q :: InSlot(q, slot, leaf) <==> q == slot
  {
    forall q ensures InSlot(q, slot, leaf) <==> q == slot {
      if q == slot {
        assert q[..|slot|] == slot && q[|slot|..] == [];
      } else if |slot| <= |q| && q[..|slot|] == slot {
        assert q == slot + q[|slot|..];
      }
    }
  }

  /**
   * `b` is `a` after children were appended somewhere: every node of `a`
   * keeps its name, kind, parent and children, in order, at the front.
   */
  predicate Extends(a: Item, b: Item)
  {
    && a.name == b.name && a.kind == b.kind && a.parent == b.parent
    && |a.children| <= |b.children|
    && forall i :: 0 <= i < |a.children| ==> Extends(a.children[i], b.children[i])
  }

  lemma {:induction false} ExtendsReflexive(a: Item)
    ensures Extends(a, a)
  {
    forall i | 0 <= i < |a.children| ensures Extends(a.children[i], a.children[i]) {
      ExtendsReflexive(a.children[i]);
    }
  }

  lemma {:induction false} ExtendsTransitive(a: Item, b: Item, c: Item)
    requires Extends(a, b) && Extends(b, c)
    ensures Extends(a, c)
  {
    forall i | 0 <= i < |a.children| ensures Extends(a.children[i], c.children[i]) {
      ExtendsTransitive(a.children[i], b.children[i], c.children[i]);
    }
  }

  /** Growth never moves a node: what `a` holds at `p`, `b` holds there too. */
  lemma {:induction false} ExtendsKeepsAddresses(a: Item, b: Item, p: Path)
    requires Extends(a, b) && ValidPath(a, p)
    ensures ValidPath(b, p) && Extends(At(a, p), At(b, p))
    decreases |p|
  {
    if p != [] {
      ExtendsKeepsAddresses(a.children[p[0]], b.children[p[0]], p[1..]);
    }
  }

  /** Appending a child only grows the tree, and the new child sits at a fresh address. */
  lemma {:induction false} AttachExtends(n: Item, p: Path, child: Item)
    requires ValidPath(n, p)
    ensures Extends(n, AttachAt(n, p, child))
    ensures !ValidPath(n, NextSlot(n, p))
    decreases |p|
  {
    AtSnoc(n, p, |At(n, p).children|);
    var r := AttachAt(n, p, child);
    if p == [] {
      forall i | 0 <= i < |n.children| ensures Extends(n.children[i], r.children[i]) {
        ExtendsReflexive(n.children[i]);
      }
    } else {
      AttachExtends(n.children[p[0]], p[1..], child);
      forall i | 0 <= i < |n.children| ensures Extends(n.children[i], r.children[i]) {
        if i != p[0] { ExtendsReflexive(n.children[i]); }
      }
    }
  }

  /** Every child of every node below `n` (at address `addr`) names its holder as parent. */
  predicate Parented(n: Item, addr: Path)
  {
    forall i {:trigger Parented(n.children[i], addr + [i])} :: 0 <= i < |n.children| ==>
      n.children[i].parent == Some(addr) && Parented(n.children[i], addr + [i])
  }

  /** A whole tree: a root without parent in which parent matches holder throughout. */
  predicate WellFormed(root: Item)
  {
    root.parent == None && Parented(root, [])
  }

  lemma {:induction false} ParentedAt(n: Item, addr: Path, p: Path)
    requires Parented(n, addr) && ValidPath(n, p)
    ensures Parented(At(n, p), addr + p)
    ensures p != [] ==> At(n, p).parent == Some(addr + p[..|p| - 1])
    decreases |p|
  {
    if p == [] {
      assert addr + p == addr;
    } else {
      var i := p[0];
      assert addr + [i] + p[1..] == addr + p;
      ParentedAt(n.children[i], addr + [i], p[1..]);
      if p[1..] != [] {
        assert addr + [i] + p[1..][..|p[1..]| - 1] == addr + p[..|p| - 1];
      } else {
        assert addr == addr + p[..|p| - 1];
      }
    }
  }

  /** In a well-formed tree the parent of the node at `p` is the node at `p` minus its last index. */
  lemma ParentMatchesHolder(root: Item, p: Path)
    requires WellFormed(root) && ValidPath(root, p)
    ensures At(root, p).parent == if p == [] then None else Some(p[..|p| - 1])
  {
    ParentedAt(root, [], p);
    if p != [] {
      assert [] + p[..|p| - 1] == p[..|p| - 1];
    }
  }

  /** Attaching a child that names its new holder as parent keeps parent matching holder. */
  lemma {:induction false} AttachKeepsParented(n: Item, addr: Path, p: Path, child: Item)
    requires Parented(n, addr) && ValidPath(n, p)
    requires child.parent == Some(addr + p)
    requires Parented(child, addr + NextSlot(n, p))
    ensures Parented(AttachAt(n, p, child), addr)
    decreases |p|
  {
    var r := AttachAt(n, p, child);
    if p == [] {
      assert addr + p == addr;
      assert addr + NextSlot(n, p) == addr + [|n.children|];
      forall k | 0 <= k < |r.children|
        ensures r.children[k].parent == Some(addr) && Parented(r.children[k], addr + [k])
      {
        if k < |n.children| {
          assert r.children[k] == n.children[k] && Parented(n.children[k], addr + [k]);
        }
      }
    } else {
      var i := p[0];
      AtCons(n, i, p[1..]);
      assert p == [i] + p[1..];
      assert addr + [i] + p[1..] == addr + p;
      assert NextSlot(n, p) == [i] + NextSlot(n.children[i], p[1..]);
      assert addr + [i] + NextSlot(n.children[i], p[1..]) == addr + NextSlot(n, p);
      assert Parented(n.children[i], addr + [i]);
      AttachKeepsParented(n.children[i], addr + [i], p[1..], child);
      forall k | 0 <= k < |r.children|
        ensures r.children[k].parent == Some(addr) && Parented(r.children[k], addr + [k])
      {
        if k != i {
          assert r.children[k] == n.children[k] && Parented(n.children[k], addr + [k]);
        }
      }
    }
  }

  /** Attaching a correctly parented child keeps a tree well formed. */
  lemma AttachKeepsWellFormed(root: Item, p: Path, child: Item)
    requires WellFormed(root) && ValidPath(root, p)
    requires child.parent == Some(p) && Parented(child, NextSlot(root, p))
    ensures WellFormed(AttachAt(root, p, child))
  {
    assert [] + p == p && [] + NextSlot(root, p) == NextSlot(root, p);
    AttachKeepsParented(root, [], p, child);
  }

  /** `addChild` keeps a tree well formed. */
  lemma AddChildKeepsWellFormed(root: Item, p: Path, name: string, kind: Kind)
    requires WellFormed(root) && ValidPath(root, p)
    ensures WellFormed(AddChild(root, p, name, kind))
  {
    AttachKeepsWellFormed(root, p, Item(name, kind, Some(p), []));
  }

  /** Structural equality: same name, same kind, same children in order, recursively; parents aside. */
  predicate SameShape(a: Item, b: Item)
  {
    && a.name == b.name && a.kind == b.kind && |a.children| == |b.children|
    && forall i :: 0 <= i < |a.children| ==> SameShape(a.children[i], b.children[i])
  }

  /**
   * `clone(parent)`: a deep copy that becomes child number `index` of the
   * node at `parent`. The copy has the original's shape, its top node names
   * `parent` as its parent and every copied child names its copied holder.
   */
  function Clone(n: Item, parent: Path, index: nat): (r: Item)
    ensures SameShape(r, n) && r.parent == Some(parent)
    ensures Parented(r, parent + [index])
    decreases n, |n.children| + 1
  {
    Item(n.name, n.kind, Some(parent), CloneFrom(n, parent + [index], 0))
  }

  /** The copies of `n.children[i..]`, each re-parented to `addr`. */
  function CloneFrom(n: Item, addr: Path, i: nat): (cs: seq<Item>)
    requires i <= |n.children|
    ensures |cs| == |n.children| - i
    ensures forall k :: 0 <= k < |cs| ==>
      SameShape(cs[k], n.children[i + k]) && cs[k].parent == Some(addr)
      && Parented(cs[k], addr + [i + k])
    decreases n, |n.children| - i
  {
    if i == |n.children| then []
    else [Clone(n.children[i], addr, i)] + CloneFrom(n, addr, i + 1)
  }

  /**
   * `find(name)`: the first proper descendant, in pre-order, whose name is
   * `name`, as an address relative to `n`; `n` itself is never tested.
   */
  function Find(n: Item, name: string): (r: Option<Path>)
    ensures r.Some? ==> r.value != [] && ValidPath(n, r.value) && At(n, r.value).name == name
    decreases n, |n.children| + 1
  {
    FindFrom(n, name, 0)
  }

  /** The loop of `find` from child `i` on: each child is tested before its own descendants. */
  function FindFrom(n: Item, name: string, i: nat): (r: Option<Path>)
    ensures r.Some? ==> r.value != [] && ValidPath(n, r.value) && At(n, r.value).name == name
    decreases n, |n.children| - i
  {
    if i >= |n.children| then None
    else if n.children[i].name == name then Some([i])
    else match Find(n.children[i], name)
      case Some(p) => AtCons(n, i, p); Some([i] + p)
      case None => FindFrom(n, name, i + 1)
  }

  /** Every address of `ps`, each prefixed with child index `i`. */
  function Under(i: nat, ps: seq<Path>): (r: seq<Path>)
    ensures |r| == |ps| && forall k :: 0 <= k < |ps| ==> r[k] == [i] + ps[k]
  {
    seq(|ps|, k requires 0 <= k < |ps| => [i] + ps[k])
  }

  /** The addresses of all proper descendants of `n`, in pre-order. */
  function Preorder(n: Item): (ps: seq<Path>)
    ensures forall k :: 0 <= k < |ps| ==> ps[k] != [] && ValidPath(n, ps[k])
    decreases n, |n.children| + 1
  {
    PreorderFrom(n, 0)
  }

  /** The pre-order addresses of the subtrees of `n.children[i..]`. */
  function PreorderFrom(n: Item, i: nat): (ps: seq<Path>)
    ensures forall k :: 0 <= k < |ps| ==> ps[k] != [] && i <= ps[k][0] && ValidPath(n, ps[k])
    decreases n, |n.children| - i
  {
    if i >= |n.children| then []
    else
      var sub := Preorder(n.children[i]);
      forall k | 0 <= k < |sub| ensures ValidPath(n, [i] + sub[k]) {
        AtCons(n, i, sub[k]);
      }
      AtCons(n, i, []);
      [[i]] + Under(i, sub) + PreorderFrom(n, i + 1)
  }

  /** Every proper descendant of `n` appears in the pre-order enumeration. */
  lemma {:induction false} PreorderComplete(n: Item, p: Path)
    requires p != [] && ValidPath(n, p)
    ensures p in Preorder(n)
    decreases n, 1
  {
    PreorderFromComplete(n, 0, p);
  }

  lemma {:induction false} PreorderFromComplete(n: Item, i: nat, p: Path)
    requires p != [] && ValidPath(n, p) && i <= p[0]
    ensures p in PreorderFrom(n, i)
    decreases n, 0, p[0] - i
  {
    var c := n.children[i];
    var sub := Preorder(c);
    assert PreorderFrom(n, i) == [[i]] + Under(i, sub) + PreorderFrom(n, i + 1);
    if p[0] == i {
      if p[1..] == [] {
        assert p == [i];
      } else {
        PreorderComplete(c, p[1..]);
        var k :| 0 <= k < |sub| && sub[k] == p[1..];
        assert Under(i, sub)[k] == [i] + p[1..] == p;
      }
    } else {
      PreorderFromComplete(n, i + 1, p);
    }
  }

  /** The first address in `ps` whose node is named `name`. */
  function FirstNamed(n: Item, ps: seq<Path>, name: string): Option<Path>
    requires forall k :: 0 <= k < |ps| ==> ValidPath(n, ps[k])
  {
    if ps == [] then None
    else if At(n, ps[0]).name == name then Some(ps[0])
    else FirstNamed(n, ps[1..], name)
  }

  /** `FirstNamed` finds nothing exactly when no address is named `name`, and otherwise the earliest one that is. */
  lemma {:induction false} FirstNamedMeans(n: Item, ps: seq<Path>, name: string)
    requires forall k :: 0 <= k < |ps| ==> ValidPath(n, ps[k])
    ensures FirstNamed(n, ps, name).None? <==> forall k :: 0 <= k < |ps| ==> At(n, ps[k]).name != name
    ensures FirstNamed(n, ps, name).Some? ==> exists k :: (0 <= k < |ps| && ps[k] == FirstNamed(n, ps, name).value
      && At(n, ps[k]).name == name && forall j :: 0 <= j < k ==> At(n, ps[j]).name != name)
  {
    if ps != [] && At(n, ps[0]).name != name {
      var r := FirstNamed(n, ps[1..], name);
      FirstNamedMeans(n, ps[1..], name);
      if r.None? {
        forall k | 0 <= k < |ps| ensures At(n, ps[k]).name != name {
          if k > 0 { assert ps[k] == ps[1..][k - 1]; }
        }
      } else {
        var k :| 0 <= k < |ps[1..]| && ps[1..][k] == r.value && At(n, ps[1..][k]).name == name
          && (forall j :: 0 <= j < k ==> At(n, ps[1..][j]).name != name);
        assert ps[k + 1] == r.value && forall j :: 0 <= j < k + 1 ==> At(n, ps[j]).name != name;
      }
    }
  }

  lemma {:induction false} FirstNamedConcat(n: Item, a: seq<Path>, b: seq<Path>, name: string)
    requires forall k :: 0 <= k < |a| ==> ValidPath(n, a[k])
    requires forall k :: 0 <= k < |b| ==> ValidPath(n, b[k])
    ensures forall k :: 0 <= k < |a + b| ==> ValidPath(n, (a + b)[k])
    ensures FirstNamed(n, a + b, name) ==
      if FirstNamed(n, a, name).Some? then FirstNamed(n, a, name) else FirstNamed(n, b, name)
    decreases |a|
  {
    if a != [] {
      assert (a + b)[0] == a[0] && (a + b)[1..] == a[1..] + b;
      FirstNamedConcat(n, a[1..], b, name);
    } else {
      assert a + b == b;
    }
  }

  lemma {:induction false} FirstNamedUnder(n: Item, i: nat, ps: seq<Path>, name: string)
    requires i < |n.children|
    requires forall k :: 0 <= k < |ps| ==> ValidPath(n.children[i], ps[k])
    ensures forall k :: 0 <= k < |ps| ==> ValidPath(n, Under(i, ps)[k])
    ensures FirstNamed(n, Under(i, ps), name) ==
      match FirstNamed(n.children[i], ps, name)
      case Some(p) => Some([i] + p)
      case None => None
    decreases |ps|
  {
    forall k | 0 <= k < |ps| ensures ValidPath(n, Under(i, ps)[k]) {
      AtCons(n, i, ps[k]);
    }
    if ps != [] {
      AtCons(n, i, ps[0]);
      assert Under(i, ps)[1..] == Under(i, ps[1..]);
      FirstNamedUnder(n, i, ps[1..], name);
    }
  }

  /** `find` returns exactly the first pre-order proper descendant with the name. */
  lemma {:induction false} FindIsFirstInPreorder(n: Item, name: string)
    ensures Find(n, name) == FirstNamed(n, Preorder(n), name)
    decreases n, 1
  {
    FindFromIsFirst(n, name, 0);
  }

  lemma {:induction false} FindFromIsFirst(n: Item, name: string, i: nat)
    ensures FindFrom(n, name, i) == FirstNamed(n, PreorderFrom(n, i), name)
    decreases n, 0, |n.children| - i
  {
    if i < |n.children| {
      var c := n.children[i];
      var sub := Preorder(c);
      var rest := PreorderFrom(n, i + 1);
      AtCons(n, i, []);
      assert At(n, [i]) == c;
      FindIsFirstInPreorder(c, name);
      FirstNamedUnder(n, i, sub, name);
      FindFromIsFirst(n, name, i + 1);
      FirstNamedConcat(n, [[i]], Under(i, sub), name);
      FirstNamedConcat(n, [[i]] + Under(i, sub), rest, name);
    }
  }

  /** `find` yields null exactly when no proper descendant carries the name. */
  lemma FindNoneIff(n: Item, name: string)
    ensures Find(n, name).None? <==>
      forall p :: p != [] && ValidPath(n, p) ==> At(n, p).name != name
  {
    FindIsFirstInPreorder(n, name);
    var ps := Preorder(n);
    FirstNamedMeans(n, ps, name);
    if Find(n, name).None? {
      forall p | p != [] && ValidPath(n, p) ensures At(n, p).name != name {
        PreorderComplete(n, p);
        var k :| 0 <= k < |ps| && ps[k] == p;
        assert At(n, ps[k]).name != name;
      }
    } else {
      var p := Find(n, name).value;
      assert p != [] && ValidPath(n, p) && At(n, p).name == name;
    }
  }
}
