/**
 * `Parser::parse`: one left-to-right pass over the buffer that grows the
 * schema tree. The scan state is the cursor, the open-brace count `level`,
 * the stack of levels at which a namespace or struct was opened, the
 * address of the `current` node and the tree itself.
 *
 * `Step` is one iteration of the scanning loop and `Run` the whole loop;
 * the method `Parse` runs the loop on local variables, as the source does,
 * and is proved to compute `Run` from `Start()`.
 */
module Parsing {
  import opened Wrappers
  import opened Items
  import opened Scanner

  datatype State = State(cursor: nat, level: int, stack: seq<int>, current: Path, root: Item)

  /** The state before the first character: a fresh root that is also `current`. */
  function Start(): State
  {
    State(0, 0, [], [], NewRoot())
  }

  /**
   * The scan invariant: the tree is a well-formed tree under an unnamed
   * Root, `current` addresses one of its nodes, and the stack holds one
   * level per scope between the root and `current`.
   */
  predicate Valid(s: State)
  {
    && WellFormed(s.root) && s.root.name == [] && s.root.kind == Root
    && ValidPath(s.root, s.current) && |s.stack| == |s.current|
  }

  /** `current->parent_`: read from the tree, it is the address of `current` without its last index. */
  function ParentOf(root: Item, p: Path): (q: Path)
    requires WellFormed(root) && ValidPath(root, p) && p != []
    ensures q == p[..|p| - 1] && ValidPath(root, q)
  {
    ParentMatchesHolder(root, p);
    ValidPrefix(root, p, |p| - 1);
    At(root, p).parent.value
  }

  /** `}`: one level down; when that is the level the innermost scope was opened at, the scope closes. */
  function CloseBrace(s: State): State
    requires Valid(s)
  {
    var level := s.level - 1;
    if |s.stack| > 0 && level == s.stack[|s.stack| - 1] then
      s.(level := level, stack := s.stack[..|s.stack| - 1], current := ParentOf(s.root, s.current))
    else s.(level := level)
  }

  /**
   * A recognised keyword other than `std::vector`, with the cursor on its
   * trailing whitespace: the name is read and a childless node of `kind`
   * is appended to `current`; a namespace or struct becomes `current` and
   * the level it was opened at is pushed.
   */
  function Declare(text: string, s: State, kind: Kind, j: nat): State
    requires Valid(s)
  {
    var (name, next) := NameAt(text, j);
    var slot := NextSlot(s.root, s.current);
    var root := AddChild(s.root, s.current, name, kind);
    if kind == Namespace || kind == Struct then
      State(next, s.level, s.stack + [s.level], slot, root)
    else s.(cursor := next, root := root)
  }

  /**
   * The element of the new array at `arrayAt`: a leaf of the simple type the
   * table gives for `typeName`, else a copy of the first node of the whole
   * tree named `typeName`, else nothing.
   */
  function ArrayElement(root: Item, arrayAt: Path, typeName: string): (r: Item)
    requires WellFormed(root) && ValidPath(root, arrayAt)
    ensures WellFormed(r) && Extends(root, r)
    ensures r.name == root.name && r.kind == root.kind
  {
    if typeName in SimpleTypes then
      AddChildKeepsWellFormed(root, arrayAt, [], SimpleTypes[typeName]);
      AddChild(root, arrayAt, [], SimpleTypes[typeName])
    else match Find(root, typeName)
      case Some(p) =>
        var copy := Clone(At(root, p), arrayAt, |At(root, arrayAt).children|);
        AttachKeepsWellFormed(root, arrayAt, copy);
        AttachExtends(root, arrayAt, copy);
        AttachAt(root, arrayAt, copy)
      case None =>
        ExtendsReflexive(root);
        root
  }

  /**
   * `std::vector` followed by `<`, with the cursor on the `<`: the element
   * type name and then the field name are read, an Array node is appended
   * to `current`, and its element is resolved in the grown tree.
   */
  function DeclareArray(text: string, s: State, j: nat): State
    requires Valid(s)
  {
    var (typeName, j1) := NameAt(text, j);
    var (name, j2) := NameAt(text, j1);
    var arrayAt := NextSlot(s.root, s.current);
    var root := AddChild(s.root, s.current, name, Array);
    AddChildKeepsWellFormed(s.root, s.current, name, Array);
    s.(cursor := j2, root := ArrayElement(root, arrayAt, typeName))
  }

  /**
   * The keyword cases of the loop, given the keyword matched (if any) and the
   * cursor the match left: a declaration, or nothing but the cursor moved.
   */
  function Dispatch(text: string, s: State, m: (Option<Kind>, nat)): (r: State)
    requires Valid(s) && s.cursor < m.1
    ensures Valid(r) && s.cursor < r.cursor && Extends(s.root, r.root)
  {
    match m.0
    case None =>
      ExtendsReflexive(s.root);
      s.(cursor := m.1)
    case Some(kind) =>
      if kind == Array then
        DeclareArrayKeepsValid(text, s, m.1);
        DeclareArray(text, s, m.1)
      else
        DeclareKeepsValid(text, s, kind, m.1);
        Declare(text, s, kind, m.1)
  }

  /** One iteration of the scanning loop, on a character that is not the terminating NUL. */
  function Step(text: string, s: State): (r: State)
    requires Valid(s) && Peek(text, s.cursor) != '\0'
    ensures Valid(r) && s.cursor < r.cursor && Extends(s.root, r.root)
  {
    ExtendsReflexive(s.root);
    var c := Peek(text, s.cursor);
    var i := s.cursor + 1;
    if IsSpace(c) then s.(cursor := i)
    else if c == '{' then s.(cursor := i, level := s.level + 1)
    else if c == '}' then CloseBrace(s.(cursor := i))
    else Dispatch(text, s, MatchKeyword(text, c, i))
  }

  /** A character that starts no keyword, brace or whitespace is skipped on its own. */
  lemma OtherCharacterSkipped(text: string, s: State)
    requires Valid(s)
    requires var c := Peek(text, s.cursor);
      c != '\0' && !IsSpace(c) && c != '{' && c != '}'
      && c != 'b' && c != 'd' && c != 'i' && c != 'n' && c != 's' && c != 'u'
    ensures Step(text, s) == s.(cursor := s.cursor + 1)
  {
    StepOnKeyword(text, s);
  }

  /** Every prefix of a valid address is valid. */
  lemma {:induction false} ValidPrefix(n: Item, p: Path, m: nat)
    requires ValidPath(n, p) && m <= |p|
    ensures ValidPath(n, p[..m])
    decreases |p|
  {
    if m > 0 {
      assert p[..m][0] == p[0] && p[..m][1..] == p[1..][..m - 1];
      ValidPrefix(n.children[p[0]], p[1..], m - 1);
    }
  }

  lemma DeclareKeepsValid(text: string, s: State, kind: Kind, j: nat)
    requires Valid(s)
    ensures var r := Declare(text, s, kind, j);
      Valid(r) && j < r.cursor && Extends(s.root, r.root)
  {
    var (name, next) := NameAt(text, j);
    AddChildKeepsWellFormed(s.root, s.current, name, kind);
    var root := AddChild(s.root, s.current, name, kind);
    ExtendsKeepsAddresses(s.root, root, s.current);
  }

  lemma DeclareArrayKeepsValid(text: string, s: State, j: nat)
    requires Valid(s)
    ensures var r := DeclareArray(text, s, j);
      Valid(r) && j < r.cursor && Extends(s.root, r.root)
  {
    var (typeName, j1) := NameAt(text, j);
    var (name, j2) := NameAt(text, j1);
    var arrayAt := NextSlot(s.root, s.current);
    AddChildKeepsWellFormed(s.root, s.current, name, Array);
    var root := AddChild(s.root, s.current, name, Array);
    var r := ArrayElement(root, arrayAt, typeName);
    ExtendsTransitive(s.root, root, r);
    ExtendsKeepsAddresses(s.root, r, s.current);
  }

  /** The scanning loop from `s` until the terminating NUL; the result is the tree built. */
  function Run(text: string, s: State): (root: Item)
    requires Valid(s)
    ensures WellFormed(root) && root.name == [] && root.kind == Root
    ensures Extends(s.root, root)
    decreases |text| - s.cursor
  {
    if Peek(text, s.cursor) == '\0' then
      ExtendsReflexive(s.root);
      s.root
    else
      var next := Step(text, s);
      var root := Run(text, next);
      ExtendsTransitive(s.root, next.root, root);
      root
  }

  /** Whitespace between tokens is skipped: only the cursor moves. */
  lemma SpaceSkipped(text: string, s: State)
    requires Valid(s) && IsSpace(Peek(text, s.cursor))
    ensures Step(text, s) == s.(cursor := s.cursor + 1)
  {
  }

  /** `{` only counts a level. */
  lemma OpenBraceCounts(text: string, s: State)
    requires Valid(s) && Peek(text, s.cursor) == '{'
    ensures Step(text, s) == s.(cursor := s.cursor + 1, level := s.level + 1)
  {
  }

  /**
   * `}` counts a level down; exactly when the new level is the top of the
   * stack, the top is popped and `current` moves to its parent, the node
   * that holds it.
   */
  lemma CloseBraceRule(text: string, s: State)
    requires Valid(s) && Peek(text, s.cursor) == '}'
    ensures var r := Step(text, s);
      && r.cursor == s.cursor + 1 && r.level == s.level - 1 && r.root == s.root
      && if |s.stack| > 0 && s.level - 1 == s.stack[|s.stack| - 1] then
           && r.stack == s.stack[..|s.stack| - 1]
           && s.current == r.current + [s.current[|s.current| - 1]]
           && At(s.root, s.current).parent == Some(r.current)
         else r.stack == s.stack && r.current == s.current
  {
    if |s.stack| > 0 {
      ParentMatchesHolder(s.root, s.current);
    }
  }

  /** `Step` on a character that may begin a keyword. */
  lemma StepOnKeyword(text: string, s: State)
    requires Valid(s)
    requires var c := Peek(text, s.cursor); c != '\0' && !IsSpace(c) && c != '{' && c != '}'
    ensures Step(text, s) == Dispatch(text, s, MatchKeyword(text, Peek(text, s.cursor), s.cursor + 1))
  {
    var c := Peek(text, s.cursor);
    var m := MatchKeyword(text, c, s.cursor + 1);
    assert Step(text, s) == Dispatch(text, s, m);
  }

  /** A keyword spelled at `i` begins with one of the letters the keyword cases switch on. */
  lemma KeywordInitial(text: string, i: nat, k: Kind)
    requires k != Root && StartsWith(text, i, Spelling(k))
    ensures Peek(text, i) == Spelling(k)[0]
    ensures var c := Peek(text, i); c == 'b' || c == 'd' || c == 'i' || c == 'n' || c == 's' || c == 'u'
  {
    SpellingInitial(k);
    assert Peek(text, i + 0) == Spelling(k)[0];
  }

  /** A keyword spelled at `i` and followed by its trailer is what the keyword cases recognise. */
  lemma KeywordMatched(text: string, i: nat, k: Kind)
    requires k != Root && StartsWith(text, i, Spelling(k))
    requires Trailer(k, Peek(text, i + |Spelling(k)|))
    ensures MatchKeyword(text, Peek(text, i), i + 1) == (Some(k), i + |Spelling(k)|)
  {
    var w := Spelling(k);
    KeywordInitial(text, i, k);
    StartsWithCons(text, i, w);
    KeywordRecognised(text, w[0], i + 1, k);
  }

  lemma KeywordAt(text: string, i: nat, k: Kind)
    requires k != Root && StartsWith(text, i, Spelling(k))
    requires Trailer(k, Peek(text, i + |Spelling(k)|))
    ensures var c := Peek(text, i); c != '\0' && !IsSpace(c) && c != '{' && c != '}'
    ensures MatchKeyword(text, Peek(text, i), i + 1) == (Some(k), i + |Spelling(k)|)
  {
    KeywordInitial(text, i, k);
    KeywordMatched(text, i, k);
  }

  /** A keyword spelled at the cursor and followed by its trailer is declared. */
  lemma KeywordStep(text: string, s: State, k: Kind)
    requires Valid(s) && k != Root && StartsWith(text, s.cursor, Spelling(k))
    requires Trailer(k, Peek(text, s.cursor + |Spelling(k)|))
    ensures Peek(text, s.cursor) != '\0'
    ensures Step(text, s) ==
      if k == Array then DeclareArray(text, s, s.cursor + |Spelling(k)|)
      else Declare(text, s, k, s.cursor + |Spelling(k)|)
  {
    KeywordAt(text, s.cursor, k);
    StepOnKeyword(text, s);
  }

  /**
   * A primitive keyword followed by whitespace appends one childless leaf of
   * its kind, named by `getName`, at the end of `current`'s children;
   * `current`, `level` and the stack stay as they were.
   */
  lemma PrimitiveDeclared(text: string, s: State, k: Kind)
    requires Valid(s) && IsPrimitive(k)
    requires StartsWith(text, s.cursor, Spelling(k)) && IsSpace(Peek(text, s.cursor + |Spelling(k)|))
    ensures var c := Peek(text, s.cursor); c != '\0' && !IsSpace(c) && c != '{' && c != '}'
    ensures var r := Step(text, s);
      var (name, next) := NameAt(text, s.cursor + |Spelling(k)|);
      && r.cursor == next && r.level == s.level && r.stack == s.stack && r.current == s.current
      && r.root == AddChild(s.root, s.current, name, k)
      && At(r.root, s.current).children == At(s.root, s.current).children + [Item(name, k, Some(s.current), [])]
  {
    KeywordAt(text, s.cursor, k);
    StepOnKeyword(text, s);
    var j := s.cursor + |Spelling(k)|;
    assert Step(text, s) == Declare(text, s, k, j);
    var (name, next) := NameAt(text, j);
    AppendedLast(s.root, s.current, name, k);
  }

  /**
   * `namespace` or `struct` followed by whitespace appends a childless
   * node of that kind, named by `getName`, at the end of `current`'s
   * children, makes it `current` and pushes the level it was opened at.
   */
  lemma ScopeOpened(text: string, s: State, k: Kind)
    requires Valid(s) && (k == Namespace || k == Struct)
    requires StartsWith(text, s.cursor, Spelling(k)) && IsSpace(Peek(text, s.cursor + |Spelling(k)|))
    ensures var c := Peek(text, s.cursor); c != '\0' && !IsSpace(c) && c != '{' && c != '}'
    ensures var r := Step(text, s);
      var (name, next) := NameAt(text, s.cursor + |Spelling(k)|);
      && r.cursor == next && r.level == s.level
      && r.stack == s.stack + [s.level] && r.current == NextSlot(s.root, s.current)
      && r.root == AddChild(s.root, s.current, name, k)
      && At(r.root, s.current).children == At(s.root, s.current).children + [Item(name, k, Some(s.current), [])]
      && At(r.root, r.current) == Item(name, k, Some(s.current), [])
  {
    KeywordAt(text, s.cursor, k);
    StepOnKeyword(text, s);
    var j := s.cursor + |Spelling(k)|;
    assert Step(text, s) == Declare(text, s, k, j);
    var (name, next) := NameAt(text, j);
    AppendedLast(s.root, s.current, name, k);
  }

  /** The node `AddChild` appends is the last child of its holder. */
  lemma AppendedLast(root: Item, p: Path, name: string, kind: Kind)
    requires ValidPath(root, p)
    ensures var r := AddChild(root, p, name, kind);
      At(r, p).children == At(root, p).children + [Item(name, kind, Some(p), [])]
  {
    var r := AddChild(root, p, name, kind);
    AtSnoc(r, p, |At(root, p).children|);
  }

  /**
   * `std::vector` followed by `<`: the element type name and then the
   * field name are read; an Array node with that field name is appended
   * as the last child of `current`, whose earlier children stay as they
   * were, and its element is resolved in the grown tree: its only child is
   * a leaf of the simple type the table gives for the type name, or else a
   * copy (shape, name and kind alike) of the first node of the grown tree
   * carrying that name, re-parented to the array; with neither, the array
   * has no children.
   */
  lemma ArrayDeclared(text: string, s: State)
    requires Valid(s)
    requires StartsWith(text, s.cursor, "std::vector") && Peek(text, s.cursor + 11) == '<'
    ensures Peek(text, s.cursor) == 's'
    ensures var r := Step(text, s);
      var (typeName, j1) := NameAt(text, s.cursor + 11);
      var (name, j2) := NameAt(text, j1);
      var slot := NextSlot(s.root, s.current);
      var grown := AddChild(s.root, s.current, name, Array);
      && r.cursor == j2 && r.level == s.level && r.stack == s.stack && r.current == s.current
      && WellFormed(grown) && ValidPath(grown, slot) && r.root == ArrayElement(grown, slot, typeName)
      && ValidPath(r.root, s.current) && ValidPath(r.root, slot)
      && At(r.root, s.current).children == At(s.root, s.current).children + [At(r.root, slot)]
      && At(r.root, slot).name == name && At(r.root, slot).kind == Array
      && At(r.root, slot).parent == Some(s.current)
      && (typeName in SimpleTypes ==>
            At(r.root, slot).children == [Item([], SimpleTypes[typeName], Some(slot), [])])
      && (typeName !in SimpleTypes && Find(grown, typeName).Some? ==>
            |At(r.root, slot).children| == 1
            && SameShape(At(r.root, slot).children[0], At(grown, Find(grown, typeName).value))
            && At(r.root, slot).children[0].parent == Some(slot))
      && (typeName !in SimpleTypes && Find(grown, typeName).None? ==> At(r.root, slot).children == [])
  {
    ArrayStep(text, s);
    var (typeName, j1) := NameAt(text, s.cursor + 11);
    var (name, j2) := NameAt(text, j1);
    var before := At(s.root, s.current).children;
    var slot := NextSlot(s.root, s.current);
    var grown := AddChild(s.root, s.current, name, Array);
    AddChildKeepsWellFormed(s.root, s.current, name, Array);
    AppendedLast(s.root, s.current, name, Array);
    ArrayElementAt(grown, slot, typeName);
    ArrayElementHolder(grown, s.current, |before|, typeName);
    var r := ArrayElement(grown, slot, typeName);
    assert (before + [Item(name, Array, Some(s.current), [])])[|before| := At(r, slot)] == before + [At(r, slot)];
  }

  /** `std::vector<` at the cursor is the array declaration. */
  lemma ArrayStep(text: string, s: State)
    requires Valid(s)
    requires StartsWith(text, s.cursor, "std::vector") && Peek(text, s.cursor + 11) == '<'
    ensures Peek(text, s.cursor) == 's'
    ensures Step(text, s) == DeclareArray(text, s, s.cursor + 11)
  {
    assert Spelling(Array) == "std::vector";
    KeywordStep(text, s, Array);
    assert Peek(text, s.cursor + 0) == "std::vector"[0];
  }

  /** Resolving the element of the array at `q + [i]` changes, at `q`, only child `i`. */
  lemma ArrayElementHolder(root: Item, q: Path, i: nat, typeName: string)
    requires WellFormed(root) && ValidPath(root, q + [i])
    ensures var r := ArrayElement(root, q + [i], typeName);
      && ValidPath(root, q) && ValidPath(r, q) && ValidPath(r, q + [i]) && i < |At(root, q).children|
      && At(r, q).children == At(root, q).children[i := At(r, q + [i])]
  {
    var arrayAt := q + [i];
    if typeName in SimpleTypes {
      AttachHolder(root, q, i, Item([], SimpleTypes[typeName], Some(arrayAt), []));
    } else if Find(root, typeName).Some? {
      var p := Find(root, typeName).value;
      AttachHolder(root, q, i, Clone(At(root, p), arrayAt, |At(root, arrayAt).children|));
    } else {
      assert (q + [i])[..|q|] == q;
      ValidPrefix(root, q + [i], |q|);
      AtSnoc(root, q, i);
    }
  }

  /** What `ArrayElement` puts under a childless array node. */
  lemma ArrayElementAt(root: Item, arrayAt: Path, typeName: string)
    requires WellFormed(root) && ValidPath(root, arrayAt) && At(root, arrayAt).children == []
    ensures var r := ArrayElement(root, arrayAt, typeName);
      && ValidPath(r, arrayAt)
      && At(r, arrayAt).name == At(root, arrayAt).name && At(r, arrayAt).kind == At(root, arrayAt).kind
      && At(r, arrayAt).parent == At(root, arrayAt).parent
      && (typeName in SimpleTypes ==>
            At(r, arrayAt).children == [Item([], SimpleTypes[typeName], Some(arrayAt), [])])
      && (typeName !in SimpleTypes && Find(root, typeName).Some? ==>
            |At(r, arrayAt).children| == 1
            && SameShape(At(r, arrayAt).children[0], At(root, Find(root, typeName).value))
            && At(r, arrayAt).children[0].parent == Some(arrayAt))
      && (typeName !in SimpleTypes && Find(root, typeName).None? ==> At(r, arrayAt).children == [])
  {
    if typeName in SimpleTypes {
      AppendedLast(root, arrayAt, [], SimpleTypes[typeName]);
    }
  }

  /**
   * A character that is neither whitespace, a brace nor the start of a
   * keyword followed by its trailer is passed over with whatever partial
   * keyword match follows it; nothing but the cursor changes.
   */
  lemma Unrecognised(text: string, s: State)
    requires Valid(s)
    requires var c := Peek(text, s.cursor); c != '\0' && !IsSpace(c) && c != '{' && c != '}'
    requires forall k :: k != Root ==>
      !(StartsWith(text, s.cursor, Spelling(k)) && Trailer(k, Peek(text, s.cursor + |Spelling(k)|)))
    ensures var r := Step(text, s);
      r == s.(cursor := r.cursor) && s.cursor < r.cursor
  {
    NothingMatched(text, s.cursor);
    StepOnNothing(text, s);
  }

  /** At `i` there is no brace and no keyword spelled with its trailer. */
  predicate Filler(text: string, i: nat)
  {
    && Peek(text, i) != '{' && Peek(text, i) != '}'
    && forall k :: k != Root ==>
         !(StartsWith(text, i, Spelling(k)) && Trailer(k, Peek(text, i + |Spelling(k)|)))
  }

  /** A buffer that holds only filler from the cursor on adds no node: the loop ends with the tree unchanged. */
  lemma {:induction false} FillerLeavesTree(text: string, s: State)
    requires Valid(s) && forall i :: s.cursor <= i < |text| ==> Filler(text, i)
    ensures Run(text, s) == s.root
    decreases |text| - s.cursor
  {
    if Peek(text, s.cursor) != '\0' {
      assert Filler(text, s.cursor);
      var r := Step(text, s);
      if !IsSpace(Peek(text, s.cursor)) {
        Unrecognised(text, s);
      }
      assert r == s.(cursor := r.cursor);
      FillerLeavesTree(text, r);
    }
  }

  /** When the keyword cases recognise nothing, only the cursor moves, past the partial match. */
  lemma StepOnNothing(text: string, s: State)
    requires Valid(s)
    requires var c := Peek(text, s.cursor); c != '\0' && !IsSpace(c) && c != '{' && c != '}'
    requires MatchKeyword(text, Peek(text, s.cursor), s.cursor + 1).0 == None
    ensures Step(text, s) == s.(cursor := MatchKeyword(text, Peek(text, s.cursor), s.cursor + 1).1)
  {
    StepOnKeyword(text, s);
  }

  /** Where no keyword is spelled with its trailer, the keyword cases recognise nothing. */
  lemma NothingMatched(text: string, i: nat)
    requires forall k :: k != Root ==>
      !(StartsWith(text, i, Spelling(k)) && Trailer(k, Peek(text, i + |Spelling(k)|)))
    ensures MatchKeyword(text, Peek(text, i), i + 1).0 == None
  {
    var c := Peek(text, i);
    var m := MatchKeyword(text, c, i + 1);
    if m.0.Some? {
      var k := m.0.value;
      KeywordRecognised(text, c, i + 1, k);
      StartsWithCons(text, i, Spelling(k));
      assert false;
    }
  }

  /** `Parser::parse`: the loop over local state, returning the root it built. */
  method Parse(text: string) returns (root: Item)
    ensures root == Run(text, Start())
    ensures WellFormed(root) && root.name == [] && root.kind == Root && root.parent == None
  {
    root := NewRoot();
    var current: Path := [];
    var level := 0;
    var stack: seq<int> := [];
    var cursor: nat := 0;
    while Peek(text, cursor) != '\0'
      invariant Valid(State(cursor, level, stack, current, root))
      invariant Run(text, State(cursor, level, stack, current, root)) == Run(text, Start())
      decreases |text| - cursor
    {
      var after := Scan(text, State(cursor, level, stack, current, root));
      cursor, level, stack, current, root := after.cursor, after.level, after.stack, after.current, after.root;
    }
  }

  /** The body of the loop of `Parser::parse`: one character, brace or keyword consumed. */
  method Scan(text: string, s: State) returns (r: State)
    requires Valid(s) && Peek(text, s.cursor) != '\0'
    ensures r == Step(text, s)
  {
    var cursor, level, stack, current := s.cursor, s.level, s.stack, s.current;
    var c := Peek(text, cursor);
    cursor := cursor + 1;
    if IsSpace(c) {
      return s.(cursor := cursor);
    }
    if c == '{' {
      level := level + 1;
      r := s.(cursor := cursor, level := level);
    } else if c == '}' {
      level := level - 1;
      if |stack| > 0 && level == stack[|stack| - 1] {
        stack := stack[..|stack| - 1];
        ParentMatchesHolder(s.root, current);
        current := At(s.root, current).parent.value;
      }
      r := State(cursor, level, stack, current, s.root);
      assert r == CloseBrace(s.(cursor := cursor));
    } else {
      StepOnKeyword(text, s);
      r := ScanKeyword(text, s, c);
    }
  }

  /** The keyword cases of the loop body: the keyword is matched and, when recognised, declared. */
  method ScanKeyword(text: string, s: State, c: char) returns (r: State)
    requires Valid(s)
    ensures r == Dispatch(text, s, MatchKeyword(text, c, s.cursor + 1))
  {
    var (k, j) := MatchKeyword(text, c, s.cursor + 1);
    if k.None? {
      r := s.(cursor := j);
    } else if k.value == Array {
      r := ReadArray(text, s, j);
    } else {
      r := ReadDeclaration(text, s, k.value, j);
    }
  }

  /** The `std::vector` case of the loop body: both names are read, the array appended and its element resolved. */
  method ReadArray(text: string, s: State, j: nat) returns (r: State)
    requires Valid(s)
    ensures r == DeclareArray(text, s, j)
  {
    var typeName, name, cursor;
    typeName, cursor := GetName(text, j);
    name, cursor := GetName(text, cursor);
    var arrayAt := NextSlot(s.root, s.current);
    var root := AddChild(s.root, s.current, name, Array);
    ghost var grown := root;
    AddChildKeepsWellFormed(s.root, s.current, name, Array);
    if typeName in SimpleTypes {
      root := AddChild(root, arrayAt, [], SimpleTypes[typeName]);
    } else {
      var found := Find(root, typeName);
      if found.Some? {
        root := AttachAt(root, arrayAt, Clone(At(root, found.value), arrayAt, |At(root, arrayAt).children|));
      }
    }
    assert root == ArrayElement(grown, arrayAt, typeName);
    r := s.(cursor := cursor, root := root);
  }

  /** The other keyword cases of the loop body: the name is read and the node appended; a scope becomes `current`. */
  method ReadDeclaration(text: string, s: State, kind: Kind, j: nat) returns (r: State)
    requires Valid(s)
    ensures r == Declare(text, s, kind, j)
  {
    var name, cursor := GetName(text, j);
    var slot := NextSlot(s.root, s.current);
    var root := AddChild(s.root, s.current, name, kind);
    if kind == Namespace || kind == Struct {
      r := State(cursor, s.level, s.stack + [s.level], slot, root);
    } else {
      r := s.(cursor := cursor, root := root);
    }
  }
}
