/**
 * Small inputs in the shape of the test scenario, parsed and rendered:
 * filler that declares nothing, an array of a simple type, a nested struct
 * closed before later fields, an array whose element type is a struct
 * declared earlier, and a failed keyword match that swallows the first
 * letter of the keyword after it.
 */
module Scenarios {
  import opened Wrappers
  import opened Items
  import opened Scanner
  import opened Parsing
  import opened Rendering

  /** `skipSpaces` from `i` stops at `b` when only whitespace lies between them and `b` holds none. */
  lemma {:induction false} SpacesEndAt(text: string, i: nat, b: nat)
    requires i < b && forall k :: i <= k < b ==> Peek(text, k) != '\0'
    requires forall k :: i < k < b ==> IsSpace(Peek(text, k))
    requires !IsSpace(Peek(text, b))
    ensures SpacesEnd(text, i) == b
    decreases b - i
  {
    if i + 1 < b {
      SpacesEndAt(text, i + 1, b);
    }
  }

  /** `moveToEndOfName` from `b` stops at `e` when no character up to `e` ends the name and the one at `e` does. */
  lemma {:induction false} NameEndAt(text: string, b: nat, e: nat)
    requires b < e && forall k :: b <= k < e ==> Peek(text, k) != '\0'
    requires forall k :: b < k < e ==> !EndsName(Peek(text, k))
    requires EndsName(Peek(text, e))
    ensures NameEnd(text, b) == e
    decreases e - b
  {
    if b + 1 < e {
      NameEndAt(text, b + 1, e);
    }
  }

  /** `getName` from `i` reads the characters `name` that start at `b`, after whitespace only. */
  lemma NameRead(text: string, i: nat, b: nat, name: string)
    requires i < b && b + |name| < |text| && |name| >= 1 && StartsWith(text, b, name)
    requires forall k :: i <= k < b ==> text[k] != '\0' && (i < k ==> IsSpace(text[k]))
    requires forall k :: 0 <= k < |name| ==> name[k] != '\0' && (k == 0 ==> !IsSpace(name[k])) && (0 < k ==> !EndsName(name[k]))
    requires EndsName(text[b + |name|])
    ensures NameAt(text, i) == (name, b + |name|)
  {
    var e := b + |name|;
    forall k | b <= k < e
      ensures Peek(text, k) != '\0' && (b < k ==> !EndsName(Peek(text, k)))
    {
      assert Peek(text, b + (k - b)) == name[k - b];
    }
    assert Peek(text, b + 0) == name[0];
    SpacesEndAt(text, i, b);
    NameEndAt(text, b, e);
    assert Span(text, b, e) == name;
  }

  /** At `i` the buffer holds the keyword of `k`, one space and then `name`, which a terminator follows. */
  lemma DeclaresAt(text: string, i: nat, k: Kind, name: string)
    requires k != Root && i + |Spelling(k)| + 1 + |name| < |text| && |name| >= 1
    requires StartsWith(text, i, Spelling(k)) && text[i + |Spelling(k)|] == ' '
    requires StartsWith(text, i + |Spelling(k)| + 1, name)
    requires forall j :: 0 <= j < |name| ==> name[j] != '\0' && !EndsName(name[j])
    requires EndsName(text[i + |Spelling(k)| + 1 + |name|])
    ensures Declares(text, i, k, name, i + |Spelling(k)| + 1 + |name|)
  {
    NameRead(text, i + |Spelling(k)|, i + |Spelling(k)| + 1, name);
  }

  /** Whitespace, seen from `Run`. */
  lemma RunSpace(text: string, s: State)
    requires Valid(s) && IsSpace(Peek(text, s.cursor))
    ensures Run(text, s) == Run(text, s.(cursor := s.cursor + 1))
  {
    SpaceSkipped(text, s);
  }

  /** `{`, seen from `Run`. */
  lemma RunOpen(text: string, s: State)
    requires Valid(s) && Peek(text, s.cursor) == '{'
    ensures Run(text, s) == Run(text, s.(cursor := s.cursor + 1, level := s.level + 1))
  {
    OpenBraceCounts(text, s);
  }

  /** A `}` that closes the innermost scope, seen from `Run`. */
  lemma RunClose(text: string, s: State)
    requires Valid(s) && Peek(text, s.cursor) == '}'
    requires |s.stack| > 0 && s.level - 1 == s.stack[|s.stack| - 1]
    ensures Valid(State(s.cursor + 1, s.level - 1, s.stack[..|s.stack| - 1], s.current[..|s.current| - 1], s.root))
    ensures Run(text, s) ==
      Run(text, State(s.cursor + 1, s.level - 1, s.stack[..|s.stack| - 1], s.current[..|s.current| - 1], s.root))
  {
    CloseBraceRule(text, s);
  }

  /** A character that starts nothing, seen from `Run`. */
  lemma RunOther(text: string, s: State)
    requires Valid(s)
    requires var c := Peek(text, s.cursor);
      c != '\0' && !IsSpace(c) && c != '{' && c != '}'
      && c != 'b' && c != 'd' && c != 'i' && c != 'n' && c != 's' && c != 'u'
    ensures Run(text, s) == Run(text, s.(cursor := s.cursor + 1))
  {
    OtherCharacterSkipped(text, s);
  }

  /** At `i` the buffer spells the keyword of `k`, a space, and the name `name` ending at `next`. */
  predicate Declares(text: string, i: nat, k: Kind, name: string, next: nat)
  {
    && k != Root
    && StartsWith(text, i, Spelling(k))
    && IsSpace(Peek(text, i + |Spelling(k)|))
    && NameAt(text, i + |Spelling(k)|) == (name, next)
  }

  /** A scope keyword, named `name`, seen from `Run`. */
  lemma RunScope(text: string, s: State, k: Kind, name: string, next: nat)
    requires Valid(s) && (k == Namespace || k == Struct) && Declares(text, s.cursor, k, name, next)
    ensures Valid(State(next, s.level, s.stack + [s.level], NextSlot(s.root, s.current), AddChild(s.root, s.current, name, k)))
    ensures Run(text, s) ==
      Run(text, State(next, s.level, s.stack + [s.level], NextSlot(s.root, s.current), AddChild(s.root, s.current, name, k)))
  {
    KeywordStep(text, s, k);
  }

  /** A primitive keyword, named `name`, seen from `Run`. */
  lemma RunField(text: string, s: State, k: Kind, name: string, next: nat)
    requires Valid(s) && IsPrimitive(k) && Declares(text, s.cursor, k, name, next)
    ensures Valid(s.(cursor := next, root := AddChild(s.root, s.current, name, k)))
    ensures Run(text, s) == Run(text, s.(cursor := next, root := AddChild(s.root, s.current, name, k)))
  {
    KeywordStep(text, s, k);
  }

  /** `std::vector<` with its element type and name, seen from `Run`. */
  lemma RunArray(text: string, s: State, typeName: string, j1: nat, name: string, j2: nat)
    requires Valid(s) && StartsWith(text, s.cursor, "std::vector") && Peek(text, s.cursor + 11) == '<'
    requires NameAt(text, s.cursor + 11) == (typeName, j1) && NameAt(text, j1) == (name, j2)
    ensures var slot := NextSlot(s.root, s.current);
      var grown := AddChild(s.root, s.current, name, Array);
      && WellFormed(grown)
      && var r := s.(cursor := j2, root := ArrayElement(grown, slot, typeName));
      Valid(r) && Run(text, s) == Run(text, r)
  {
    assert Spelling(Array) == "std::vector";
    KeywordStep(text, s, Array);
    AddChildKeepsWellFormed(s.root, s.current, name, Array);
  }

  /** A space and then `{`, seen from `Run`. */
  lemma RunSpaceOpen(text: string, s: State)
    requires Valid(s) && IsSpace(Peek(text, s.cursor)) && Peek(text, s.cursor + 1) == '{'
    ensures Valid(State(s.cursor + 2, s.level + 1, s.stack, s.current, s.root))
    ensures Run(text, s) == Run(text, State(s.cursor + 2, s.level + 1, s.stack, s.current, s.root))
  {
    RunSpace(text, s);
    var t := s.(cursor := s.cursor + 1);
    RunOpen(text, t);
    assert t.(cursor := t.cursor + 1, level := t.level + 1) == State(s.cursor + 2, s.level + 1, s.stack, s.current, s.root);
  }

  /** `;` and then a `}` that closes the innermost scope, seen from `Run`. */
  lemma RunEndClose(text: string, s: State, stack: seq<int>, current: Path)
    requires Valid(s) && Peek(text, s.cursor) == ';' && Peek(text, s.cursor + 1) == '}'
    requires s.stack == stack + [s.level - 1] && |s.current| > 0 && current == s.current[..|s.current| - 1]
    ensures Valid(State(s.cursor + 2, s.level - 1, stack, current, s.root))
    ensures Run(text, s) == Run(text, State(s.cursor + 2, s.level - 1, stack, current, s.root))
  {
    RunOther(text, s);
    assert s.stack[..|s.stack| - 1] == stack;
    RunClose(text, s.(cursor := s.cursor + 1));
  }

  const VectorText: string := "std::vector<double> a;"

  /** The tree `std::vector<double> a;` builds: an array `a` holding one unnamed `double`. */
  const VectorTree: Item := Item([], Root, None, [Item("a", Array, Some([]), [Item([], Double, Some([0]), [])])])

  /** The root once the array `a` is appended, before its element is resolved. */
  const VectorGrown: Item := Item([], Root, None, [Item("a", Array, Some([]), [])])

  /** The element of `a`: `double` is a simple type, so an unnamed `double` leaf is appended below `a`. */
  lemma VectorElement()
    ensures NextSlot(NewRoot(), []) == [0] && AddChild(NewRoot(), [], "a", Array) == VectorGrown
    ensures WellFormed(VectorGrown) ==> ArrayElement(VectorGrown, [0], "double") == VectorTree
  {
    assert "double" in SimpleTypes && SimpleTypes["double"] == Double;
    var a := VectorGrown.children[0];
    assert [0][1..] == [];
    assert AttachAt(a, [], Item([], Double, Some([0]), [])) == a.(children := [Item([], Double, Some([0]), [])]);
  }

  /** The characters of `std::vector<double> a;`. */
  predicate VectorSpelled(text: string)
  {
    && |text| == 22 && StartsWith(text, 0, "std::vector") && text[11] == '<'
    && StartsWith(text, 12, "double") && text[18] == '>' && text[19] == ' ' && text[20] == 'a' && text[21] == ';'
  }

  lemma VectorLetters()
    ensures VectorSpelled(VectorText)
  {
  }

  lemma VectorWords(text: string)
    requires VectorSpelled(text)
    ensures StartsWith(text, 0, "std::vector") && Peek(text, 11) == '<'
    ensures NameAt(text, 11) == ("double", 18) && NameAt(text, 18) == ("a", 21)
    ensures Peek(text, 21) == ';' && Peek(text, 22) == '\0'
  {
    NameRead(text, 11, 12, "double");
    NameRead(text, 18, 20, "a");
  }

  /** `std::vector<double> a;`, then the end of the buffer. */
  lemma VectorArray(text: string)
    requires StartsWith(text, 0, "std::vector") && Peek(text, 11) == '<'
    requires NameAt(text, 11) == ("double", 18) && NameAt(text, 18) == ("a", 21)
    requires Peek(text, 21) == ';' && Peek(text, 22) == '\0'
    ensures Run(text, Start()) == VectorTree
  {
    VectorDeclared(text);
    RunOther(text, State(21, 0, [], [], VectorTree));
  }

  lemma VectorDeclared(text: string)
    requires StartsWith(text, 0, "std::vector") && Peek(text, 11) == '<'
    requires NameAt(text, 11) == ("double", 18) && NameAt(text, 18) == ("a", 21)
    ensures Valid(State(21, 0, [], [], VectorTree))
    ensures Run(text, Start()) == Run(text, State(21, 0, [], [], VectorTree))
  {
    RunArray(text, Start(), "double", 18, "a", 21);
    VectorElement();
  }

  lemma VectorRun()
    ensures Run(VectorText, Start()) == VectorTree
  {
    VectorLetters();
    VectorWords(VectorText);
    VectorArray(VectorText);
  }

  /** The indents of the first three levels, as `RenderItem` builds them. */
  lemma Indents()
    ensures "" + "  " == "  " && "  " + "  " == "    "
  {
  }

  lemma VectorLines()
    ensures "" + Line(VectorTree.children[0]) + "\n" == "array a\n"
    ensures "  " + Line(VectorTree.children[0].children[0]) + "\n" == "  double\n"
  {
    assert Line(VectorTree.children[0]) == "array a";
    Unit("double");
    assert Line(VectorTree.children[0].children[0]) == "double";
  }

  lemma VectorTreeRenders()
    ensures Render(VectorTree) == "array a\n" + "  double\n"
  {
    var arr := VectorTree.children[0];
    Indents();
    VectorLines();
    LeafRenders(arr.children[0], "  ");
    OnlyChildRenders(arr, "  ");
    OnlyChildRenders(VectorTree, "");
  }

  /** `std::vector<double> a;` renders as `array a` with one unnamed `double` child. */
  lemma VectorOfDoubleRenders()
    ensures Render(Run(VectorText, Start())) == "array a\n" + "  double\n"
  {
    VectorRun();
    VectorTreeRenders();
  }

  const NestedText: string := "struct D {struct I {bool ok;}bool u;}"

  /** A root holding only the empty struct `D`. */
  const StructD: Item := Item([], Root, None, [Item("D", Struct, Some([]), [])])

  /** `D` with `I` opened inside it. */
  const NestedOpened: Item :=
    Item([], Root, None, [Item("D", Struct, Some([]), [Item("I", Struct, Some([0]), [])])])

  /** `D` holding `I`, which holds `ok`. */
  const NestedInnerDone: Item :=
    Item([], Root, None, [Item("D", Struct, Some([]), [
      Item("I", Struct, Some([0]), [Item("ok", Bool, Some([0, 0]), [])])])])

  /** What `NestedText` builds: `D` holds `I`, which holds only `ok`, and then `u`. */
  const NestedTree: Item :=
    Item([], Root, None, [
      Item("D", Struct, Some([]), [
        Item("I", Struct, Some([0]), [Item("ok", Bool, Some([0, 0]), [])]),
        Item("u", Bool, Some([0]), [])])])

  /** The characters of `struct D {struct I {bool ok;}bool u;}`. */
  predicate NestedSpelled(text: string)
  {
    && |text| == 37
    && StartsWith(text, 0, "struct") && text[6] == ' ' && text[7] == 'D' && text[8] == ' ' && text[9] == '{'
    && StartsWith(text, 10, "struct") && text[16] == ' ' && text[17] == 'I' && text[18] == ' ' && text[19] == '{'
    && StartsWith(text, 20, "bool") && text[24] == ' ' && StartsWith(text, 25, "ok") && text[27] == ';' && text[28] == '}'
    && StartsWith(text, 29, "bool") && text[33] == ' ' && text[34] == 'u' && text[35] == ';' && text[36] == '}'
  }

  lemma NestedLetters()
    ensures NestedSpelled(NestedText)
  {
    assert |NestedText| == 37;
    NestedLettersD();
    NestedLettersI();
    NestedLettersOk();
    NestedLettersU();
  }

  lemma NestedLettersD()
    ensures StartsWith(NestedText, 0, "struct") && NestedText[6] == ' ' && NestedText[7] == 'D' && NestedText[8] == ' ' && NestedText[9] == '{'
  {
  }

  lemma NestedLettersI()
    ensures StartsWith(NestedText, 10, "struct") && NestedText[16] == ' ' && NestedText[17] == 'I' && NestedText[18] == ' ' && NestedText[19] == '{'
  {
  }

  lemma NestedLettersOk()
    ensures StartsWith(NestedText, 20, "bool") && NestedText[24] == ' ' && StartsWith(NestedText, 25, "ok") && NestedText[27] == ';' && NestedText[28] == '}'
  {
  }

  lemma NestedLettersU()
    ensures StartsWith(NestedText, 29, "bool") && NestedText[33] == ' ' && NestedText[34] == 'u' && NestedText[35] == ';' && NestedText[36] == '}'
  {
  }

  lemma NestedWords(text: string)
    requires NestedSpelled(text)
    ensures Declares(text, 0, Struct, "D", 8) && Declares(text, 10, Struct, "I", 18)
    ensures Declares(text, 20, Bool, "ok", 27) && Declares(text, 29, Bool, "u", 35)
    ensures IsSpace(Peek(text, 8)) && Peek(text, 9) == '{'
    ensures IsSpace(Peek(text, 18)) && Peek(text, 19) == '{'
    ensures Peek(text, 27) == ';' && Peek(text, 28) == '}'
    ensures Peek(text, 35) == ';' && Peek(text, 36) == '}'
    ensures Peek(text, 37) == '\0'
  {
    DeclaresAt(text, 0, Struct, "D");
    DeclaresAt(text, 10, Struct, "I");
    DeclaresAt(text, 20, Bool, "ok");
    DeclaresAt(text, 29, Bool, "u");
  }

  /** `struct D {`: `D` is attached to the root, `current` descends to it and level 0 is pushed. */
  lemma OpenStructD(text: string)
    requires Declares(text, 0, Struct, "D", 8) && IsSpace(Peek(text, 8)) && Peek(text, 9) == '{'
    ensures Valid(State(10, 1, [0], [0], StructD))
    ensures Run(text, Start()) == Run(text, State(10, 1, [0], [0], StructD))
  {
    RunScope(text, Start(), Struct, "D", 8);
    assert NextSlot(NewRoot(), []) == [0];
    assert AddChild(NewRoot(), [], "D", Struct) == StructD;
    RunSpaceOpen(text, State(8, 0, [0], [0], StructD));
  }

  /** `struct I {`: `I` is attached to `D`, `current` descends to it and level 1 is pushed. */
  lemma NestedOpenI(text: string)
    requires Declares(text, 10, Struct, "I", 18) && IsSpace(Peek(text, 18)) && Peek(text, 19) == '{'
    requires Valid(State(10, 1, [0], [0], StructD))
    ensures Valid(State(20, 2, [0, 1], [0, 0], NestedOpened))
    ensures Run(text, State(10, 1, [0], [0], StructD)) == Run(text, State(20, 2, [0, 1], [0, 0], NestedOpened))
  {
    var s10 := State(10, 1, [0], [0], StructD);
    RunScope(text, s10, Struct, "I", 18);
    assert NextSlot(StructD, [0]) == [0, 0];
    assert s10.stack + [s10.level] == [0, 1];
    assert AddChild(StructD, [0], "I", Struct) == NestedOpened;
    RunSpaceOpen(text, State(18, 1, [0, 1], [0, 0], NestedOpened));
  }

  /** `bool ok;}`: `ok` is attached to `I`, and `}` brings `current` back to `D`. */
  lemma NestedCloseI(text: string)
    requires Declares(text, 20, Bool, "ok", 27) && Peek(text, 27) == ';' && Peek(text, 28) == '}'
    requires Valid(State(20, 2, [0, 1], [0, 0], NestedOpened))
    ensures Valid(State(29, 1, [0], [0], NestedInnerDone))
    ensures Run(text, State(20, 2, [0, 1], [0, 0], NestedOpened)) == Run(text, State(29, 1, [0], [0], NestedInnerDone))
  {
    NestedFieldOk(text);
    RunEndClose(text, State(27, 2, [0, 1], [0, 0], NestedInnerDone), [0], [0]);
  }

  lemma NestedFieldOk(text: string)
    requires Declares(text, 20, Bool, "ok", 27)
    requires Valid(State(20, 2, [0, 1], [0, 0], NestedOpened))
    ensures Valid(State(27, 2, [0, 1], [0, 0], NestedInnerDone))
    ensures Run(text, State(20, 2, [0, 1], [0, 0], NestedOpened)) == Run(text, State(27, 2, [0, 1], [0, 0], NestedInnerDone))
  {
    RunField(text, State(20, 2, [0, 1], [0, 0], NestedOpened), Bool, "ok", 27);
    OkAttached();
  }

  lemma OkAttached()
    ensures AddChild(NestedOpened, [0, 0], "ok", Bool) == NestedInnerDone
  {
    var leaf := Item("ok", Bool, Some([0, 0]), []);
    var d := NestedOpened.children[0];
    var i := d.children[0];
    assert [0, 0][1..] == [0] && [0][1..] == [];
    assert AttachAt(i, [], leaf) == i.(children := [leaf]);
    assert AttachAt(d, [0], leaf) == d.(children := [i.(children := [leaf])]);
  }

  /** `bool u;}`: `u` is attached to `D`, after `I`; the last `}` closes `D` and the buffer ends. */
  lemma NestedCloseD(text: string)
    requires Declares(text, 29, Bool, "u", 35) && Peek(text, 35) == ';' && Peek(text, 36) == '}' && Peek(text, 37) == '\0'
    requires Valid(State(29, 1, [0], [0], NestedInnerDone))
    ensures Run(text, State(29, 1, [0], [0], NestedInnerDone)) == NestedTree
  {
    NestedFieldU(text);
    RunEndClose(text, State(35, 1, [0], [0], NestedTree), [], []);
  }

  lemma NestedFieldU(text: string)
    requires Declares(text, 29, Bool, "u", 35)
    requires Valid(State(29, 1, [0], [0], NestedInnerDone))
    ensures Valid(State(35, 1, [0], [0], NestedTree))
    ensures Run(text, State(29, 1, [0], [0], NestedInnerDone)) == Run(text, State(35, 1, [0], [0], NestedTree))
  {
    RunField(text, State(29, 1, [0], [0], NestedInnerDone), Bool, "u", 35);
    UAttached();
  }

  lemma UAttached()
    ensures AddChild(NestedInnerDone, [0], "u", Bool) == NestedTree
  {
    var leaf := Item("u", Bool, Some([0]), []);
    var d := NestedInnerDone.children[0];
    assert [0][1..] == [];
    assert AttachAt(d, [], leaf) == d.(children := d.children + [leaf]);
    assert d.children + [leaf] == [d.children[0], leaf];
    assert AttachAt(NestedInnerDone, [0], leaf) == NestedInnerDone.(children := [d.(children := [d.children[0], leaf])]);
  }

  lemma NestedToI(text: string)
    requires Declares(text, 0, Struct, "D", 8) && IsSpace(Peek(text, 8)) && Peek(text, 9) == '{'
    requires Declares(text, 10, Struct, "I", 18) && IsSpace(Peek(text, 18)) && Peek(text, 19) == '{'
    ensures Valid(State(20, 2, [0, 1], [0, 0], NestedOpened))
    ensures Run(text, Start()) == Run(text, State(20, 2, [0, 1], [0, 0], NestedOpened))
  {
    OpenStructD(text);
    NestedOpenI(text);
  }

  lemma NestedRun()
    ensures Run(NestedText, Start()) == NestedTree
  {
    var text := NestedText;
    NestedLetters();
    NestedWords(text);
    NestedToI(text);
    NestedCloseI(text);
    NestedCloseD(text);
  }

  lemma NestedLines()
    ensures "" + Line(NestedTree.children[0]) + "\n" == "struct D\n"
    ensures "  " + Line(NestedTree.children[0].children[0]) + "\n" == "  struct I\n"
  {
    assert Line(NestedTree.children[0]) == "struct D";
    assert Line(NestedTree.children[0].children[0]) == "struct I";
  }

  lemma NestedFieldLines()
    ensures "    " + Line(NestedTree.children[0].children[0].children[0]) + "\n" == "    bool ok\n"
    ensures "  " + Line(NestedTree.children[0].children[1]) + "\n" == "  bool u\n"
  {
    assert Line(NestedTree.children[0].children[0].children[0]) == "bool ok";
    assert Line(NestedTree.children[0].children[1]) == "bool u";
  }

  lemma NestedTreeRenders()
    ensures Render(NestedTree) == "struct D\n" + "  struct I\n" + "    bool ok\n" + "  bool u\n"
  {
    var d := NestedTree.children[0];
    var i := d.children[0];
    Indents();
    NestedLines();
    NestedFieldLines();
    LeafRenders(i.children[0], "    ");
    OnlyChildRenders(i, "    ");
    LeafRenders(d.children[1], "  ");
    TwoChildrenRender(d, "  ");
    OnlyChildRenders(NestedTree, "");
    Associative("struct D\n", "  struct I\n" + "    bool ok\n", "  bool u\n");
    Associative("struct D\n", "  struct I\n", "    bool ok\n");
  }

  /**
   * After a nested struct's `}`, later fields attach to the enclosing
   * struct: `I` holds only `ok`, and `u` belongs to `D`.
   */
  lemma NestedStructCloses()
    ensures Run(NestedText, Start()) == NestedTree
    ensures Render(Run(NestedText, Start())) == "struct D\n" + "  struct I\n" + "    bool ok\n" + "  bool u\n"
  {
    NestedRun();
    NestedTreeRenders();
  }

  const CloneText: string := "struct D {bool b;}std::vector<D> l;"

  /** `D` holding `b`. */
  const CloneFilled: Item :=
    Item([], Root, None, [Item("D", Struct, Some([]), [Item("b", Bool, Some([0]), [])])])

  /** `D`, then the array `l` before its element is resolved. */
  const CloneGrown: Item :=
    Item([], Root, None, [
      Item("D", Struct, Some([]), [Item("b", Bool, Some([0]), [])]),
      Item("l", Array, Some([]), [])])

  /** What `CloneText` builds: `l` holds a copy of `D` whose parents are the copy's own addresses. */
  const CloneTree: Item :=
    Item([], Root, None, [
      Item("D", Struct, Some([]), [Item("b", Bool, Some([0]), [])]),
      Item("l", Array, Some([]), [
        Item("D", Struct, Some([1]), [Item("b", Bool, Some([1, 0]), [])])])])

  /** The characters of `struct D {bool b;}std::vector<D> l;`. */
  predicate CloneSpelled(text: string)
  {
    && |text| == 35
    && StartsWith(text, 0, "struct") && text[6] == ' ' && text[7] == 'D' && text[8] == ' ' && text[9] == '{'
    && StartsWith(text, 10, "bool") && text[14] == ' ' && text[15] == 'b' && text[16] == ';' && text[17] == '}'
    && StartsWith(text, 18, "std::vector") && text[29] == '<' && text[30] == 'D' && text[31] == '>'
    && text[32] == ' ' && text[33] == 'l' && text[34] == ';'
  }

  lemma CloneLetters()
    ensures CloneSpelled(CloneText)
  {
    assert |CloneText| == 35;
    CloneLettersD();
    CloneLettersB();
    CloneLettersL();
  }

  lemma CloneLettersD()
    ensures StartsWith(CloneText, 0, "struct") && CloneText[6] == ' ' && CloneText[7] == 'D' && CloneText[8] == ' ' && CloneText[9] == '{'
  {
  }

  lemma CloneLettersB()
    ensures StartsWith(CloneText, 10, "bool") && CloneText[14] == ' ' && CloneText[15] == 'b' && CloneText[16] == ';' && CloneText[17] == '}'
  {
  }

  lemma CloneLettersL()
    ensures StartsWith(CloneText, 18, "std::vector") && CloneText[29] == '<' && CloneText[30] == 'D' && CloneText[31] == '>'
    ensures CloneText[32] == ' ' && CloneText[33] == 'l' && CloneText[34] == ';'
  {
  }

  lemma CloneWords(text: string)
    requires CloneSpelled(text)
    ensures Declares(text, 0, Struct, "D", 8) && IsSpace(Peek(text, 8)) && Peek(text, 9) == '{'
    ensures Declares(text, 10, Bool, "b", 16) && Peek(text, 16) == ';' && Peek(text, 17) == '}'
  {
    DeclaresAt(text, 0, Struct, "D");
    DeclaresAt(text, 10, Bool, "b");
  }

  lemma CloneVectorWords(text: string)
    requires CloneSpelled(text)
    ensures StartsWith(text, 18, "std::vector") && Peek(text, 29) == '<'
    ensures NameAt(text, 29) == ("D", 31) && NameAt(text, 31) == ("l", 34)
    ensures Peek(text, 34) == ';' && Peek(text, 35) == '\0'
  {
    NameRead(text, 29, 30, "D");
    NameRead(text, 31, 33, "l");
  }

  /** `bool b;}`: `b` is attached to `D`, and `}` brings `current` back to the root. */
  lemma CloneFillD(text: string)
    requires Declares(text, 10, Bool, "b", 16) && Peek(text, 16) == ';' && Peek(text, 17) == '}'
    requires Valid(State(10, 1, [0], [0], StructD))
    ensures Valid(State(18, 0, [], [], CloneFilled))
    ensures Run(text, State(10, 1, [0], [0], StructD)) == Run(text, State(18, 0, [], [], CloneFilled))
  {
    CloneFieldB(text);
    RunEndClose(text, State(16, 1, [0], [0], CloneFilled), [], []);
  }

  lemma CloneFieldB(text: string)
    requires Declares(text, 10, Bool, "b", 16)
    requires Valid(State(10, 1, [0], [0], StructD))
    ensures Valid(State(16, 1, [0], [0], CloneFilled))
    ensures Run(text, State(10, 1, [0], [0], StructD)) == Run(text, State(16, 1, [0], [0], CloneFilled))
  {
    RunField(text, State(10, 1, [0], [0], StructD), Bool, "b", 16);
    BAttached();
  }

  lemma BAttached()
    ensures AddChild(StructD, [0], "b", Bool) == CloneFilled
  {
    var leaf := Item("b", Bool, Some([0]), []);
    var d := StructD.children[0];
    assert [0][1..] == [];
    assert AttachAt(d, [], leaf) == d.(children := [leaf]);
  }

  /** `D` is the first node of the grown tree named `D`. */
  lemma CloneFound()
    ensures Find(CloneGrown, "D") == Some([0])
  {
    assert CloneGrown.children[0].name == "D";
  }

  /** The copy of `D` made for the element of `l`, whose parents are the copy's own addresses. */
  lemma CloneCopy()
    ensures Clone(CloneGrown.children[0], [1], 0) == Item("D", Struct, Some([1]), [Item("b", Bool, Some([1, 0]), [])])
  {
    var d := CloneGrown.children[0];
    assert [1] + [0] == [1, 0];
    assert CloneFrom(d, [1, 0], 1) == [];
    assert Clone(d.children[0], [1, 0], 0) == Item("b", Bool, Some([1, 0]), []);
  }

  /** The element of `l`: `D` is found at address `[0]` and copied below `l`, at `[1, 0]`. */
  lemma CloneElement()
    ensures WellFormed(CloneGrown) ==> ArrayElement(CloneGrown, [1], "D") == CloneTree
  {
    assert "D" !in SimpleTypes;
    CloneFound();
    CloneAddresses();
    CloneCopy();
    CloneAttached();
  }

  lemma CloneAddresses()
    ensures At(CloneGrown, [0]) == CloneGrown.children[0] && At(CloneGrown, [1]).children == []
  {
    assert [0][1..] == [] && [1][1..] == [];
  }

  lemma CloneAttached()
    ensures AttachAt(CloneGrown, [1], Item("D", Struct, Some([1]), [Item("b", Bool, Some([1, 0]), [])])) == CloneTree
  {
    var copy := Item("D", Struct, Some([1]), [Item("b", Bool, Some([1, 0]), [])]);
    assert [1][1..] == [];
    var l := CloneGrown.children[1];
    assert AttachAt(l, [], copy) == l.(children := [copy]);
  }

  /** The array `l` is appended to the root, after `D`. */
  lemma LAttached()
    ensures NextSlot(CloneFilled, []) == [1] && AddChild(CloneFilled, [], "l", Array) == CloneGrown
  {
    var d := CloneFilled.children[0];
    assert CloneFilled.children + [Item("l", Array, Some([]), [])] == [d, Item("l", Array, Some([]), [])];
  }

  /** `std::vector<D> l`: `l` is appended and its element resolved. */
  lemma CloneDeclared(text: string)
    requires StartsWith(text, 18, "std::vector") && Peek(text, 29) == '<'
    requires NameAt(text, 29) == ("D", 31) && NameAt(text, 31) == ("l", 34)
    requires Valid(State(18, 0, [], [], CloneFilled))
    ensures Valid(State(34, 0, [], [], CloneTree))
    ensures Run(text, State(18, 0, [], [], CloneFilled)) == Run(text, State(34, 0, [], [], CloneTree))
  {
    RunArray(text, State(18, 0, [], [], CloneFilled), "D", 31, "l", 34);
    LAttached();
    CloneElement();
  }

  /** `std::vector<D> l;`, then the end of the buffer. */
  lemma CloneArray(text: string)
    requires StartsWith(text, 18, "std::vector") && Peek(text, 29) == '<'
    requires NameAt(text, 29) == ("D", 31) && NameAt(text, 31) == ("l", 34)
    requires Peek(text, 34) == ';' && Peek(text, 35) == '\0'
    requires Valid(State(18, 0, [], [], CloneFilled))
    ensures Run(text, State(18, 0, [], [], CloneFilled)) == CloneTree
  {
    CloneDeclared(text);
    RunOther(text, State(34, 0, [], [], CloneTree));
  }

  lemma CloneRun()
    ensures Run(CloneText, Start()) == CloneTree
  {
    var text := CloneText;
    CloneLetters();
    CloneWords(text);
    CloneVectorWords(text);
    OpenStructD(text);
    CloneFillD(text);
    CloneArray(text);
  }

  lemma CloneLines()
    ensures "" + Line(CloneTree.children[0]) + "\n" == "struct D\n"
    ensures "  " + Line(CloneTree.children[0].children[0]) + "\n" == "  bool b\n"
    ensures "" + Line(CloneTree.children[1]) + "\n" == "array l\n"
  {
    assert Line(CloneTree.children[0]) == "struct D";
    assert Line(CloneTree.children[0].children[0]) == "bool b";
    assert Line(CloneTree.children[1]) == "array l";
  }

  lemma CopyLines()
    ensures "  " + Line(CloneTree.children[1].children[0]) + "\n" == "  struct D\n"
    ensures "    " + Line(CloneTree.children[1].children[0].children[0]) + "\n" == "    bool b\n"
  {
    assert Line(CloneTree.children[1].children[0]) == "struct D";
    assert Line(CloneTree.children[1].children[0].children[0]) == "bool b";
  }

  lemma CloneDRenders()
    ensures RenderItem(CloneTree.children[0], "") == "struct D\n" + "  bool b\n"
  {
    var d := CloneTree.children[0];
    Indents();
    CloneLines();
    LeafRenders(d.children[0], "  ");
    OnlyChildRenders(d, "  ");
  }

  lemma CloneLRenders()
    ensures RenderItem(CloneTree.children[1], "") == "array l\n" + ("  struct D\n" + "    bool b\n")
  {
    var l := CloneTree.children[1];
    var copy := l.children[0];
    Indents();
    CloneLines();
    CopyLines();
    LeafRenders(copy.children[0], "    ");
    OnlyChildRenders(copy, "    ");
    OnlyChildRenders(l, "  ");
  }

  lemma CloneTreeRenders()
    ensures Render(CloneTree) == "struct D\n" + "  bool b\n" + "array l\n" + "  struct D\n" + "    bool b\n"
  {
    TwoChildrenRender(CloneTree, "");
    CloneDRenders();
    CloneLRenders();
    var x := "struct D\n" + "  bool b\n";
    Associative(x, "array l\n", "  struct D\n" + "    bool b\n");
    Associative(x + "array l\n", "  struct D\n", "    bool b\n");
  }

  /**
   * An array whose element type is a struct declared earlier holds a deep
   * copy of that struct, which renders like the original one level deeper.
   */
  lemma ArrayOfStructCopies()
    ensures Run(CloneText, Start()) == CloneTree
    ensures Render(Run(CloneText, Start())) ==
      "struct D\n" + "  bool b\n" + "array l\n" + "  struct D\n" + "    bool b\n"
  {
    CloneRun();
    CloneTreeRenders();
  }

  const PragmaText: string := "#pragma once"

  /** The characters of `#pragma once`. */
  predicate PragmaSpelled(text: string)
  {
    && |text| == 12
    && text[0] == '#' && text[1] == 'p' && text[2] == 'r' && text[3] == 'a' && text[4] == 'g' && text[5] == 'm'
    && text[6] == 'a' && text[7] == ' ' && text[8] == 'o' && text[9] == 'n' && text[10] == 'c' && text[11] == 'e'
  }

  lemma PragmaLetters()
    ensures PragmaSpelled(PragmaText)
  {
  }

  /** A character that is no brace and begins no keyword is filler. */
  lemma NotInitial(text: string, i: nat)
    requires var c := Peek(text, i);
      c != '{' && c != '}' && c != 'b' && c != 'd' && c != 'i' && c != 'n' && c != 's' && c != 'u'
    ensures Filler(text, i)
  {
    forall k | k != Root ensures !StartsWith(text, i, Spelling(k)) {
      if StartsWith(text, i, Spelling(k)) {
        KeywordInitial(text, i, k);
      }
    }
  }

  /** The `n` of `once` begins no keyword: only `namespace` starts with `n`, and `c` is not its `a`. */
  lemma OnceFiller(text: string)
    requires 10 < |text| && text[9] == 'n' && text[10] == 'c'
    ensures Filler(text, 9)
  {
    forall k | k != Root ensures !StartsWith(text, 9, Spelling(k)) {
      SpellingInitial(k);
      if k == Namespace {
        assert Peek(text, 9 + 1) != Spelling(k)[1];
      } else {
        assert Peek(text, 9 + 0) != Spelling(k)[0];
      }
    }
  }

  lemma PragmaFiller(text: string)
    requires PragmaSpelled(text)
    ensures forall i :: 0 <= i < |text| ==> Filler(text, i)
  {
    forall i | 0 <= i < |text| ensures Filler(text, i) {
      if i == 9 {
        OnceFiller(text);
      } else {
        NotInitial(text, i);
      }
    }
  }

  /** `#pragma once` declares nothing, though its `n` starts a partial `namespace` match: the root stays childless. */
  lemma PragmaDeclaresNothing()
    ensures Run(PragmaText, Start()) == NewRoot()
  {
    PragmaLetters();
    PragmaFiller(PragmaText);
    FillerLeavesTree(PragmaText, Start());
  }

  /** A keyword with its first letter doubled: `bool x;` is spelled one character in. */
  const StutterText: string := "bbool x;"

  /** The characters of `bbool x;`. */
  predicate StutterSpelled(text: string)
  {
    && |text| == 8
    && text[0] == 'b' && text[1] == 'b' && text[2] == 'o' && text[3] == 'o'
    && text[4] == 'l' && text[5] == ' ' && text[6] == 'x' && text[7] == ';'
  }

  lemma StutterLetters()
    ensures StutterSpelled(StutterText)
  {
  }

  /**
   * The first `b` starts a `bool` match that fails on the second `b`, and
   * the failed chain consumes that `b` too: the scan resumes at `ool`.
   */
  lemma StutterFirstStep(text: string)
    requires StutterSpelled(text)
    ensures Step(text, Start()) == Start().(cursor := 2)
  {
    assert Expect(text, 1, "ool") == (false, 2);
    assert MatchKeyword(text, Peek(text, 0), 1) == (None, 2);
    StepOnNothing(text, Start());
  }

  /**
   * `bbool x;` declares nothing, though `bool x;` is spelled from its
   * second character: the mismatched character of a failed keyword match
   * is consumed with it, so the keyword it begins is never tried.
   */
  lemma StutterDeclaresNothing()
    ensures StartsWith(StutterText, 1, "bool") && IsSpace(StutterText[5])
    ensures Run(StutterText, Start()) == NewRoot()
  {
    StutterLetters();
    var text := StutterText;
    StutterFirstStep(text);
    StutterFiller(text);
    FillerLeavesTree(text, Start().(cursor := 2));
  }

  /** After the swallowed `b`, `ool x;` begins no keyword. */
  lemma StutterFiller(text: string)
    requires StutterSpelled(text)
    ensures forall i :: 2 <= i < |text| ==> Filler(text, i)
  {
    forall i | 2 <= i < |text| ensures Filler(text, i) {
      NotInitial(text, i);
    }
  }
}
