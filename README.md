# rapidjson-generator schema parser, modelled in Dafny

The model covers the part of rapidjson-generator that reads a C++ header and builds a schema tree:

- **The tree.** A node has a name, one of fifteen kinds, a parent back-reference and an ordered list of owned children. Nodes are created with `addChild`, copied with `clone` and searched with `find` (`item.h`, `item.cpp`).
- **The scanner.** `Parser::parse` is a single pass over a NUL-terminated buffer (`parser.cpp`).
  - It matches a fixed keyword vocabulary character by character.
  - It counts braces and keeps a stack of the levels at which a `namespace` or `struct` was opened.
  - It appends fields to the `current` node.
  - It resolves the element of `std::vector<T>`, first through the simple-type table and otherwise through `find` and `clone`.
- **The renderer.** The test uses a recursive `toString` as its oracle: one line per node in pre-order, indented two spaces per level (`tests/test_parser.cpp`).

Files:

- `wrappers.dfy`: the `Option` type.
- `item.dfy` (module `Items`): the tree.
  - The tree is a value. A node is addressed by its path of child indices from the root.
  - `parent` holds the parent's address. "The parent of a node is the node that holds it" is the predicate `WellFormed`, which is proved to be preserved.
  - `AddChild` and `AttachAt` return the tree with one child appended to the node at an address; every other node is unchanged. `Clone` is the deep copy.
  - `Find` is the search. It is proved equal to "the first pre-order proper descendant with the name".
  - `NewRoot()` is `Item()`.
- `scanner.dfy` (module `Scanner`): the character-level parts of the parser.
  - `skipSpaces`, `moveToEndOfName` and `getName` exist both as functions and as the loops the source runs.
  - `Expect` models the `*text && *text++ == c` chains.
  - `MatchKeyword` models the keyword `switch`. It is proved to recognise exactly the keyword vocabulary.
  - The file also holds the `SimpleTypes` table.
- `parser.dfy` (module `Parsing`): the scan state and its rules.
  - The state is cursor, `level`, stack, address of `current`, and tree. The invariant `Valid` states that the stack has one entry per level of `current` below the root.
  - `Step` is one loop iteration and `Run` the whole loop.
  - `Parse` is the imperative loop. Its body is the method `Scan`, with `ScanKeyword`, `ReadArray` and `ReadDeclaration`. `Parse` is proved to compute `Run` from the initial state.
  - Each method has a function partner: `Scan` with `Step`, `ScanKeyword` with `Dispatch`, `ReadDeclaration` with `Declare` and `ReadArray` with `DeclareArray`. The method is the source's code as statements; the function is the specification it is proved equal to, and the lemmas are stated about the function.
- `render.dfy` (module `Rendering`): the test's `toString`. It is proved to print the pre-order enumeration of the tree. Trees of the same shape render alike, so a clone renders as its original.
- `scenarios.dfy` (module `Scenarios`): small inputs in the shape of the test's input, parsed and rendered end to end. They cover:
  - `#pragma once`, which declares nothing;
  - an array of `double`;
  - a nested struct whose `}` sends later fields back to the enclosing struct;
  - an array whose element type is an earlier struct, which is copied in;
  - `bbool x;`, where a failed keyword match swallows the first letter of the keyword after it.

## Model

| member | source | states |
|---|---|---|
| Items.Ordinal | item.h:10-27 | every kind has a position in the enumeration, and the list of kinds holds it there |
| Items.KindsAreFifteen | item.h:10-27 | there are exactly fifteen kinds; the list names each of them once |
| Items.KindLabel | item.cpp:3-37 | each kind's label; its contract is stated by `KindLabelsDistinct` |
| Items.KindLabelsDistinct | item.cpp:3-37 | each kind's label is non-empty and has no space or line break; equal labels mean equal kinds, so the table tells kinds apart |
| Items.AttachAt | item.cpp:68 | pushing a built child onto the node at an address appends it after that node's children and leaves that node's name, kind and parent, and the root's, unchanged; the addresses of the new tree are exactly the old ones plus those of the child at its new slot |
| Items.AddChild | item.cpp:64-70 | exactly one childless node with the given name and kind and the holder's address as parent is appended at the end of the holder's children; earlier children are unchanged, every old node keeps its name, kind, parent and children, and the only new address is the new child's |
| Items.AttachHolder | item.cpp:68 | pushing onto the node at `q + [i]` changes, among the children of the node at `q`, only child `i` |
| Items.NewRoot | item.cpp:41-45 | `Item()` is a well-formed unnamed Root with no parent and no node below it |
| Items.AttachExtends | item.cpp:64-70 | appending a child keeps every existing node, with its name, kind, parent and children in order; the new child's address was not in use before |
| Items.ExtendsKeepsAddresses | item.h:42 | because children are only appended, an address that names a node keeps naming that node (grown) in every later tree |
| Items.ParentMatchesHolder | item.h:41 | in a well-formed tree the parent of the node at an address is the address without its last index, and the root has none |
| Items.AddChildKeepsWellFormed | item.cpp:66 | `addChild` keeps "parent matches holder" throughout the tree, because the new node names its holder |
| Items.AttachKeepsWellFormed | parser.cpp:177-178 | pushing a copied subtree whose top names its new holder, and whose nodes name their copied holders, keeps the tree well formed |
| Items.Clone | item.cpp:54-62 | the copy has the original's shape (names, kinds, number and order of children, recursively); its top names the given parent and every copied child names its copied holder |
| Items.CloneFrom | item.cpp:57-60 | the loop over the children makes one copy per child, in order; each copy has its original's shape and names the new holder as parent |
| Items.Find | item.cpp:72-85 | a result is the address of a proper descendant (never the node itself) that carries the name |
| Items.FindFrom | item.cpp:74-84 | the loop from child `i` on only ever returns the address of a proper descendant carrying the name |
| Items.FindIsFirstInPreorder | item.cpp:72-85 | `find` returns exactly the first node named so among the proper descendants in pre-order: each child before its descendants, an earlier child's whole subtree before later siblings |
| Items.FindFromIsFirst | item.cpp:74-84 | the loop from child `i` returns the first match in the pre-order of children `i` on |
| Items.FindNoneIff | item.cpp:72-85 | `find` returns null exactly when no proper descendant carries the name |
| Scanner.Span | parser.cpp:266 | the string from `begin` to the cursor has that length and those characters |
| Scanner.SpacesEnd | parser.cpp:251-254 | `skipSpaces` always steps over the character under the cursor, then only over whitespace; it stops on a non-space unless that character was the NUL |
| Scanner.NameEnd | parser.cpp:256-259 | `moveToEndOfName` always takes the first character, takes no NUL before its last, passes no whitespace, `;` or `>`, and stops on one of those (or right after a NUL) |
| Scanner.NameAt | parser.cpp:261-267 | `getName` returns a non-empty name: the span just before the cursor, preceded only by whitespace, all of which is skipped, so the name starts with a non-space unless the starting character was the NUL; none of its later characters ends a name, and the cursor rests on the terminator |
| Scanner.SkipSpaces | parser.cpp:251-254 | the loop leaves the cursor where `SpacesEnd` says |
| Scanner.MoveToEndOfName | parser.cpp:256-259 | the loop leaves the cursor where `NameEnd` says |
| Scanner.GetName | parser.cpp:261-267 | the method returns the name and cursor `NameAt` describes |
| Scanner.Expect | parser.cpp:52-55 | a chain of character tests never moves the cursor back; what it computes is stated by `ExpectMeans` |
| Scanner.Trailed | parser.cpp:55-58 | the whitespace test after a completed chain does not consume the whitespace and reports only its own kind |
| Scanner.ExpectMeans | parser.cpp:52-55 | a chain of `*text && *text++ == c` succeeds exactly when the buffer spells the word, leaving the cursor after it; otherwise it stops at the first mismatch and consumes the mismatched character unless it is the NUL |
| Scanner.SimpleTypesArePrimitiveSpellings | parser.cpp:10-23 | the simple-type table holds exactly the primitive keywords (bool, double, the eight integer types and std::string), each mapped to its own kind |
| Scanner.SingleKeyword | parser.cpp:51-130 | for `b`, `d` and `n`, the kind is recognised exactly when the rest of the keyword is spelled and whitespace follows, and the cursor stops on that whitespace |
| Scanner.IntWidth | parser.cpp:76-113 | the width `switch` never moves the cursor back; what it recognises is stated by `IntWidthRecognised` |
| Scanner.IntMatch | parser.cpp:71-115 | the integer cases never move the cursor back; what they recognise is stated by `IntMatchSound` and `IntMatchComplete` |
| Scanner.IntWidthRecognised | parser.cpp:76-113 | the width `switch` recognises a kind exactly when the digit is 8, 1, 3 or 6, the rest of the width is spelled and whitespace follows |
| Scanner.IntMatchSound | parser.cpp:71-115 | when the integer cases recognise a kind, its keyword is spelled from the `i` (or the `u`) and whitespace follows it |
| Scanner.IntMatchComplete | parser.cpp:199-244 | an integer keyword that is spelled and followed by whitespace is recognised |
| Scanner.StdMatch | parser.cpp:131-198 | the `s` case never moves the cursor back; what it recognises is stated by `StdMatchKinds`, `StructMatch`, `StringMatch` and `VectorMatch` |
| Scanner.StdName | parser.cpp:142-182 | the branches after `std::` never move the cursor back; what they recognise is stated by `StringMatch` and `VectorMatch` |
| Scanner.StdMatchKinds | parser.cpp:131-198 | the `s` case recognises nothing but struct, std::string and std::vector |
| Scanner.StructMatch | parser.cpp:186-195 | `struct` is recognised exactly when spelled and followed by whitespace, with the cursor on the whitespace |
| Scanner.StringMatch | parser.cpp:144-154 | `std::string` is recognised exactly when spelled and followed by whitespace |
| Scanner.VectorMatch | parser.cpp:155-161 | `std::vector` is recognised exactly when spelled and followed by `<`, with the cursor on the `<` |
| Scanner.MatchKeyword | parser.cpp:51-244 | the keyword cases never move the cursor back and never report Root; what they recognise is stated by `KeywordRecognised` |
| Scanner.KeywordRecognised | parser.cpp:51-244 | after a consumed character `c`, the keyword cases report kind `k` exactly when `c` and the following characters spell `k`'s keyword and its trailer (whitespace, or `<` for std::vector) follows; the cursor then rests on the trailer |
| Parsing.ParentOf | parser.cpp:48 | `current->parent_` is the address of `current` without its last index, and is a node of the tree |
| Parsing.CloseBrace | parser.cpp:43-50 | the `}` rule; its contract is stated by `CloseBraceRule` |
| Parsing.Declare | parser.cpp:116-130 | a declaration other than an array; its contract is stated by `DeclareKeepsValid`, `PrimitiveDeclared` and `ScopeOpened` |
| Parsing.DeclareArray | parser.cpp:155-182 | the array declaration; its contract is stated by `DeclareArrayKeepsValid` and `ArrayDeclared` |
| Parsing.ArrayElement | parser.cpp:167-180 | resolving an element keeps the tree well formed and only grows it |
| Parsing.Dispatch | parser.cpp:51-244 | a keyword case, recognised or not, keeps the scan invariant, advances the cursor and only grows the tree |
| Parsing.Step | parser.cpp:33-245 | each iteration consumes at least one character, only grows the tree and keeps the invariant: a well-formed tree under an unnamed Root, `current` a node of it, one stack entry per level of `current` below the root |
| Parsing.Run | parser.cpp:33-248 | the loop ends and returns a well-formed Root with an empty name, which extends the tree it started from |
| Parsing.DeclareKeepsValid | parser.cpp:127-128 | declaring a field or opening a scope keeps the scan invariant and moves the cursor past the name |
| Parsing.DeclareArrayKeepsValid | parser.cpp:163-180 | declaring an array keeps the scan invariant |
| Parsing.SpaceSkipped | parser.cpp:35-36 | whitespace moves only the cursor |
| Parsing.OpenBraceCounts | parser.cpp:40-42 | `{` increments `level` and changes nothing else |
| Parsing.CloseBraceRule | parser.cpp:43-50 | `}` decrements `level`; exactly when the new level is the top of the stack, it pops the top and moves `current` to its parent, the node that holds it; otherwise stack and `current` stay |
| Parsing.OtherCharacterSkipped | parser.cpp:38-245 | a character that is no whitespace, no brace and no keyword initial is skipped alone |
| Parsing.KeywordStep | parser.cpp:51-244 | a keyword spelled at the cursor and followed by its trailer is declared: std::vector as an array, any other as a node of its kind |
| Parsing.PrimitiveDeclared | parser.cpp:51-115 | a primitive keyword followed by whitespace appends exactly one leaf of its kind, named by `getName`, at the end of `current`'s children; `current`, `level` and the stack are unchanged |
| Parsing.ScopeOpened | parser.cpp:116-130 | `namespace` or `struct` followed by whitespace appends a childless node of that kind at the end of `current`'s children, makes it `current` and pushes the level |
| Parsing.AppendedLast | item.cpp:68 | the appended node is the holder's last child, after the old children |
| Parsing.ArrayDeclared | parser.cpp:155-182 | `std::vector<T> n` appends an Array named `n` as the last child of `current`, whose earlier children stay as they were; the new tree is the grown tree with the element resolved under the array and nothing else changed. The array's single child is an unnamed leaf of T's kind when T is in the table; otherwise it is a copy, re-parented to the array, of the node `find` returns for T from the root (the array already appended). When `find` returns nothing, the array has no children |
| Parsing.ArrayElementHolder | parser.cpp:177-178 | resolving an array's element changes, among the children of the array's holder, only the array |
| Parsing.ArrayElementAt | parser.cpp:167-180 | what the element resolution puts under a childless array: the table's leaf, a re-parented copy of the found node with its shape, or nothing |
| Parsing.Unrecognised | parser.cpp:52-55 | where no keyword is spelled with its trailer, a non-space, non-brace character only moves the cursor forward; the tree, `current`, `level` and stack stay |
| Parsing.FillerLeavesTree | parser.cpp:33-38 | a buffer holding no brace and no keyword with its trailer leaves the tree unchanged |
| Parsing.Parse | parser.cpp:25-249 | the loop over local state returns exactly `Run` from the initial state: a well-formed Root with an empty name and no parent |
| Parsing.Scan | parser.cpp:33-245 | the loop body is one `Step` |
| Parsing.ScanKeyword | parser.cpp:51-244 | the keyword cases of the body match the keyword and, when recognised, declare it, as `Dispatch` says |
| Parsing.ReadArray | parser.cpp:155-182 | the std::vector case reads the type name, then the field name, appends the array and resolves its element as `DeclareArray` says |
| Parsing.ReadDeclaration | parser.cpp:186-195 | the other keyword cases read the name and append the node; a scope becomes `current` and its level is pushed, as `Declare` says |
| Rendering.Line | tests/test_parser.cpp:89-92 | a node's line begins with its kind label, and is the bare label exactly when the node has no name |
| Rendering.RenderItem | tests/test_parser.cpp:87-95 | the recursive `toString`; its contract is stated by `LeafRenders`, `RenderChildrenLines` and `SameShapeRendersAlike` |
| Rendering.RenderChildren | tests/test_parser.cpp:93-94 | the loop over the children; its contract is stated by `RenderChildrenLines`, `OnlyChildRenders` and `TwoChildrenRender` |
| Rendering.Render | tests/test_parser.cpp:97-103 | `toString(root)`; its contract is stated by `RenderIsPreorder` |
| Rendering.IndentIsSpaces | tests/test_parser.cpp:94 | the indent of a node is two spaces per level and nothing else |
| Rendering.LeafRenders | tests/test_parser.cpp:87-92 | a childless node renders as its indent, its kind label, a space and its name only when the name is non-empty, and a line break |
| Rendering.OnlyChildRenders | tests/test_parser.cpp:93-94 | the children of a node with one child render as that child |
| Rendering.TwoChildrenRender | tests/test_parser.cpp:93-94 | two children render in order, one after the other |
| Rendering.RenderIsPreorder | tests/test_parser.cpp:97-103 | the root prints no line; the output is one line per proper descendant, in pre-order, each indented two spaces per level below the root's children |
| Rendering.RenderChildrenLines | tests/test_parser.cpp:93-94 | children from `i` on render as the lines of their subtrees in pre-order, one indent step deeper |
| Rendering.SameShapeRendersAlike | tests/test_parser.cpp:87-95 | trees of the same shape render alike whatever their parents, so a clone renders as its original |
| Scenarios.PragmaDeclaresNothing | tests/test_parser.cpp:8 | `#pragma once` leaves the fresh root unchanged |
| Scenarios.StutterDeclaresNothing | parser.cpp:52-55 | `bbool x;` declares nothing though `bool x;` is spelled from its second character: the failed match consumes the second `b` |
| Scenarios.VectorRun | tests/test_parser.cpp:16 | `std::vector<double> a;` builds an array `a` holding one unnamed `double` |
| Scenarios.VectorTreeRenders | tests/test_parser.cpp:52-53 | that tree renders as `array a` then `  double` |
| Scenarios.VectorOfDoubleRenders | tests/test_parser.cpp:52-53 | parsing then rendering `std::vector<double> a;` gives `array a` then `  double` |
| Scenarios.NestedRun | tests/test_parser.cpp:29-37 | after the inner struct's `}`, the later field is attached to the enclosing struct: `I` holds only `ok` and `u` belongs to `D` |
| Scenarios.NestedTreeRenders | tests/test_parser.cpp:61-66 | the nested tree renders with the inner struct's field one level deeper than the later field |
| Scenarios.NestedStructCloses | tests/test_parser.cpp:61-66 | parsing then rendering the nested input gives `struct D`, `  struct I`, `    bool ok`, `  bool u` |
| Scenarios.CloneRun | tests/test_parser.cpp:42 | `std::vector<D> l;` after `struct D` yields an array whose only child is a copy of `D`, with its field, re-parented below the array |
| Scenarios.CloneTreeRenders | tests/test_parser.cpp:67-84 | the copy renders under the array as `struct D` with its field, one level deeper than the original |
| Scenarios.ArrayOfStructCopies | tests/test_parser.cpp:67-84 | parsing then rendering the input gives the struct, then the array holding a full copy of it |

## Left out

- Memory: `unique_ptr` ownership, allocation and pointer lifetimes are not modelled. The tree is a value, so a clone cannot share nodes with its original, and `find` cannot change the tree. Aliasing and in-place update are therefore not modelled.
- `addChild` returns a non-owning handle. In the model that handle is the address `NextSlot` of the new node.
- Clone: the extra index parameter is model bookkeeping. It is the position the copy will take among its new holder's children, so that "every copied child names its copied holder" can be stated with addresses.
- `}` on an empty stack: the source reads the top of an empty `std::stack`, which is undefined behaviour. The model defines the outcome: `level` is decremented and no scope closes.
- Past the end of the buffer: a name that runs into the terminating NUL makes `skipSpaces` and `moveToEndOfName` step past it. The model reads every position past the end as NUL, so such a name ends with a NUL character and the scan then stops.
- Characters are modelled as Dafny characters, while the source's `char` is a byte. A name with non-ASCII letters is a run of UTF-8 bytes in the source and a run of code points here. The keyword vocabulary and the terminators are ASCII, so what is recognised is the same.
- `std::isspace` uses a fixed ASCII set (space, tab, line feed, vertical tab, form feed, carriage return), not a locale.
- `level` is an unbounded integer. `int` overflow would need more than two billion braces.
- `toString(Item::Type)`'s `"{invalid}"` fallback is not modelled. No kind reaches it.
- The gtest harness and `std::stringstream` are not modelled. The renderer is a function returning the string.
- `parser.h` is not part of this model. It only declares the three static functions.
- The full input of the test (about 1,200 characters) is not proved end to end. Each of its shapes is proved on a small input instead: filler text, an array of a simple type, a nested struct followed by later fields, an array of an earlier struct, and a failed keyword match.
- KindLabel: its contract is stated by the lemma `KindLabelsDistinct` rather than on the function.
- Indent: its contract is stated by the lemma `IndentIsSpaces`.
- Expect: its own contract only bounds the cursor. What it computes is stated by the lemma `ExpectMeans`.
- MatchKeyword: its own contract only says that the cursor does not move back and that Root is never reported. What it recognises is stated by the lemma `KeywordRecognised`.
- IntWidth: its own contract only bounds the cursor. What it recognises is stated by the lemma `IntWidthRecognised`.
- IntMatch: its own contract only bounds the cursor. What it recognises is stated by the lemmas `IntMatchSound` and `IntMatchComplete`.
- StdMatch: its own contract only bounds the cursor. What it recognises is stated by the lemmas `StdMatchKinds`, `StructMatch`, `StringMatch` and `VectorMatch`.
- StdName: its own contract only bounds the cursor. What it recognises is stated by the lemmas `StringMatch` and `VectorMatch`.
- Line: its own contract states the label prefix and when the name is present. The exact line is stated by the lemma `LeafRenders`.
- RenderItem: has no contract of its own. It is specified by the lemmas `LeafRenders`, `RenderChildrenLines` and `SameShapeRendersAlike`.
- RenderChildren: has no contract of its own. It is specified by the lemmas `RenderChildrenLines`, `OnlyChildRenders` and `TwoChildrenRender`.
- Render: has no contract of its own. It is specified by the lemma `RenderIsPreorder`.
- CloseBrace: has no contract of its own. It is specified by the lemma `CloseBraceRule`.
- Declare: has no contract of its own. It is specified by the lemmas `DeclareKeepsValid`, `PrimitiveDeclared` and `ScopeOpened`.
- DeclareArray: has no contract of its own. It is specified by the lemmas `DeclareArrayKeepsValid` and `ArrayDeclared`.
- FirstNamed: this reference definition of "first match in pre-order" has its contract in the lemma `FirstNamedMeans`.
