/**
 * The character-level part of the parser: the whitespace class, the cursor
 * helpers `skipSpaces`, `moveToEndOfName` and `getName`, the table of simple
 * element types, and the character-by-character keyword matching.
 *
 * The input is a character buffer read through a cursor. The source reads a
 * NUL-terminated C string; here the buffer is a `string` and every position
 * at or beyond its end reads as NUL, which gives a defined outcome to the
 * helpers stepping past the terminator.
 */
module Scanner {
  import opened Wrappers
  import opened Items

  /** The character under the cursor. */
  function Peek(text: string, i: nat): char
  {
    if i < |text| then text[i] else '\0'
  }

  /** `std::isspace` in the "C" locale. */
  predicate IsSpace(c: char)
  {
    c == ' ' || c == '\t' || c == '\n' || c == '\U{000B}' || c == '\U{000C}' || c == '\r'
  }

  /** The characters that end a name. */
  predicate EndsName(c: char)
  {
    IsSpace(c) || c == ';' || c == '>'
  }

  /** The characters of the buffer from `b` up to, not including, `e`. */
  function Span(text: string, b: nat, e: nat): (s: string)
    requires b <= e
    ensures |s| == e - b && forall k :: 0 <= k < |s| ==> s[k] == Peek(text, b + k)
  {
    seq(e - b, k requires 0 <= k < e - b => Peek(text, b + k))
  }

  /**
   * Where `skipSpaces` leaves the cursor: it always steps over the character
   * under the cursor, then over any whitespace; on NUL it stops right after it.
   */
  function SpacesEnd(text: string, i: nat): (j: nat)
    ensures i < j
    ensures forall k :: i < k < j ==> IsSpace(Peek(text, k))
    ensures Peek(text, i) == '\0' ==> j == i + 1
    ensures Peek(text, i) != '\0' ==> !IsSpace(Peek(text, j))
    decreases |text| - i
  {
    if Peek(text, i) == '\0' || !IsSpace(Peek(text, i + 1)) then i + 1
    else SpacesEnd(text, i + 1)
  }

  /**
   * Where `moveToEndOfName` leaves the cursor: the character under the
   * cursor is always taken; it then stops on the first whitespace, `;` or
   * `>`, or right after a NUL.
   */
  function NameEnd(text: string, i: nat): (j: nat)
    ensures i < j
    ensures forall k :: i <= k < j - 1 ==> Peek(text, k) != '\0'
    ensures forall k :: i < k < j ==> !EndsName(Peek(text, k))
    ensures Peek(text, j - 1) == '\0' || EndsName(Peek(text, j))
    decreases |text| - i
  {
    if Peek(text, i) == '\0' || EndsName(Peek(text, i + 1)) then i + 1
    else NameEnd(text, i + 1)
  }

  /**
   * What `getName` returns and where it leaves the cursor: a non-empty name
   * that is the text just before the cursor, preceded only by whitespace
   * after the starting character, all of which was skipped (so the name
   * begins with a non-space unless the starting character was the NUL);
   * no character after its first ends a name,
   * and the cursor rests on the character that ended it (unless the buffer
   * ran out first).
   */
  function NameAt(text: string, i: nat): (r: (string, nat))
    ensures var (name, next) := r;
      && |name| >= 1 && i < next && |name| <= next
      && name == Span(text, next - |name|, next)
      && (forall k :: i < k < next - |name| ==> IsSpace(Peek(text, k)))
      && (Peek(text, i) != '\0' ==> !IsSpace(name[0]))
      && (Peek(text, i) == '\0' ==> next - |name| == i + 1)
      && (forall k :: 1 <= k < |name| ==> !EndsName(name[k]))
      && (forall k :: 0 <= k < |name| - 1 ==> name[k] != '\0')
      && (EndsName(Peek(text, next)) || name[|name| - 1] == '\0')
  {
    var b := SpacesEnd(text, i);
    var e := NameEnd(text, b);
    (Span(text, b, e), e)
  }

  /** `skipSpaces`: step past the current character, then on while the next one is whitespace, unless the step passed the NUL. */
  method SkipSpaces(text: string, i: nat) returns (j: nat)
    ensures j == SpacesEnd(text, i)
  {
    var c := Peek(text, i);
    j := i + 1;
    while c != '\0' && IsSpace(Peek(text, j))
      invariant i < j && c == Peek(text, j - 1)
      invariant SpacesEnd(text, i) == SpacesEnd(text, j - 1)
      decreases |text| - j
    {
      c := Peek(text, j);
      j := j + 1;
    }
  }

  /** `moveToEndOfName`: advance while the next character does not end a name. */
  method MoveToEndOfName(text: string, i: nat) returns (j: nat)
    ensures j == NameEnd(text, i)
  {
    var c := Peek(text, i);
    j := i + 1;
    while c != '\0' && !EndsName(Peek(text, j))
      invariant i < j && c == Peek(text, j - 1)
      invariant NameEnd(text, i) == NameEnd(text, j - 1)
      decreases |text| - j
    {
      c := Peek(text, j);
      j := j + 1;
    }
  }

  /** `getName`: skip, remember the start, move to the end, return the span. */
  method GetName(text: string, i: nat) returns (name: string, j: nat)
    ensures (name, j) == NameAt(text, i)
  {
    var begin := SkipSpaces(text, i);
    j := MoveToEndOfName(text, begin);
    name := Span(text, begin, j);
  }

  /** The buffer spells `w` from position `i` on. */
  predicate StartsWith(text: string, i: nat, w: string)
  {
    forall k :: 0 <= k < |w| ==> Peek(text, i + k) == w[k]
  }

  /** How many leading characters of `w` the buffer holds from `i` on. */
  function CommonPrefix(text: string, i: nat, w: string): (m: nat)
    ensures m <= |w|
    ensures forall k :: 0 <= k < m ==> Peek(text, i + k) == w[k]
    ensures m < |w| ==> Peek(text, i + m) != w[m]
    decreases |w|
  {
    if w == [] || Peek(text, i) != w[0] then 0
    else 1 + CommonPrefix(text, i + 1, w[1..])
  }

  /**
   * A chain of character tests for the letters of `w`, each of which
   * fails on the NUL and otherwise consumes the character it compares:
   * whether it completed, and the cursor after the characters it consumed.
   */
  function Expect(text: string, i: nat, w: string): (r: (bool, nat))
    ensures i <= r.1
    decreases |w|
  {
    if w == [] then (true, i)
    else if Peek(text, i) == '\0' then (false, i)
    else if Peek(text, i) == w[0] then Expect(text, i + 1, w[1..])
    else (false, i + 1)
  }

  /**
   * For a keyword tail without NUL, the chain succeeds exactly when the
   * buffer spells `w` here, leaving the cursor after it; otherwise it stops
   * at the first mismatch, having consumed the mismatched character unless
   * it was the terminating NUL.
   */
  lemma {:induction false} ExpectMeans(text: string, i: nat, w: string)
    requires '\0' !in w
    ensures Expect(text, i, w).0 <==> StartsWith(text, i, w)
    ensures Expect(text, i, w).0 ==> Expect(text, i, w).1 == i + |w|
    ensures !Expect(text, i, w).0 ==> var m := CommonPrefix(text, i, w);
      Expect(text, i, w).1 == i + m + (if Peek(text, i + m) == '\0' then 0 else 1)
    decreases |w|
  {
    if w != [] {
      assert w[0] in w;
      StartsWithCons(text, i, w);
      if Peek(text, i) != '\0' && Peek(text, i) == w[0] {
        assert forall x :: x in w[1..] ==> x in w;
        ExpectMeans(text, i + 1, w[1..]);
      }
    }
  }

  /** `SimpleTypes`: the element types an array resolves without a lookup. */
  const SimpleTypes: map<string, Kind> := map[
    "bool" := Bool,
    "double" := Double,
    "int8_t" := Int8,
    "int16_t" := Int16,
    "int32_t" := Int32,
    "int64_t" := Int64,
    "uint8_t" := UInt8,
    "uint16_t" := UInt16,
    "uint32_t" := UInt32,
    "uint64_t" := UInt64,
    "std::string" := String
  ]

  /** The kinds of field that a primitive keyword declares: every kind but the root, scopes and arrays. */
  predicate IsPrimitive(k: Kind)
  {
    k != Root && k != Namespace && k != Struct && k != Array
  }

  /** The keyword the scanner recognises for each kind it can declare. */
  function Spelling(k: Kind): (w: string)
    requires k != Root
  {
    match k
    case Namespace => "namespace"
    case Struct => "struct"
    case Bool => "bool"
    case Double => "double"
    case Int8 => "int8_t"
    case Int16 => "int16_t"
    case Int32 => "int32_t"
    case Int64 => "int64_t"
    case UInt8 => "uint8_t"
    case UInt16 => "uint16_t"
    case UInt32 => "uint32_t"
    case UInt64 => "uint64_t"
    case String => "std::string"
    case Array => "std::vector"
  }

  /** The simple-type table holds exactly the primitive keywords, each for its own kind. */
  lemma SimpleTypesArePrimitiveSpellings(w: string)
    ensures w in SimpleTypes <==> exists k :: IsPrimitive(k) && Spelling(k) == w
    ensures w in SimpleTypes ==> IsPrimitive(SimpleTypes[w]) && Spelling(SimpleTypes[w]) == w
  {
    if w in SimpleTypes {
      assert IsPrimitive(SimpleTypes[w]) && Spelling(SimpleTypes[w]) == w;
    }
  }

  /** What must follow a keyword: whitespace, or `<` after `std::vector`. */
  predicate Trailer(k: Kind, c: char)
  {
    if k == Array then c == '<' else IsSpace(c)
  }

  /** A completed chain followed by whitespace recognises `k`; the whitespace is not consumed. */
  function Trailed(e: (bool, nat), text: string, k: Kind): (r: (Option<Kind>, nat))
    ensures r.1 == e.1 && (r.0 == None || r.0 == Some(k))
  {
    if e.0 && IsSpace(Peek(text, e.1)) then (Some(k), e.1) else (None, e.1)
  }

  /** The `switch` on the width digit of `int…_t` and `uint…_t`, after the digit was consumed. */
  function IntWidth(text: string, d: char, j: nat, unsigned: bool): (r: (Option<Kind>, nat))
    ensures j <= r.1
  {
    match d
    case '8' => Trailed(Expect(text, j, "_t"), text, if unsigned then UInt8 else Int8)
    case '1' => Trailed(Expect(text, j, "6_t"), text, if unsigned then UInt16 else Int16)
    case '3' => Trailed(Expect(text, j, "2_t"), text, if unsigned then UInt32 else Int32)
    case '6' => Trailed(Expect(text, j, "4_t"), text, if unsigned then UInt64 else Int64)
    case _ => (None, j)
  }

  /** The branches of `std::` after its `:` pair: `string` or `vector` followed by `<`. */
  function StdName(text: string, j: nat): (r: (Option<Kind>, nat))
    ensures j <= r.1
  {
    if Peek(text, j) == '\0' then (None, j)
    else match Peek(text, j)
      case 's' => Trailed(Expect(text, j + 1, "tring"), text, String)
      case 'v' =>
        var (ok, k) := Expect(text, j + 1, "ector");
        if ok && Peek(text, k) == '<' then (Some(Array), k) else (None, k)
      case _ => (None, j + 1)
  }

  /** The characters of an integer keyword after the consumed `i` or `u`, up to its width digit. */
  function IntHead(unsigned: bool): string
  {
    if unsigned then "int" else "nt"
  }

  /** The integer cases of the scanning `switch`, shared by `i` and `u`. */
  function IntMatch(text: string, i: nat, unsigned: bool): (r: (Option<Kind>, nat))
    ensures i <= r.1
  {
    var (ok, j) := Expect(text, i, IntHead(unsigned));
    if ok && Peek(text, j) != '\0' then IntWidth(text, Peek(text, j), j + 1, unsigned) else (None, j)
  }

  /** The `s` case of the scanning `switch`: `std::string`, `std::vector` or `struct`. */
  function StdMatch(text: string, i: nat): (r: (Option<Kind>, nat))
    ensures i <= r.1
  {
    var (ok, j) := Expect(text, i, "t");
    if !ok || Peek(text, j) == '\0' then (None, j)
    else if Peek(text, j) == 'd' then
      var (ok2, k) := Expect(text, j + 1, "::");
      if ok2 then StdName(text, k) else (None, k)
    else if Peek(text, j) == 'r' then Trailed(Expect(text, j + 1, "uct"), text, Struct)
    else (None, j + 1)
  }

  /**
   * The keyword cases of the scanning `switch`: `c` is the character the
   * loop just consumed and `i` the cursor after it. The result is the kind
   * the keyword declares, if one was recognised, and the cursor after the
   * characters the matching consumed.
   */
  function MatchKeyword(text: string, c: char, i: nat): (r: (Option<Kind>, nat))
    ensures i <= r.1
    ensures r.0 != Some(Root)
  {
    match c
    case 'b' => Trailed(Expect(text, i, "ool"), text, Bool)
    case 'd' => Trailed(Expect(text, i, "ouble"), text, Double)
    case 'i' => IntMatch(text, i, false)
    case 'n' => Trailed(Expect(text, i, "amespace"), text, Namespace)
    case 's' => StdMatch(text, i)
    case 'u' => IntMatch(text, i, true)
    case _ => (None, i)
  }

  lemma StartsWithConcat(text: string, i: nat, a: string, b: string)
    ensures StartsWith(text, i, a + b) <==> StartsWith(text, i, a) && StartsWith(text, i + |a|, b)
  {
    if StartsWith(text, i, a) && StartsWith(text, i + |a|, b) {
      forall k | 0 <= k < |a + b| ensures Peek(text, i + k) == (a + b)[k] {
        if k >= |a| { assert Peek(text, i + |a| + (k - |a|)) == b[k - |a|]; }
      }
    }
    if StartsWith(text, i, a + b) {
      forall k | 0 <= k < |a| ensures Peek(text, i + k) == a[k] {
        assert Peek(text, i + k) == (a + b)[k];
      }
      forall k | 0 <= k < |b| ensures Peek(text, i + |a| + k) == b[k] {
        assert Peek(text, i + (|a| + k)) == (a + b)[|a| + k];
      }
    }
  }

  /** The buffer spells `w` at `i` exactly when it spells `w[0]` there and the rest after it. */
  lemma StartsWithCons(text: string, i: nat, w: string)
    requires w != []
    ensures StartsWith(text, i, w) <==> Peek(text, i) == w[0] && StartsWith(text, i + 1, w[1..])
  {
    assert w == [w[0]] + w[1..];
    StartsWithConcat(text, i, [w[0]], w[1..]);
  }

  /** Which keyword spellings begin with which character. */
  lemma SpellingInitial(k: Kind)
    requires k != Root
    ensures var c := Spelling(k)[0]; c == 'b' || c == 'd' || c == 'i' || c == 'n' || c == 's' || c == 'u'
    ensures Spelling(k)[0] == 'b' <==> k == Bool
    ensures Spelling(k)[0] == 'd' <==> k == Double
    ensures Spelling(k)[0] == 'n' <==> k == Namespace
    ensures Spelling(k)[0] == 'i' <==> k == Int8 || k == Int16 || k == Int32 || k == Int64
    ensures Spelling(k)[0] == 'u' <==> k == UInt8 || k == UInt16 || k == UInt32 || k == UInt64
    ensures Spelling(k)[0] == 's' <==> k == Struct || k == String || k == Array
  {
  }

  /** The keyword spelled after `c`, when `c` begins exactly one spelling with no branching. */
  lemma SingleKeyword(text: string, c: char, i: nat, k: Kind, w: string)
    requires (k == Bool || k == Double || k == Namespace) && Spelling(k) == [c] + w && '\0' !in w
    requires MatchKeyword(text, c, i) == Trailed(Expect(text, i, w), text, k)
    ensures MatchKeyword(text, c, i).0 == (if StartsWith(text, i, w) && IsSpace(Peek(text, i + |w|)) then Some(k) else None)
    ensures MatchKeyword(text, c, i).0 == Some(k) ==> MatchKeyword(text, c, i).1 == i + |w|
  {
    ExpectMeans(text, i, w);
  }

  /** The statement of `KeywordRecognised` for one first character `c`. */
  predicate RecognisedAfter(text: string, c: char, i: nat, k: Kind)
  {
    && (MatchKeyword(text, c, i).0 == Some(k) <==>
          k != Root && Spelling(k)[0] == c && StartsWith(text, i, Spelling(k)[1..])
          && Trailer(k, Peek(text, i + |Spelling(k)| - 1)))
    && (MatchKeyword(text, c, i).0 == Some(k) ==> MatchKeyword(text, c, i).1 == i + |Spelling(k)| - 1)
  }

  lemma BoolRecognised(text: string, i: nat, k: Kind)
    ensures RecognisedAfter(text, 'b', i, k)
  {
    if k != Root { SpellingInitial(k); }
    SingleKeyword(text, 'b', i, Bool, "ool");
  }

  lemma DoubleRecognised(text: string, i: nat, k: Kind)
    ensures RecognisedAfter(text, 'd', i, k)
  {
    if k != Root { SpellingInitial(k); }
    SingleKeyword(text, 'd', i, Double, "ouble");
  }

  lemma NamespaceRecognised(text: string, i: nat, k: Kind)
    ensures RecognisedAfter(text, 'n', i, k)
  {
    if k != Root { SpellingInitial(k); }
    SingleKeyword(text, 'n', i, Namespace, "amespace");
  }

  /** The kind an `int…_t` (or, when `unsigned`, `uint…_t`) keyword with width digit `d` declares. */
  function IntKind(unsigned: bool, d: char): Option<Kind>
  {
    match d
    case '8' => Some(if unsigned then UInt8 else Int8)
    case '1' => Some(if unsigned then UInt16 else Int16)
    case '3' => Some(if unsigned then UInt32 else Int32)
    case '6' => Some(if unsigned then UInt64 else Int64)
    case _ => None
  }

  /** The rest of an integer keyword after its width digit. */
  function WidthTail(d: char): string
  {
    match d
    case '8' => "_t"
    case '1' => "6_t"
    case '3' => "2_t"
    case '6' => "4_t"
    case _ => ""
  }

  lemma IntWidthRecognised(text: string, d: char, j: nat, unsigned: bool, k: Kind)
    ensures IntWidth(text, d, j, unsigned).0 == Some(k) <==>
      IntKind(unsigned, d) == Some(k) && StartsWith(text, j, WidthTail(d))
      && IsSpace(Peek(text, j + |WidthTail(d)|))
    ensures IntWidth(text, d, j, unsigned).0 == Some(k) ==> IntWidth(text, d, j, unsigned).1 == j + |WidthTail(d)|
  {
    ExpectMeans(text, j, WidthTail(d));
  }

  /** The width digit picks at most one kind of each signedness. */
  lemma IntKindInjective(unsigned: bool, d: char, e: char)
    requires IntKind(unsigned, d).Some? && IntKind(unsigned, d) == IntKind(unsigned, e)
    ensures d == e
  {
  }

  /** An integer keyword is its first character, its head, its width digit and that digit's tail. */
  lemma IntSpelling(k: Kind, unsigned: bool)
    requires k != Root && Spelling(k)[0] == (if unsigned then 'u' else 'i')
    ensures |Spelling(k)| > |IntHead(unsigned)| + 1
    ensures IntKind(unsigned, Spelling(k)[|IntHead(unsigned)| + 1]) == Some(k)
    ensures Spelling(k)[1..] == IntHead(unsigned) + [Spelling(k)[|IntHead(unsigned)| + 1]] + WidthTail(Spelling(k)[|IntHead(unsigned)| + 1])
  {
    SpellingInitial(k);
  }

  /** `IntKind` only yields integer kinds of the requested signedness. */
  lemma IntKindSpelling(unsigned: bool, d: char)
    requires IntKind(unsigned, d).Some?
    ensures IntKind(unsigned, d).value != Root
    ensures Spelling(IntKind(unsigned, d).value)[0] == (if unsigned then 'u' else 'i')
  {
  }

  /** The buffer spells `a`, then `d`, then `b`, exactly when it spells each in turn. */
  lemma StartsWithAround(text: string, i: nat, a: string, d: char, b: string)
    ensures StartsWith(text, i, a + [d] + b) <==>
      StartsWith(text, i, a) && Peek(text, i + |a|) == d && StartsWith(text, i + |a| + 1, b)
  {
    StartsWithConcat(text, i, a + [d], b);
    StartsWithConcat(text, i, a, [d]);
    assert StartsWith(text, i + |a|, [d]) <==> Peek(text, i + |a| + 0) == [d][0];
  }

  /** Once the head of an integer keyword is spelled and a width digit follows, the width `switch` decides. */
  lemma IntPrefix(text: string, i: nat, unsigned: bool)
    ensures var j := i + |IntHead(unsigned)|;
      IntMatch(text, i, unsigned).0.Some? ==> StartsWith(text, i, IntHead(unsigned)) && Peek(text, j) != '\0'
    ensures var j := i + |IntHead(unsigned)|;
      StartsWith(text, i, IntHead(unsigned)) && Peek(text, j) != '\0' ==>
        IntMatch(text, i, unsigned) == IntWidth(text, Peek(text, j), j + 1, unsigned)
  {
    ExpectMeans(text, i, IntHead(unsigned));
  }

  lemma IntMatchSound(text: string, i: nat, k: Kind, unsigned: bool)
    requires IntMatch(text, i, unsigned).0 == Some(k)
    ensures k != Root && Spelling(k)[0] == (if unsigned then 'u' else 'i')
    ensures StartsWith(text, i, Spelling(k)[1..]) && IsSpace(Peek(text, i + |Spelling(k)| - 1))
    ensures IntMatch(text, i, unsigned).1 == i + |Spelling(k)| - 1
  {
    var head := IntHead(unsigned);
    var j := i + |head|;
    IntPrefix(text, i, unsigned);
    var d := Peek(text, j);
    IntWidthRecognised(text, d, j + 1, unsigned, k);
    IntKindSpelling(unsigned, d);
    IntSpelling(k, unsigned);
    IntKindInjective(unsigned, d, Spelling(k)[|head| + 1]);
    StartsWithAround(text, i, head, d, WidthTail(d));
  }

  lemma IntMatchComplete(text: string, i: nat, k: Kind, unsigned: bool)
    requires k != Root && Spelling(k)[0] == (if unsigned then 'u' else 'i')
    requires StartsWith(text, i, Spelling(k)[1..]) && IsSpace(Peek(text, i + |Spelling(k)| - 1))
    ensures IntMatch(text, i, unsigned).0 == Some(k)
  {
    var head := IntHead(unsigned);
    IntSpelling(k, unsigned);
    var d := Spelling(k)[|head| + 1];
    StartsWithAround(text, i, head, d, WidthTail(d));
    IntPrefix(text, i, unsigned);
    IntWidthRecognised(text, d, i + |head| + 1, unsigned, k);
  }

  lemma IntRecognised(text: string, i: nat, k: Kind, unsigned: bool)
    ensures RecognisedAfter(text, if unsigned then 'u' else 'i', i, k)
  {
    var c := if unsigned then 'u' else 'i';
    assert MatchKeyword(text, c, i) == IntMatch(text, i, unsigned);
    if IntMatch(text, i, unsigned).0 == Some(k) {
      IntMatchSound(text, i, k, unsigned);
    }
    if k != Root && Spelling(k)[0] == c && StartsWith(text, i, Spelling(k)[1..])
       && Trailer(k, Peek(text, i + |Spelling(k)| - 1)) {
      IntMatchComplete(text, i, k, unsigned);
    }
  }

  lemma StdMatchKinds(text: string, i: nat)
    ensures var m := StdMatch(text, i).0; m == None || m == Some(Struct) || m == Some(String) || m == Some(Array)
  {
  }

  lemma StructMatch(text: string, i: nat)
    ensures StdMatch(text, i).0 == Some(Struct) <==>
      StartsWith(text, i, "truct") && IsSpace(Peek(text, i + 5))
    ensures StdMatch(text, i).0 == Some(Struct) ==> StdMatch(text, i).1 == i + 5
  {
    ExpectMeans(text, i, "t");
    ExpectMeans(text, i + 2, "uct");
    assert "truct" == "t" + "ruct";
    StartsWithConcat(text, i, "t", "ruct");
    StartsWithCons(text, i + 1, "ruct");
  }

  /** The `td::` shared by `std::string` and `std::vector`: once it is spelled, the `std::` branch decides. */
  lemma StdPrefix(text: string, i: nat)
    ensures StdMatch(text, i).0 == Some(String) || StdMatch(text, i).0 == Some(Array) ==>
      StartsWith(text, i, "td::")
    ensures StartsWith(text, i, "td::") ==> StdMatch(text, i) == StdName(text, i + 4)
  {
    ExpectMeans(text, i, "t");
    ExpectMeans(text, i + 2, "::");
    assert "td::" == "t" + "d::" && "d::"[1..] == "::";
    StartsWithConcat(text, i, "t", "d::");
    StartsWithCons(text, i + 1, "d::");
  }

  lemma StdNameString(text: string, j: nat)
    ensures StdName(text, j).0 == Some(String) <==> StartsWith(text, j, "string") && IsSpace(Peek(text, j + 6))
    ensures StdName(text, j).0 == Some(String) ==> StdName(text, j).1 == j + 6
  {
    ExpectMeans(text, j + 1, "tring");
    assert "string"[1..] == "tring";
    StartsWithCons(text, j, "string");
  }

  lemma StdNameVector(text: string, j: nat)
    ensures StdName(text, j).0 == Some(Array) <==> StartsWith(text, j, "vector") && Peek(text, j + 6) == '<'
    ensures StdName(text, j).0 == Some(Array) ==> StdName(text, j).1 == j + 6
  {
    ExpectMeans(text, j + 1, "ector");
    assert "vector"[1..] == "ector";
    StartsWithCons(text, j, "vector");
  }

  lemma StringMatch(text: string, i: nat)
    ensures StdMatch(text, i).0 == Some(String) <==>
      StartsWith(text, i, "td::string") && IsSpace(Peek(text, i + 10))
    ensures StdMatch(text, i).0 == Some(String) ==> StdMatch(text, i).1 == i + 10
  {
    StdPrefix(text, i);
    StdNameString(text, i + 4);
    assert "td::string" == "td::" + "string";
    StartsWithConcat(text, i, "td::", "string");
  }

  lemma VectorMatch(text: string, i: nat)
    ensures StdMatch(text, i).0 == Some(Array) <==>
      StartsWith(text, i, "td::vector") && Peek(text, i + 10) == '<'
    ensures StdMatch(text, i).0 == Some(Array) ==> StdMatch(text, i).1 == i + 10
  {
    StdPrefix(text, i);
    StdNameVector(text, i + 4);
    assert "td::vector" == "td::" + "vector";
    StartsWithConcat(text, i, "td::", "vector");
  }

  lemma StructRecognised(text: string, i: nat)
    ensures RecognisedAfter(text, 's', i, Struct)
  {
    assert Spelling(Struct)[1..] == "truct";
    StructMatch(text, i);
  }

  lemma StringRecognised(text: string, i: nat)
    ensures RecognisedAfter(text, 's', i, String)
  {
    assert Spelling(String)[1..] == "td::string";
    StringMatch(text, i);
  }

  lemma VectorRecognised(text: string, i: nat)
    ensures RecognisedAfter(text, 's', i, Array)
  {
    assert Spelling(Array)[1..] == "td::vector";
    VectorMatch(text, i);
  }

  /** No other kind is spelled with `s`, and the `s` case reports no other kind. */
  lemma NotStdKind(text: string, i: nat, k: Kind)
    requires k != Struct && k != String && k != Array
    ensures RecognisedAfter(text, 's', i, k)
  {
    StdMatchKinds(text, i);
    if k != Root { SpellingInitial(k); }
  }

  lemma StdRecognised(text: string, i: nat, k: Kind)
    ensures RecognisedAfter(text, 's', i, k)
  {
    if k == Struct { StructRecognised(text, i); }
    else if k == String { StringRecognised(text, i); }
    else if k == Array { VectorRecognised(text, i); }
    else { NotStdKind(text, i, k); }
  }

  /**
   * The scanner recognises exactly the keyword vocabulary: after consuming
   * `c`, the keyword cases report kind `k` exactly when `c` followed by the
   * next characters spells `k`'s keyword and the required trailer follows,
   * and the cursor then rests on that trailer.
   */
  lemma KeywordRecognised(text: string, c: char, i: nat, k: Kind)
    ensures MatchKeyword(text, c, i).0 == Some(k) <==>
      k != Root && Spelling(k)[0] == c && StartsWith(text, i, Spelling(k)[1..])
      && Trailer(k, Peek(text, i + |Spelling(k)| - 1))
    ensures MatchKeyword(text, c, i).0 == Some(k) ==> MatchKeyword(text, c, i).1 == i + |Spelling(k)| - 1
  {
    if c == 'b' { BoolRecognised(text, i, k); }
    else if c == 'd' { DoubleRecognised(text, i, k); }
    else if c == 'n' { NamespaceRecognised(text, i, k); }
    else if c == 'i' { IntRecognised(text, i, k, false); }
    else if c == 'u' { IntRecognised(text, i, k, true); }
    else if c == 's' { StdRecognised(text, i, k); }
    else if k != Root { SpellingInitial(k); }
  }
}
