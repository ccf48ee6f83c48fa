/**
 * Target-platform ABI description: the table of named profiles selected by
 * Settings::platform, and the field patches read from a platform file by
 * Settings::platformFile.
 */
module Platform {
  import opened Wrappers
  import opened Xml

  datatype PlatformType = Unspecified | Native | Win32A | Win32W | Win64 | Unix32 | Unix64

  /** Byte widths of the built-in types (the `sizeof_*` fields). */
  datatype Sizes = Sizes(
    sizeofBool: int,
    sizeofShort: int,
    sizeofInt: int,
    sizeofLong: int,
    sizeofLongLong: int,
    sizeofFloat: int,
    sizeofDouble: int,
    sizeofLongDouble: int,
    sizeofWcharT: int,
    sizeofSizeT: int,
    sizeofPointer: int)

  /**
   * What the compiling host reports for Unspecified and Native: its own
   * `sizeof` values and whether a plain `char` holding -1 compares negative.
   */
  datatype Host = Host(sizes: Sizes, charIsSigned: bool)

  /** The fields a profile or a platform file sets; the bit widths are derived from them. */
  datatype Abi = Abi(sizes: Sizes, defaultSign: char, charBit: int)

  /** Derived bit widths of short, int, long and long long. */
  datatype BitWidths = BitWidths(shortBit: int, intBit: int, longBit: int, longLongBit: int)

  function Widths(a: Abi): BitWidths
  {
    BitWidths(a.charBit * a.sizes.sizeofShort, a.charBit * a.sizes.sizeofInt,
              a.charBit * a.sizes.sizeofLong, a.charBit * a.sizes.sizeofLongLong)
  }

  /** The profile table. Both Win32 variants share one row. */
  function Profile(t: PlatformType, host: Host): Abi
  {
    match t
    case Unspecified => Abi(host.sizes, '\0', 8)
    case Native => Abi(host.sizes, if host.charIsSigned then 's' else 'u', 8)
    case Win32A | Win32W => Abi(Sizes(1, 2, 4, 4, 8, 4, 8, 8, 2, 4, 4), '\0', 8)
    case Win64 => Abi(Sizes(1, 2, 4, 4, 8, 4, 8, 8, 2, 8, 8), '\0', 8)
    case Unix32 => Abi(Sizes(1, 2, 4, 4, 8, 4, 8, 12, 4, 4, 4), '\0', 8)
    case Unix64 => Abi(Sizes(1, 2, 4, 8, 8, 4, 8, 16, 4, 8, 8), '\0', 8)
  }

  predicate IsFixed(t: PlatformType)
  {
    t != Unspecified && t != Native
  }

  /** The Windows and Unix profiles do not depend on the host. */
  lemma FixedProfileIgnoresHost(t: PlatformType, h1: Host, h2: Host)
    requires IsFixed(t)
    ensures Profile(t, h1) == Profile(t, h2)
  {
  }

  /** Bit widths of the fixed profiles; only Unix64 has a 64-bit long. */
  lemma FixedProfileWidths(t: PlatformType, host: Host)
    requires IsFixed(t)
    ensures Widths(Profile(t, host)) == BitWidths(16, 32, if t == Unix64 then 64 else 32, 64)
    ensures Profile(t, host).sizes.sizeofPointer == Profile(t, host).sizes.sizeofSizeT
    ensures Profile(t, host).sizes.sizeofPointer == (if t == Win64 || t == Unix64 then 8 else 4)
  {
  }

  // ---- platform file ----

  /** The element names a `sizeof` element may contain. */
  const SizeofNames: set<string> :=
    {"short", "int", "long", "long-long", "float", "double", "long-double", "pointer", "size_t", "wchar_t"}

  /** The field that a `sizeof` child called `name` sets; other names set nothing. */
  function SetSize(s: Sizes, name: string, value: int): Sizes
  {
    if name == "short" then s.(sizeofShort := value)
    else if name == "int" then s.(sizeofInt := value)
    else if name == "long" then s.(sizeofLong := value)
    else if name == "long-long" then s.(sizeofLongLong := value)
    else if name == "float" then s.(sizeofFloat := value)
    else if name == "double" then s.(sizeofDouble := value)
    else if name == "long-double" then s.(sizeofLongDouble := value)
    else if name == "pointer" then s.(sizeofPointer := value)
    else if name == "size_t" then s.(sizeofSizeT := value)
    else if name == "wchar_t" then s.(sizeofWcharT := value)
    else s
  }

  /** A name outside SizeofNames sets nothing. */
  lemma SetSizeOther(s: Sizes, name: string, value: int)
    requires name !in SizeofNames
    ensures SetSize(s, name, value) == s
  {
  }

  /** `*GetText()`: the first character, or the terminating NUL of an empty text. */
  function FirstChar(t: string): char
  {
    if t == "" then '\0' else t[0]
  }

  /**
   * The `sizeof` loop as evidently intended: each child sets the field its own
   * name stands for to its integer text (see PatchSizesAsWritten for the loop
   * as the source writes it).
   */
  function PatchSizes(s: Sizes, cs: seq<Element>, atoi: string -> int): Sizes
  {
    if cs == [] then s
    else
      var c := cs[|cs| - 1];
      SetSize(PatchSizes(s, cs[..|cs| - 1], atoi), c.name, atoi(TextOf(c)))
  }

  /** One child of the `platform` root element, with the intended `sizeof` loop. */
  function PatchNode(a: Abi, n: Element, atoi: string -> int): Abi
  {
    if n.name == "default-sign" then a.(defaultSign := FirstChar(TextOf(n)))
    else if n.name == "char_bit" then a.(charBit := atoi(TextOf(n)))
    else if n.name == "sizeof" then a.(sizes := PatchSizes(a.sizes, n.children, atoi))
    else a
  }

  /** The children of the root in document order, each patching the previous result, with the intended `sizeof` loop. */
  function PatchNodes(a: Abi, ns: seq<Element>, atoi: string -> int): Abi
  {
    if ns == [] then a
    else PatchNode(PatchNodes(a, ns[..|ns| - 1], atoi), ns[|ns| - 1], atoi)
  }

  /**
   * The text of the elements the platform file dereferences is present: the
   * `default-sign` and `char_bit` children. The `sizeof` loop as written never
   * reaches a GetText() call.
   */
  predicate PlatformTextsPresent(root: Element)
  {
    TextsPresent(root.children, {"default-sign", "char_bit"})
  }

  /** The byte width a `sizeof` child called `name` stands for. */
  function SizeNamed(s: Sizes, name: string): int
    requires name in SizeofNames
  {
    if name == "short" then s.sizeofShort
    else if name == "int" then s.sizeofInt
    else if name == "long" then s.sizeofLong
    else if name == "long-long" then s.sizeofLongLong
    else if name == "float" then s.sizeofFloat
    else if name == "double" then s.sizeofDouble
    else if name == "long-double" then s.sizeofLongDouble
    else if name == "pointer" then s.sizeofPointer
    else if name == "size_t" then s.sizeofSizeT
    else s.sizeofWcharT
  }

  /** Setting one named width changes that width only. */
  lemma SetSizeNamed(s: Sizes, n: string, v: int, name: string)
    requires name in SizeofNames
    ensures SizeNamed(SetSize(s, n, v), name) == if n == name then v else SizeNamed(s, name)
    ensures SetSize(s, n, v).sizeofBool == s.sizeofBool
  {
  }

  /** After a `sizeof` element, each named width is the value of the last child of that name. */
  lemma {:induction false} PatchSizesLastWins(s: Sizes, cs: seq<Element>, atoi: string -> int, name: string, k: nat)
    requires name in SizeofNames
    requires k < |cs| && cs[k].name == name
    requires forall j :: k < j < |cs| ==> cs[j].name != name
    ensures SizeNamed(PatchSizes(s, cs, atoi), name) == atoi(TextOf(cs[k]))
  {
    var last := cs[|cs| - 1];
    SetSizeNamed(PatchSizes(s, cs[..|cs| - 1], atoi), last.name, atoi(TextOf(last)), name);
    if k < |cs| - 1 {
      PatchSizesLastWins(s, cs[..|cs| - 1], atoi, name, k);
    }
  }

  /** A width no child names keeps its value. */
  lemma {:induction false} PatchSizesUnnamed(s: Sizes, cs: seq<Element>, atoi: string -> int, name: string)
    requires name in SizeofNames
    requires forall j :: 0 <= j < |cs| ==> cs[j].name != name
    ensures SizeNamed(PatchSizes(s, cs, atoi), name) == SizeNamed(s, name)
    ensures PatchSizes(s, cs, atoi).sizeofBool == s.sizeofBool
  {
    if cs != [] {
      var last := cs[|cs| - 1];
      SetSizeNamed(PatchSizes(s, cs[..|cs| - 1], atoi), last.name, atoi(TextOf(last)), name);
      PatchSizesUnnamed(s, cs[..|cs| - 1], atoi, name);
    }
  }

  // ---- the sizeof loop as written ----

  /**
   * One turn of the inner loop as the source writes it: the name and the text
   * tested are those of the enclosing `sizeof` element, not of the child.
   */
  function PatchSizesAsWritten(s: Sizes, node: Element, cs: seq<Element>, atoi: string -> int): Sizes
  {
    if cs == [] then s
    else SetSize(PatchSizesAsWritten(s, node, cs[..|cs| - 1], atoi), node.name, atoi(TextOf(node)))
  }

  /** One child of the `platform` root element, as the source reads it. */
  function PatchNodeAsWritten(a: Abi, n: Element, atoi: string -> int): Abi
  {
    if n.name == "default-sign" then a.(defaultSign := FirstChar(TextOf(n)))
    else if n.name == "char_bit" then a.(charBit := atoi(TextOf(n)))
    else if n.name == "sizeof" then a.(sizes := PatchSizesAsWritten(a.sizes, n, n.children, atoi))
    else a
  }

  /** What platformFile does with the children of the root, in document order. */
  function PatchNodesAsWritten(a: Abi, ns: seq<Element>, atoi: string -> int): Abi
  {
    if ns == [] then a
    else PatchNodeAsWritten(PatchNodesAsWritten(a, ns[..|ns| - 1], atoi), ns[|ns| - 1], atoi)
  }

  /** As written, the inner loop never matches, because the element it tests is called "sizeof". */
  lemma {:induction false} SizeofLoopAsWrittenInert(s: Sizes, node: Element, cs: seq<Element>, atoi: string -> int)
    requires node.name == "sizeof"
    ensures PatchSizesAsWritten(s, node, cs, atoi) == s
  {
    if cs != [] {
      SizeofLoopAsWrittenInert(s, node, cs[..|cs| - 1], atoi);
    }
  }

  /** As written, a platform file never changes any byte width. */
  lemma {:induction false} PlatformFileAsWrittenKeepsSizes(a: Abi, ns: seq<Element>, atoi: string -> int)
    ensures PatchNodesAsWritten(a, ns, atoi).sizes == a.sizes
  {
    if ns != [] {
      var n := ns[|ns| - 1];
      PlatformFileAsWrittenKeepsSizes(a, ns[..|ns| - 1], atoi);
      if n.name == "sizeof" {
        SizeofLoopAsWrittenInert(PatchNodesAsWritten(a, ns[..|ns| - 1], atoi).sizes, n, n.children, atoi);
      }
    }
  }

  /**
   * `<platform><sizeof><int>2</int></sizeof></platform>` applied to Win64:
   * as written sizeof_int stays 4; with the child's name tested it becomes 2.
   */
  lemma SizeofIntCounterexample(host: Host, atoi: string -> int)
    requires atoi("2") == 2
    ensures
      var int2 := Element("int", map[], Some("2"), []);
      var ns := [Element("sizeof", map[], None, [int2])];
      && PatchNodesAsWritten(Profile(Win64, host), ns, atoi).sizes.sizeofInt == 4
      && PatchNodes(Profile(Win64, host), ns, atoi).sizes.sizeofInt == 2
  {
    var int2 := Element("int", map[], Some("2"), []);
    var ns := [Element("sizeof", map[], None, [int2])];
    assert ns[..0] == [] && [int2][..0] == [];
    PlatformFileAsWrittenKeepsSizes(Profile(Win64, host), ns, atoi);
  }

  /** A file of only `char_bit` elements leaves the byte widths and the sign as they were. */
  lemma {:induction false} CharBitOnly(a: Abi, ns: seq<Element>, atoi: string -> int)
    requires forall k :: 0 <= k < |ns| ==> ns[k].name == "char_bit"
    ensures PatchNodesAsWritten(a, ns, atoi).sizes == a.sizes
    ensures PatchNodesAsWritten(a, ns, atoi).defaultSign == a.defaultSign
    ensures ns != [] ==> PatchNodesAsWritten(a, ns, atoi).charBit == atoi(TextOf(ns[|ns| - 1]))
  {
    if ns != [] {
      CharBitOnly(a, ns[..|ns| - 1], atoi);
    }
  }
}
