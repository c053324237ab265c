/** The DynamicType to IDL generator. A type is first turned into a tree of
    nodes (one branch per struct member, one "CONTAINER_MEMBER" branch under
    an array or sequence), each node carrying the member name it stands for
    and the IDL name of its type. The tree is then flattened and every
    struct, enum and union met for the first time is written out; the root
    struct is written once more at the end. */
module IdlSchema {
  import opened Text
  import opened DynTypes


  const TypeOpening: string := "\n{\n"
  const TypeClosure: string := "};\n"
  const Tab: string := "    "

  // ------------------------------------------------------------ type names

  /** The IDL names of the primitive kinds; kinds without an entry (TK_NONE,
      TK_INT8, TK_UINT8 and any other) have the empty name. */
  function PrimitiveName(k: SimpleKind): string
  {
    match k
    case Boolean => "boolean"
    case Byte => "octet"
    case Int16 => "short"
    case Int32 => "long"
    case Int64 => "long long"
    case UInt16 => "unsigned short"
    case UInt32 => "unsigned long"
    case UInt64 => "unsigned long long"
    case Float32 => "float"
    case Float64 => "double"
    case Float128 => "long double"
    case Char8 => "char"
    case Char16 => "wchar"
    case String8 => "string"
    case String16 => "wstring"
    case _ => ""
  }

  /** The dimensions of an array name: "[b]" per bound. */
  function Dims(bounds: seq<nat>): string
  {
    if bounds == [] then "" else "[" + NatToString(bounds[0]) + "]" + Dims(bounds[1..])
  }

  /** The bounds of a sequence name: ", b" per bound. */
  function SequenceBounds(bounds: seq<nat>): string
  {
    if bounds == [] then "" else ", " + NatToString(bounds[0]) + SequenceBounds(bounds[1..])
  }

  /** type_kind_to_str: the IDL name of a type. Aliases are not resolved, and
      an alias, a bitset, a bitmask or TK_NONE has the empty name. */
  function TypeName(t: DynType): (s: string)
    ensures t.StructType? || t.EnumType? || t.UnionType? ==> s == t.name
    ensures t.Basic? ==> s == PrimitiveName(t.kind)
    ensures t.AliasOf? || t.BitmaskType? || t.BitsetType? ==> s == ""
  {
    match t
    case Basic(k) => PrimitiveName(k)
    case StructType(name, _) => name
    case EnumType(name, _) => name
    case UnionType(name, _, _) => name
    case ArrayType(e, b) => ArrayName(TypeName(e), b)
    case SequenceType(e, b) => SequenceName(TypeName(e), b)
    case MapType(k, v, _) => MapName(TypeName(k), TypeName(v))
    case _ => ""
  }

  /** array_kind_to_str: the element's name followed by the dimensions. */
  function ArrayName(element: string, bounds: seq<nat>): string
  {
    element + Dims(bounds)
  }

  /** sequence_kind_to_str: "sequence<", the element's name, every bound
      (also a 0 bound) after ", ", and ">". */
  function SequenceName(element: string, bounds: seq<nat>): string
  {
    "sequence<" + element + SequenceBounds(bounds) + ">"
  }

  /** map_kind_to_str: "map<K, V>"; the bound is not written. */
  function MapName(key: string, value: string): string
  {
    "map<" + key + ", " + value + ">"
  }

  predicate AllDigits(s: string)
  {
    forall i :: 0 <= i < |s| ==> IsDigit(s[i])
  }

  /** Reads "[b1][b2]..." back as the bounds. */
  function ReadDims(s: string): Option<seq<nat>>
    decreases |s|
  {
    if s == [] then Some([])
    else if s[0] != '[' then None
    else
      var k := IndexOf(s, ']');
      if k == |s| || k < 2 || !AllDigits(s[1..k]) then None
      else match ReadDims(s[k + 1..])
        case None => None
        case Some(rest) => Some([ParseNat(s[1..k])] + rest)
  }

  /** Reads ", b1, b2..." back as the bounds. */
  function ReadSequenceBounds(s: string): Option<seq<nat>>
    decreases |s|
  {
    if s == [] then Some([])
    else if |s| < 3 || s[0] != ',' || s[1] != ' ' then None
    else ReadBound(s[2..])
  }

  /** Reads "b..." up to the next ',' or the end, then the remaining bounds. */
  function ReadBound(t: string): Option<seq<nat>>
    decreases |t|
  {
    var k := IndexOf(t, ',');
    if k == 0 || !AllDigits(t[..k]) then None
    else match ReadSequenceBounds(t[k..])
      case None => None
      case Some(rest) => Some([ParseNat(t[..k])] + rest)
  }


  lemma ReadDimsCons(d: string, rest: string)
    requires |d| >= 1 && AllDigits(d)
    ensures ReadDims("[" + d + "]" + rest) ==
      match ReadDims(rest) case None => None case Some(r) => Some([ParseNat(d)] + r)
  {
    var s := "[" + d + "]" + rest;
    var k := |d| + 1;
    assert IndexOf(s, ']') == k by {
      assert s[k] == ']';
      forall i | 0 <= i < k
        ensures s[i] != ']'
      {
        if i > 0 {
          assert s[i] == d[i - 1];
        }
      }
      IndexOfAt(s, ']', k);
    }
    assert s[1..k] == d;
    assert s[k + 1..] == rest;
  }


  lemma ReadSequenceBoundsCons(d: string, rest: string)
    requires |d| >= 1 && AllDigits(d) && (rest == [] || rest[0] == ',')
    ensures ReadSequenceBounds(", " + d + rest) ==
      match ReadSequenceBounds(rest) case None => None case Some(r) => Some([ParseNat(d)] + r)
  {
    var s := ", " + d + rest;
    var t := d + rest;
    assert s[2..] == t;
    assert IndexOf(t, ',') == |d| by {
      forall i | 0 <= i < |d|
        ensures t[i] != ','
      {
        assert t[i] == d[i];
      }
      IndexOfAt(t, ',', |d|);
    }
    assert t[..|d|] == d && t[|d|..] == rest;
  }


  /** The dimensions of an array name read back as its bounds. */
  lemma {:induction false} DimsRoundTrip(bounds: seq<nat>)
    ensures ReadDims(Dims(bounds)) == Some(bounds)
  {
    if bounds != [] {
      var d := NatToString(bounds[0]);
      assert Dims(bounds) == "[" + d + "]" + Dims(bounds[1..]);
      assert AllDigits(d);
      DimsRoundTrip(bounds[1..]);
      NatToStringRoundTrip(bounds[0]);
      ReadDimsCons(d, Dims(bounds[1..]));
      assert [bounds[0]] + bounds[1..] == bounds;
    }
  }

  /** The bounds of a sequence name read back as its bounds. */
  lemma {:induction false} SequenceBoundsRoundTrip(bounds: seq<nat>)
    ensures ReadSequenceBounds(SequenceBounds(bounds)) == Some(bounds)
  {
    if bounds != [] {
      var d := NatToString(bounds[0]);
      var rest := SequenceBounds(bounds[1..]);
      assert SequenceBounds(bounds) == ", " + d + rest;
      assert AllDigits(d);
      SequenceBoundsStart(bounds[1..]);
      SequenceBoundsRoundTrip(bounds[1..]);
      NatToStringRoundTrip(bounds[0]);
      ReadSequenceBoundsCons(d, rest);
      assert [bounds[0]] + bounds[1..] == bounds;
    }
  }

  lemma DimsStart(bounds: seq<nat>)
    ensures Dims(bounds) == [] || Dims(bounds)[0] == '['
  {
  }

  lemma SequenceBoundsStart(bounds: seq<nat>)
    ensures SequenceBounds(bounds) == [] || SequenceBounds(bounds)[0] == ','
  {
  }

  /** An array's name starts with its element's name, and what follows reads
      back as its bounds. */
  lemma ArrayNameReadsBack(e: DynType, bounds: seq<nat>)
    ensures var s := TypeName(ArrayType(e, bounds));
      |TypeName(e)| <= |s| && s[..|TypeName(e)|] == TypeName(e) && ReadDims(s[|TypeName(e)|..]) == Some(bounds)
  {
    var s := TypeName(ArrayType(e, bounds));
    assert s == TypeName(e) + Dims(bounds);
    assert s[|TypeName(e)|..] == Dims(bounds);
    DimsRoundTrip(bounds);
  }

  /** A sequence's name is "sequence<", its element's name, text that reads
      back as its bounds, and ">". */
  /** The four pieces of `a + m + b + c` are read back by slicing at their lengths. */
  lemma SliceFour(a: string, m: string, b: string, c: string)
    ensures var s := a + m + b + c;
      s[..|a|] == a && s[|a|..|a| + |m|] == m && s[|a| + |m|..|s| - |c|] == b && s[|s| - |c|..] == c
  {
  }

  lemma SequenceNameParts(el: string, bounds: seq<nat>)
    ensures var s := SequenceName(el, bounds);
      10 + |el| <= |s| && s[..9] == "sequence<" && s[9..9 + |el|] == el && s[|s| - 1] == '>' &&
      ReadSequenceBounds(s[9 + |el|..|s| - 1]) == Some(bounds)
  {
    var s := SequenceName(el, bounds);
    SliceFour("sequence<", el, SequenceBounds(bounds), ">");
    assert s[|s| - 1..] == ">";
    SequenceBoundsRoundTrip(bounds);
  }

  lemma SequenceNameReadsBack(e: DynType, bounds: seq<nat>)
    ensures var s := TypeName(SequenceType(e, bounds));
      var n := |TypeName(e)|;
      10 + n <= |s| && s[..9] == "sequence<" && s[9..9 + n] == TypeName(e) && s[|s| - 1] == '>' &&
      ReadSequenceBounds(s[9 + n..|s| - 1]) == Some(bounds)
  {
    SequenceNameParts(TypeName(e), bounds);
  }



  /** A map's name is "map<", the key's name, ", ", the value's name and ">". */
  lemma MapNameSlices(kn: string, vn: string)
    ensures var s := MapName(kn, vn);
      var n := |kn|;
      |s| == n + |vn| + 7 && s[..4] == "map<" && s[4..4 + n] == kn &&
      s[4 + n..6 + n] == ", " && s[6 + n..|s| - 1] == vn && s[|s| - 1] == '>'
  {
    var s := MapName(kn, vn);
    SliceFour("map<", kn, ", " + vn, ">");
    assert "map<" + kn + (", " + vn) + ">" == s;
    var n := |kn|;
    assert s[4 + n..|s| - 1] == ", " + vn;
    assert s[4 + n..6 + n] == (", " + vn)[..2];
    assert s[6 + n..|s| - 1] == (", " + vn)[2..];
    assert s[|s| - 1..] == ">";
  }

  lemma MapNameParts(k: DynType, v: DynType, bounds: seq<nat>)
    ensures var s := TypeName(MapType(k, v, bounds));
      var n := |TypeName(k)|;
      |s| == n + |TypeName(v)| + 7 && s[..4] == "map<" && s[4..4 + n] == TypeName(k) &&
      s[4 + n..6 + n] == ", " && s[6 + n..|s| - 1] == TypeName(v) && s[|s| - 1] == '>'
  {
    MapNameSlices(TypeName(k), TypeName(v));
  }



  /** The primitive kinds with a name have distinct names. */
  lemma PrimitiveNamesDistinct(a: SimpleKind, b: SimpleKind)
    requires a != b && PrimitiveName(a) != ""
    ensures PrimitiveName(a) != PrimitiveName(b)
  {
  }

  // ------------------------------------------------------------ type tree

  /** A node of the type tree: the member name it stands for, the IDL name
      of its type, the type itself and its branches. */
  datatype TreeNode = Node(memberName: string, typeKindName: string, typ: DynType, branches: seq<TreeNode>)

  /** get_members_sorted: each member's name and type, in member-id order. */
  function MembersSorted(t: DynType): (r: seq<(string, DynType)>)
    ensures |r| == |AllMembers(t)|
    ensures forall i :: 0 <= i < |r| ==> r[i] == (AllMembers(t)[i].name, AllMembers(t)[i].typ)
  {
    var ms := AllMembers(t);
    seq(|ms|, i requires 0 <= i < |ms| => (ms[i].name, ms[i].typ))
  }

  /** generate_dyn_type_tree: a struct node has one branch per member, in
      member-id order; an array or sequence node one "CONTAINER_MEMBER"
      branch for its element type; any other node is a leaf. The root is
      named "PARENT". */
  function GenerateTree(t: DynType, memberName: string): (n: TreeNode)
    ensures n.memberName == memberName && n.typ == t && n.typeKindName == TypeName(t)
    decreases t
  {
    match t
    case StructType(name, _) =>
      var ms := MembersSorted(t);
      Node(memberName, name, t, seq(|ms|, i requires 0 <= i < |ms| => MemberTree(t, ms, i)))
    case ArrayType(e, _) => Node(memberName, TypeName(t), t, [GenerateTree(e, "CONTAINER_MEMBER")])
    case SequenceType(e, _) => Node(memberName, TypeName(t), t, [GenerateTree(e, "CONTAINER_MEMBER")])
    case _ => Node(memberName, TypeName(t), t, [])
  }

  /** The branch for the i-th member of a struct, in member-id order. */
  function MemberTree(t: DynType, ms: seq<(string, DynType)>, i: nat): (n: TreeNode)
    requires t.StructType? && ms == MembersSorted(t) && i < |ms|
    ensures n.memberName == ms[i].0 && n.typ == ms[i].1 && n.typeKindName == TypeName(ms[i].1)
    decreases t, 0
  {
    var m := AllMembers(t)[i];
    ByIdSameMembers(t.members);
    assert m in t.members;
    GenerateTree(m.typ, m.name)
  }

  /** TreeNode::all_nodes, taken to be pre-order: a node, then the nodes of
      each of its branches in turn. */
  function AllNodes(n: TreeNode): (r: seq<TreeNode>)
    ensures |r| >= 1 && r[0] == n
    decreases n, 1
  {
    [n] + BranchNodes(n.branches)
  }

  function BranchNodes(bs: seq<TreeNode>): seq<TreeNode>
    decreases bs, 0
  {
    if bs == [] then [] else AllNodes(bs[0]) + BranchNodes(bs[1..])
  }

  /** Every node of the tree is named by its type's IDL name. */
  predicate NamedByType(n: TreeNode)
    decreases n
  {
    n.typeKindName == TypeName(n.typ) && forall i :: 0 <= i < |n.branches| ==> NamedByType(n.branches[i])
  }

  /** The generator names each node by the IDL name of its own type, so the
      first pass of the schema dedups types by that name. */
  lemma {:induction false} GeneratedTreeNamedByType(t: DynType, memberName: string)
    ensures NamedByType(GenerateTree(t, memberName))
    decreases t
  {
    var root := GenerateTree(t, memberName);
    if t.StructType? {
      var ms := MembersSorted(t);
      assert root.branches == seq(|ms|, i requires 0 <= i < |ms| => MemberTree(t, ms, i));
      forall i | 0 <= i < |root.branches|
        ensures NamedByType(root.branches[i])
      {
        var m := AllMembers(t)[i];
        ByIdSameMembers(t.members);
        assert m in t.members;
        assert root.branches[i] == GenerateTree(m.typ, m.name);
        GeneratedTreeNamedByType(m.typ, m.name);
      }
    } else if t.ArrayType? || t.SequenceType? {
      GeneratedTreeNamedByType(ElementType(t), "CONTAINER_MEMBER");
    }
  }

  /** In a tree named by type, every node all_nodes yields is named by type. */
  lemma {:induction false} AllNodesNamedByType(n: TreeNode)
    requires NamedByType(n)
    ensures forall m :: m in AllNodes(n) ==> m.typeKindName == TypeName(m.typ)
    decreases n, 1
  {
    BranchNodesNamedByType(n.branches);
  }

  lemma {:induction false} BranchNodesNamedByType(bs: seq<TreeNode>)
    requires forall i :: 0 <= i < |bs| ==> NamedByType(bs[i])
    ensures forall m :: m in BranchNodes(bs) ==> m.typeKindName == TypeName(m.typ)
    decreases bs, 0
  {
    if bs != [] {
      AllNodesNamedByType(bs[0]);
      BranchNodesNamedByType(bs[1..]);
    }
  }

  // --------------------------------------------------------- definitions

  /** node_to_str: the member line of a struct. For an array the name is
      split at its first '[' and the member name goes in between, as in
      `long values[3][2]`. */
  function NodeLine(n: TreeNode): string
  {
    if Kind(n.typ) == Array then
      var k := IndexOf(n.typeKindName, '[');
      Tab + n.typeKindName[..k] + " " + n.memberName + n.typeKindName[k..]
    else Tab + n.typeKindName + " " + n.memberName
  }

  /** Splitting `en + dims` at its first '[' when `en` has none before
      position `k`, and either has one there or ends there. */
  lemma SplitAtBracket(en: string, dims: string, k: nat)
    requires k <= |en| && (k < |en| ==> en[k] == '[') && (k == |en| && dims != [] ==> dims[0] == '[')
    requires forall i :: 0 <= i < k ==> en[i] != '['
    ensures IndexOf(en + dims, '[') == k
    ensures (en + dims)[..k] == en[..k] && (en + dims)[k..] == en[k..] + dims
  {
    var name := en + dims;
    assert IndexOf(name, '[') == k by {
      forall i | 0 <= i < k
        ensures name[i] != '['
      {
        assert name[i] == en[i];
      }
      IndexOfAt(name, '[', k);
    }
    AppendSlices(en, dims, k);
  }

  lemma AppendSlices(a: string, b: string, k: nat)
    requires k <= |a|
    ensures (a + b)[..k] == a[..k] && (a + b)[k..] == a[k..] + b
  {
  }


  /** The line of an array member whose element name has no '[' puts the
      member name between the element name and the dimensions. */
  lemma SplitLineAtDims(en: string, dims: string, memberName: string)
    requires '[' !in en && (dims == [] || dims[0] == '[')
    ensures var name := en + dims;
      var k := IndexOf(name, '[');
      Tab + name[..k] + " " + memberName + name[k..] == Tab + en + " " + memberName + dims
  {
    var name := en + dims;
    SplitAtBracket(en, dims, |en|);
    assert name[..|en|] == en && name[|en|..] == dims;
  }

  /** An array member whose element name has no '[' is written with the
      element name, the member name, then the dimensions. */
  lemma ArrayMemberLine(e: DynType, bounds: seq<nat>, memberName: string)
    requires '[' !in TypeName(e)
    ensures NodeLine(GenerateTree(ArrayType(e, bounds), memberName)) ==
      Tab + TypeName(e) + " " + memberName + Dims(bounds)
  {
    var n := GenerateTree(ArrayType(e, bounds), memberName);
    assert n.typeKindName == TypeName(e) + Dims(bounds);
    DimsStart(bounds);
    SplitLineAtDims(TypeName(e), Dims(bounds), memberName);
  }




  /** When the element's name has a '[' of its own, the member name is
      put at that '[', inside the element's name. */
  /** The line of an array member whose element name has a '[' splits the
      element name at it. */
  lemma SplitLineInElement(en: string, dims: string, memberName: string)
    requires '[' in en
    ensures var k := IndexOf(en, '[');
      var name := en + dims;
      k < |en| && IndexOf(name, '[') == k &&
      Tab + name[..k] + " " + memberName + name[k..] == Tab + en[..k] + " " + memberName + en[k..] + dims
  {
    IndexOfFirst(en, '[');
    var k := IndexOf(en, '[');
    assert k < |en|;
    var name := en + dims;
    SplitAtBracket(en, dims, k);
    var head := Tab + en[..k] + " " + memberName;
    assert Tab + name[..k] + " " + memberName == head;
    assert head + (en[k..] + dims) == head + en[k..] + dims;
  }

  lemma ArrayMemberLineSplitsElement(e: DynType, bounds: seq<nat>, memberName: string)
    requires '[' in TypeName(e)
    ensures var k := IndexOf(TypeName(e), '[');
      k < |TypeName(e)| &&
      NodeLine(GenerateTree(ArrayType(e, bounds), memberName)) ==
        Tab + TypeName(e)[..k] + " " + memberName + TypeName(e)[k..] + Dims(bounds)
  {
    var n := GenerateTree(ArrayType(e, bounds), memberName);
    assert n.typeKindName == TypeName(e) + Dims(bounds);
    SplitLineInElement(TypeName(e), Dims(bounds), memberName);
  }




  /** Such element names exist: the name of every sequence of arrays has a
      '[' inside its element's name. */
  lemma SequenceOfArraysHasBracket(e: DynType, bounds: seq<nat>, seqBounds: seq<nat>)
    requires bounds != []
    ensures '[' in TypeName(ArrayType(e, bounds))
    ensures '[' in TypeName(SequenceType(ArrayType(e, bounds), seqBounds))
  {
    var en := TypeName(e);
    var inner := TypeName(ArrayType(e, bounds));
    assert inner == en + Dims(bounds);
    assert inner[|en|] == Dims(bounds)[0] == '[';
    var s := TypeName(SequenceType(ArrayType(e, bounds), seqBounds));
    assert s == "sequence<" + inner + SequenceBounds(seqBounds) + ">";
    assert s[9 + |en|] == inner[|en|];
  }

  /** struct_to_str: "struct N", the opening, one line per branch, the closure. */
  function StructText(n: TreeNode): string
  {
    "struct " + n.typeKindName + TypeOpening + FieldLines(n.branches) + TypeClosure
  }

  function FieldLines(bs: seq<TreeNode>): string
  {
    if bs == [] then "" else NodeLine(bs[0]) + ";\n" + FieldLines(bs[1..])
  }

  /** enum_to_str: the literal names in member-id order, one per line. */
  function EnumText(n: TreeNode): string
  {
    "enum " + n.typeKindName + TypeOpening + Tab + Join(LiteralNames(AllMembers(n.typ)), ",\n" + Tab) + "\n" + TypeClosure
  }

  function LiteralNames(ms: seq<Member>): (names: seq<string>)
    ensures |names| == |ms|
    ensures forall i :: 0 <= i < |ms| ==> names[i] == ms[i].name
  {
    seq(|ms|, i requires 0 <= i < |ms| => ms[i].name)
  }

  /** union_to_str: the discriminator's name, then per member (in member-id
      order) its labels and its type line; a member without labels still
      gets its type line. */
  function UnionText(n: TreeNode): string
  {
    var disc := if n.typ.UnionType? then n.typ.discriminator else Basic(NoneKind);
    "union " + n.typeKindName + " switch (" + TypeName(disc) + ")" + TypeOpening + CaseLines(AllMembers(n.typ)) + TypeClosure
  }

  function CaseLines(ms: seq<Member>): string
  {
    if ms == [] then "" else CaseText(ms[0]) + CaseLines(ms[1..])
  }

  /** One union member: its labels, then its type line. */
  function CaseText(m: Member): string
  {
    Labels(m.labels, true) + "\n" + Tab + Tab + TypeName(m.typ) + " " + m.name + ";\n"
  }

  /** "case l:" per label, the first after a tab, the others after a space. */
  function Labels(labels: seq<int>, first: bool): string
  {
    if labels == [] then ""
    else (if first then Tab else " ") + "case " + IntToString(labels[0]) + ":" + Labels(labels[1..], false)
  }

  /** The member lines of a struct: one NodeLine per branch, each closed by ";\n". */
  lemma {:induction false} FieldLinesPerBranch(bs: seq<TreeNode>)
    ensures FieldLines(bs) == Concat(seq(|bs|, i requires 0 <= i < |bs| => NodeLine(bs[i]) + ";\n"))
  {
    if bs != [] {
      FieldLinesPerBranch(bs[1..]);
      var lines := seq(|bs|, i requires 0 <= i < |bs| => NodeLine(bs[i]) + ";\n");
      assert lines[1..] == seq(|bs| - 1, i requires 0 <= i < |bs| - 1 => NodeLine(bs[1..][i]) + ";\n");
    }
  }

  /** A generated struct node has one branch per member of the type, in
      member-id order, each the subtree of that member. */
  lemma StructBranchesFollowMembers(t: DynType, memberName: string)
    requires t.StructType?
    ensures var root := GenerateTree(t, memberName);
      var ms := AllMembers(t);
      |root.branches| == |ms| &&
      forall i :: 0 <= i < |ms| ==> root.branches[i] == GenerateTree(ms[i].typ, ms[i].name)
  {
    var root := GenerateTree(t, memberName);
    var sorted := MembersSorted(t);
    assert root.branches == seq(|sorted|, i requires 0 <= i < |sorted| => MemberTree(t, sorted, i));
    forall i | 0 <= i < |root.branches|
      ensures root.branches[i] == GenerateTree(AllMembers(t)[i].typ, AllMembers(t)[i].name)
    {
      assert root.branches[i] == MemberTree(t, sorted, i);
    }
  }

  /** The other nodes of a generated tree: an array or sequence node has the
      single branch "CONTAINER_MEMBER" for its element type; every node whose
      kind is neither a structure nor a container, an alias included, is a leaf. */
  lemma GenerateTreeBranches(t: DynType, memberName: string)
    ensures (t.ArrayType? || t.SequenceType?) ==>
      GenerateTree(t, memberName).branches == [GenerateTree(ElementType(t), "CONTAINER_MEMBER")]
    ensures !t.StructType? && !t.ArrayType? && !t.SequenceType? ==> GenerateTree(t, memberName).branches == []
  {
  }

  /** struct_to_str of a generated struct node: its name, then one line per
      branch (so per member, StructBranchesFollowMembers), then the closure. */
  lemma StructTextLines(t: DynType, memberName: string)
    requires t.StructType?
    ensures var bs := GenerateTree(t, memberName).branches;
      StructText(GenerateTree(t, memberName)) ==
        "struct " + t.name + TypeOpening + Concat(seq(|bs|, i requires 0 <= i < |bs| => NodeLine(bs[i]) + ";\n")) + TypeClosure
  {
    FieldLinesPerBranch(GenerateTree(t, memberName).branches);
  }


  /** enum_to_str lists the names of exactly the enum's literals, in
      member-id order. */
  lemma EnumListsLiteralsById(t: DynType)
    requires t.EnumType?
    ensures var names := LiteralNames(AllMembers(t));
      SortedById(AllMembers(t)) && |names| == |t.literals| &&
      forall name :: name in names <==> exists m :: m in t.literals && m.name == name
  {
    var ms := AllMembers(t);
    var names := LiteralNames(ms);
    ByIdSameMembers(t.literals);
    assert multiset(ms) == multiset(t.literals);
    assert |ms| == |multiset(ms)| == |multiset(t.literals)| == |t.literals|;
    forall name
      ensures name in names <==> exists m :: m in t.literals && m.name == name
    {
      if name in names {
        var i :| 0 <= i < |names| && names[i] == name;
        assert ms[i] in ms;
      }
      if exists m :: m in t.literals && m.name == name {
        var m :| m in t.literals && m.name == name;
        var i :| 0 <= i < |ms| && ms[i] == m;
        assert names[i] == name;
      }
    }
  }

  /** union_to_str writes one case block per member, in the order given. */
  lemma {:induction false} CaseLinesPerMember(ms: seq<Member>)
    ensures CaseLines(ms) == Concat(seq(|ms|, i requires 0 <= i < |ms| => CaseText(ms[i])))
  {
    if ms != [] {
      CaseLinesPerMember(ms[1..]);
      var blocks := seq(|ms|, i requires 0 <= i < |ms| => CaseText(ms[i]));
      assert blocks[1..] == seq(|ms| - 1, i requires 0 <= i < |ms| - 1 => CaseText(ms[1..][i]));
    }
  }

  // --------------------------------------------------------------- schema

  /** The kinds the first pass writes a definition for. */
  predicate IsWritable(n: TreeNode)
  {
    n.typ.StructType? || n.typ.EnumType? || n.typ.UnionType?
  }

  function Definition(n: TreeNode): string
  {
    if n.typ.StructType? then StructText(n)
    else if n.typ.EnumType? then EnumText(n)
    else if n.typ.UnionType? then UnionText(n)
    else ""
  }

  /** The nodes the first pass writes, in order: each writable node whose
      name is not yet in `seen`, which it then adds. */
  function Written(nodes: seq<TreeNode>, seen: set<string>): seq<TreeNode>
  {
    if nodes == [] then []
    else if nodes[0].typeKindName !in seen && IsWritable(nodes[0]) then
      [nodes[0]] + Written(nodes[1..], seen + {nodes[0].typeKindName})
    else Written(nodes[1..], seen)
  }

  function Concat(parts: seq<string>): string
  {
    if parts == [] then "" else parts[0] + Concat(parts[1..])
  }

  lemma {:induction false} ConcatAppend(parts: seq<string>, p: string)
    ensures Concat(parts + [p]) == Concat(parts) + p
  {
    if parts == [] {
      assert parts + [p] == [p];
    } else {
      assert (parts + [p])[1..] == parts[1..] + [p];
      ConcatAppend(parts[1..], p);
    }
  }

  /** The definitions of `ws`, each followed by a blank line. */
  function Definitions(ws: seq<TreeNode>): (r: seq<string>)
    ensures |r| == |ws|
  {
    seq(|ws|, i requires 0 <= i < |ws| => Definition(ws[i]) + "\n")
  }

  function Render(ws: seq<TreeNode>): string
  {
    Concat(Definitions(ws))
  }

  lemma RenderAppend(ws: seq<TreeNode>, w: TreeNode)
    ensures Render(ws + [w]) == Render(ws) + (Definition(w) + "\n")
  {
    assert Definitions(ws + [w]) == Definitions(ws) + [Definition(w) + "\n"];
    ConcatAppend(Definitions(ws), Definition(w) + "\n");
  }

  function Names(ws: seq<TreeNode>): set<string>
  {
    set w | w in ws :: w.typeKindName
  }

  /** The first pass writes only writable nodes, each name at most once and
      none already seen. */
  lemma {:induction false} WrittenOnce(nodes: seq<TreeNode>, seen: set<string>)
    ensures forall w :: w in Written(nodes, seen) ==> IsWritable(w) && w in nodes && w.typeKindName !in seen
    ensures forall i, j :: 0 <= i < j < |Written(nodes, seen)| ==>
      Written(nodes, seen)[i].typeKindName != Written(nodes, seen)[j].typeKindName
  {
    if nodes != [] {
      var n := nodes[0];
      if n.typeKindName !in seen && IsWritable(n) {
        var seen' := seen + {n.typeKindName};
        WrittenOnce(nodes[1..], seen');
        var ws := Written(nodes, seen);
        assert ws == [n] + Written(nodes[1..], seen');
        forall i, j | 0 <= i < j < |ws|
          ensures ws[i].typeKindName != ws[j].typeKindName
        {
          assert ws[j] == Written(nodes[1..], seen')[j - 1];
          if i > 0 {
            assert ws[i] == Written(nodes[1..], seen')[i - 1];
          }
        }
      } else {
        WrittenOnce(nodes[1..], seen);
      }
    }
  }

  /** Every writable node whose name was not seen before has its name
      written, by the first writable node with that name. */
  lemma {:induction false} WrittenFirstSeen(nodes: seq<TreeNode>, seen: set<string>, i: nat)
    requires i < |nodes| && IsWritable(nodes[i]) && nodes[i].typeKindName !in seen
    ensures exists j :: (0 <= j <= i && nodes[j] in Written(nodes, seen) &&
      nodes[j].typeKindName == nodes[i].typeKindName &&
      (forall k :: 0 <= k < j && IsWritable(nodes[k]) ==> nodes[k].typeKindName != nodes[i].typeKindName))
  {
    var n := nodes[0];
    var name := nodes[i].typeKindName;
    if n.typeKindName !in seen && IsWritable(n) && n.typeKindName == name {
      assert nodes[0] in Written(nodes, seen);
    } else {
      var seen' := if n.typeKindName !in seen && IsWritable(n) then seen + {n.typeKindName} else seen;
      assert Written(nodes, seen) == (if seen' == seen then [] else [n]) + Written(nodes[1..], seen');
      assert i > 0;
      assert nodes[1..][i - 1] == nodes[i];
      WrittenFirstSeen(nodes[1..], seen', i - 1);
      var j :| 0 <= j <= i - 1 && nodes[1..][j] in Written(nodes[1..], seen') &&
        nodes[1..][j].typeKindName == name &&
        (forall k :: 0 <= k < j && IsWritable(nodes[1..][k]) ==> nodes[1..][k].typeKindName != name);
      forall k | 0 <= k < j + 1 && IsWritable(nodes[k])
        ensures nodes[k].typeKindName != name
      {
        if k > 0 {
          assert nodes[k] == nodes[1..][k - 1];
        }
      }
      assert nodes[j + 1] == nodes[1..][j];
    }
  }

  /** One step of the first pass: the node at `i` is written next when it
      is writable and its name has not been written yet. */
  lemma {:induction false} WrittenStep(nodes: seq<TreeNode>, i: nat, written: set<string>, emitted: seq<TreeNode>)
    requires i < |nodes|
    requires Written(nodes, {}) == emitted + Written(nodes[i..], written)
    ensures nodes[i].typeKindName !in written && IsWritable(nodes[i]) ==>
      Written(nodes, {}) == (emitted + [nodes[i]]) + Written(nodes[i + 1..], written + {nodes[i].typeKindName})
    ensures !(nodes[i].typeKindName !in written && IsWritable(nodes[i])) ==>
      Written(nodes, {}) == emitted + Written(nodes[i + 1..], written)
  {
    assert nodes[i..][0] == nodes[i];
    assert nodes[i..][1..] == nodes[i + 1..];
    var name := nodes[i].typeKindName;
    if name !in written && IsWritable(nodes[i]) {
      var rest := Written(nodes[i + 1..], written + {name});
      assert emitted + ([nodes[i]] + rest) == (emitted + [nodes[i]]) + rest;
    }
  }

  /** After the last node, the first pass has written exactly `emitted`. */
  lemma WrittenEnd(nodes: seq<TreeNode>, written: set<string>, emitted: seq<TreeNode>)
    requires Written(nodes, {}) == emitted + Written(nodes[|nodes|..], written)
    ensures Written(nodes, {}) == emitted
  {
    assert nodes[|nodes|..] == [];
    assert emitted + [] == emitted;
  }

  /** generate_dyn_type_schema_from_tree: the first pass over all nodes,
      then the root's struct definition. */
  method SchemaFromTree(root: TreeNode) returns (s: string)
    ensures s == Render(Written(AllNodes(root), {})) + StructText(root)
  {
    var nodes := AllNodes(root);
    var written: set<string> := {};
    s := "";
    ghost var emitted: seq<TreeNode> := [];
    for i := 0 to |nodes|
      invariant Written(nodes, {}) == emitted + Written(nodes[i..], written)
      invariant s == Render(emitted)
    {
      var node := nodes[i];
      WrittenStep(nodes, i, written, emitted);
      if node.typeKindName !in written {
        var text: string;
        if node.typ.StructType? {
          text := StructText(node);
        } else if node.typ.EnumType? {
          text := EnumText(node);
        } else if node.typ.UnionType? {
          text := UnionText(node);
        } else {
          continue;
        }
        RenderAppend(emitted, node);
        s := s + (text + "\n");  // a blank line between definitions
        written := written + {node.typeKindName};
        emitted := emitted + [node];
      }
    }
    WrittenEnd(nodes, written, emitted);
    s := s + StructText(root);
  }

  /** generate_idl_schema: the schema of the tree rooted at "PARENT". */
  method GenerateIdlSchema(t: DynType) returns (s: string)
    ensures s == Render(Written(AllNodes(GenerateTree(t, "PARENT")), {})) + StructText(GenerateTree(t, "PARENT"))
  {
    var tree := GenerateTree(t, "PARENT");
    s := SchemaFromTree(tree);
  }

  /** A struct root is the first node written, so its definition opens the
      schema and is repeated at its end. */
  lemma RootStructWrittenFirst(t: DynType)
    requires t.StructType?
    ensures var root := GenerateTree(t, "PARENT");
      Written(AllNodes(root), {}) != [] && Written(AllNodes(root), {})[0] == root
  {
  }
}
