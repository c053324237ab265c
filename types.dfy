/** The type descriptor model: the closed set of type kinds, type
    descriptors with their members, alias resolution and the by-id member
    order that get_all_members yields (a std::map keyed by MemberId). */
module DynTypes {

  /** The TK_* kinds the two engines dispatch on. */
  datatype TypeKind =
    | NoneKind | Boolean | Byte
    | Int8 | Int16 | Int32 | Int64
    | UInt8 | UInt16 | UInt32 | UInt64
    | Float32 | Float64 | Float128
    | Char8 | Char16 | String8 | String16
    | Alias | Enum | Bitmask | Annotation
    | Structure | Union | Bitset
    | Sequence | Array | Map
  {
    /** Kinds whose descriptor carries nothing the engines read beyond the kind. */
    predicate IsSimple() {
      !(Alias? || Enum? || Bitmask? || Structure? || Union? || Bitset? || Sequence? || Array? || Map?)
    }
    predicate IsInteger() {
      Byte? || Int8? || Int16? || Int32? || Int64? || UInt8? || UInt16? || UInt32? || UInt64?
    }
    predicate IsFloat() { Float32? || Float64? || Float128? }
  }

  type SimpleKind = k: TypeKind | k.IsSimple() witness Boolean

  /** One member descriptor: a struct field, a union case, an enum literal
      (whose default value is its numeric value as text) or a bitmask flag
      (whose id is its bit position). */
  datatype Member = Member(id: nat, name: string, typ: DynType, defaultValue: string, labels: seq<int>)

  /** A type descriptor. Each constructor carries the descriptor fields its
      kind uses: the name, the element and key types, the bounds, the
      discriminator and the members. */
  datatype DynType =
    | Basic(kind: SimpleKind)
    | AliasOf(name: string, base: DynType)
    | EnumType(name: string, literals: seq<Member>)
    | BitmaskType(name: string, bound: nat, flags: seq<Member>)
    | StructType(name: string, members: seq<Member>)
    | UnionType(name: string, discriminator: DynType, cases: seq<Member>)
    | BitsetType(name: string, fields: seq<Member>)
    | SequenceType(element: DynType, bounds: seq<nat>)
    | ArrayType(element: DynType, bounds: seq<nat>)
    | MapType(key: DynType, element: DynType, bounds: seq<nat>)

  /** get_kind(): the kind of the descriptor itself, aliases not resolved. */
  function Kind(t: DynType): (k: TypeKind)
    ensures k.IsSimple() <==> t.Basic?
    ensures k == Structure <==> t.StructType?
    ensures k == Alias <==> t.AliasOf?
  {
    match t
    case Basic(k) => k
    case AliasOf(_, _) => Alias
    case EnumType(_, _) => Enum
    case BitmaskType(_, _, _) => Bitmask
    case StructType(_, _) => Structure
    case UnionType(_, _, _) => Union
    case BitsetType(_, _) => Bitset
    case SequenceType(_, _) => Sequence
    case ArrayType(_, _) => Array
    case MapType(_, _, _) => Map
  }

  /** resolve_alias_enclosed_type(): follow alias hops to the first non-alias type. */
  function Resolve(t: DynType): (r: DynType)
    ensures !r.AliasOf?
    ensures !t.AliasOf? ==> r == t
  {
    if t.AliasOf? then Resolve(t.base) else t
  }

  /** get_all_members() as declared (before ordering): the members of an
      aggregated, enumerated or bitmask type, none for any other type. */
  function DeclaredMembers(t: DynType): seq<Member>
  {
    match t
    case EnumType(_, lits) => lits
    case BitmaskType(_, _, flags) => flags
    case StructType(_, ms) => ms
    case UnionType(_, _, cs) => cs
    case BitsetType(_, fs) => fs
    case _ => []
  }

  /** element_type() of a collection; a type with no element type reads as TK_NONE. */
  function ElementType(t: DynType): DynType
  {
    match t
    case SequenceType(e, _) => e
    case ArrayType(e, _) => e
    case MapType(_, e, _) => e
    case _ => Basic(NoneKind)
  }

  predicate IsCollection(t: DynType)
  {
    t.SequenceType? || t.ArrayType? || t.MapType?
  }

  /** bound() of a descriptor: per dimension for collections, the bit bound of a bitmask. */
  function Bounds(t: DynType): seq<nat>
  {
    match t
    case SequenceType(_, b) => b
    case ArrayType(_, b) => b
    case MapType(_, _, b) => b
    case BitmaskType(_, b, _) => [b]
    case _ => []
  }

  predicate SortedById(ms: seq<Member>)
  {
    forall i, j :: 0 <= i < j < |ms| ==> ms[i].id <= ms[j].id
  }

  function InsertById(m: Member, sorted: seq<Member>): (r: seq<Member>)
    requires SortedById(sorted)
    ensures SortedById(r)
    ensures multiset(r) == multiset(sorted) + multiset{m}
  {
    if sorted == [] then [m]
    else if m.id <= sorted[0].id then [m] + sorted
    else
      var rest := InsertById(m, sorted[1..]);
      InsertByIdStep(m, sorted, rest);
      [sorted[0]] + rest
  }

  lemma InsertByIdStep(m: Member, sorted: seq<Member>, rest: seq<Member>)
    requires SortedById(sorted) && sorted != [] && sorted[0].id < m.id
    requires SortedById(rest)
    requires multiset(rest) == multiset(sorted[1..]) + multiset{m}
    ensures SortedById([sorted[0]] + rest)
    ensures multiset([sorted[0]] + rest) == multiset(sorted) + multiset{m}
  {
    assert sorted == [sorted[0]] + sorted[1..];
    forall j | 0 <= j < |rest|
      ensures sorted[0].id <= rest[j].id
    {
      assert rest[j] in multiset(rest);
      if rest[j] != m {
        assert rest[j] in multiset(sorted[1..]);
        var k :| 0 <= k < |sorted[1..]| && sorted[1..][k] == rest[j];
        assert sorted[k + 1] == rest[j];
      }
    }
    var r := [sorted[0]] + rest;
    forall i, j | 0 <= i < j < |r|
      ensures r[i].id <= r[j].id
    {
      if i > 0 {
        assert r[i] == rest[i - 1] && r[j] == rest[j - 1];
      } else {
        assert r[j] == rest[j - 1];
      }
    }
  }

  /** The iteration order of the std::map<MemberId, ...> that get_all_members
      fills: the same members, ordered by id. */
  function ById(ms: seq<Member>): (r: seq<Member>)
    ensures SortedById(r)
    ensures multiset(r) == multiset(ms)
  {
    if ms == [] then []
    else
      assert ms == [ms[0]] + ms[1..];
      InsertById(ms[0], ById(ms[1..]))
  }

  /** The key a struct member is written under. */
  function NameOf(m: Member): string
  {
    m.name
  }

  /** get_all_members(): the members of `t` in member-id order. */
  function AllMembers(t: DynType): seq<Member>
  {
    ById(DeclaredMembers(t))
  }

  predicate NoMemberWithId(ms: seq<Member>, id: nat)
  {
    forall i :: 0 <= i < |ms| ==> ms[i].id != id
  }

  /** Member lookup by id (get_member): the position of the first member with
      that id, or -1 (FindMemberFirst). */
  function FindMember(ms: seq<Member>, id: nat): (k: int)
    ensures -1 <= k < |ms|
    ensures k >= 0 ==> ms[k].id == id
  {
    if ms == [] then -1
    else if ms[0].id == id then 0
    else
      var k := FindMember(ms[1..], id);
      if k < 0 then -1 else k + 1
  }

  /** FindMember finds the first member with the id, and -1 means there is none. */
  lemma {:induction false} FindMemberFirst(ms: seq<Member>, id: nat)
    ensures FindMember(ms, id) >= 0 ==> NoMemberWithId(ms[..FindMember(ms, id)], id)
    ensures FindMember(ms, id) < 0 <==> NoMemberWithId(ms, id)
  {
    if ms != [] && ms[0].id != id {
      FindMemberFirst(ms[1..], id);
      var k := FindMember(ms[1..], id);
      if k >= 0 {
        assert ms[..k + 1] == [ms[0]] + ms[1..][..k];
      } else {
        assert forall i :: 1 <= i < |ms| ==> ms[i] == ms[1..][i - 1];
      }
    }
  }

  /** Members of a type ordered by id are exactly its declared members. */
  lemma ByIdSameMembers(ms: seq<Member>)
    ensures forall m :: m in ById(ms) <==> m in ms
  {
    forall m
      ensures m in ById(ms) <==> m in ms
    {
      assert m in ById(ms) <==> m in multiset(ById(ms));
    }
  }
}
