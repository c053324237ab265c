/** Return codes shared by the serializer and the value accessor. */
module ReturnCodes {

  datatype RetCode = Ok | BadParameter | PreconditionNotMet

  datatype Result<T> = Success(value: T) | Failure(error: RetCode)
}

/** The dynamic value the serializer reads: a tree whose nodes carry their
    type and their members (or collection items) keyed by member id, and the
    read-only accessor operations the serializer calls on it. */
module DynDataModel {
  import opened DynTypes
  import opened JsonValue
  import opened ReturnCodes

  type IntKind = k: TypeKind | k.IsInteger() witness Int32
  type FloatKind = k: TypeKind | k.IsFloat() witness Float32

  /** A stored primitive value. Wide characters are code points. */
  datatype Scalar =
    | BoolVal(b: bool)
    | IntVal(ikind: IntKind, i: int)
    | FloatVal(fkind: FloatKind, f: FloatBits)
    | Char8Val(c: char)
    | Char16Val(w: nat)
    | String8Val(s: string)
    | String16Val(ws: seq<nat>)

  /** The kind a stored primitive answers to. */
  function ScalarKind(s: Scalar): TypeKind
  {
    match s
    case BoolVal(_) => Boolean
    case IntVal(k, _) => k
    case FloatVal(k, _) => k
    case Char8Val(_) => Char8
    case Char16Val(_) => Char16
    case String8Val(_) => String8
    case String16Val(_) => String16
  }

  /** A dynamic value: its declared type, the selected member of a union and
      the stored members (struct fields, union case, collection items or map
      entries), each under its member id. */
  datatype DynData = DynData(typ: DynType, selected: nat, items: seq<Item>)
  datatype Item = Item(id: nat, slot: Slot)
  datatype Slot = Value(scalar: Scalar) | Nested(data: DynData)

  /** enclosing_type(): the value's type with aliases resolved. */
  function Enclosing(d: DynData): DynType
  {
    Resolve(d.typ)
  }

  predicate NoItemWithId(items: seq<Item>, id: nat)
  {
    forall i :: 0 <= i < |items| ==> items[i].id != id
  }

  /** The position of the first stored member with the given id, or -1
      (FindItemFirst). */
  function FindItem(items: seq<Item>, id: nat): (k: int)
    ensures -1 <= k < |items|
    ensures k >= 0 ==> items[k].id == id
  {
    if items == [] then -1
    else if items[0].id == id then 0
    else
      var k := FindItem(items[1..], id);
      if k < 0 then -1 else k + 1
  }

  /** FindItem finds the first stored member with the id, and -1 means there is none. */
  lemma {:induction false} FindItemFirst(items: seq<Item>, id: nat)
    ensures FindItem(items, id) >= 0 ==> NoItemWithId(items[..FindItem(items, id)], id)
    ensures FindItem(items, id) < 0 <==> NoItemWithId(items, id)
  {
    if items != [] && items[0].id != id {
      FindItemFirst(items[1..], id);
      var k := FindItem(items[1..], id);
      if k >= 0 {
        assert items[..k + 1] == [items[0]] + items[1..][..k];
      } else {
        assert forall i :: 1 <= i < |items| ==> items[i] == items[1..][i - 1];
      }
    }
  }

  /** The member ids of the stored members, in storage order. */
  function ItemIds(items: seq<Item>): (ids: seq<nat>)
    ensures |ids| == |items|
  {
    if items == [] then [] else [items[0].id] + ItemIds(items[1..])
  }

  lemma {:induction false} ItemIdsAt(items: seq<Item>)
    ensures forall i :: 0 <= i < |items| ==> ItemIds(items)[i] == items[i].id
  {
    if items != [] {
      ItemIdsAt(items[1..]);
      assert forall i :: 1 <= i < |items| ==> items[i] == items[1..][i - 1];
    }
  }

  /** Some stored member under `id` holds the primitive `s`. */
  predicate Stores(d: DynData, id: nat, s: Scalar)
  {
    exists k :: 0 <= k < |d.items| && d.items[k] == Item(id, Value(s))
  }

  /** Some stored member under `id` holds a primitive. */
  predicate HasScalar(d: DynData, id: nat)
  {
    exists k :: 0 <= k < |d.items| && d.items[k].id == id && d.items[k].slot.Value?
  }

  /** get_<kind>_value(value, id): the stored primitive of exactly that kind
      (GetScalarReadsStored). */
  function GetScalar(d: DynData, id: nat, kind: TypeKind): (r: Result<Scalar>)
    ensures r.Success? ==> ScalarKind(r.value) == kind
    ensures r.Failure? ==> r.error == BadParameter
  {
    var k := FindItem(d.items, id);
    if k < 0 then Failure(BadParameter)
    else match d.items[k].slot
      case Value(s) => if ScalarKind(s) == kind then Success(s) else Failure(BadParameter)
      case Nested(_) => Failure(BadParameter)
  }

  /** A successful read returns the primitive stored under the id, of the
      kind asked for; an id holding no primitive cannot be read. */
  lemma GetScalarReadsStored(d: DynData, id: nat, kind: TypeKind)
    ensures GetScalar(d, id, kind).Success? ==> Stores(d, id, GetScalar(d, id, kind).value)
    ensures !HasScalar(d, id) ==> GetScalar(d, id, kind).Failure?
  {
    var k := FindItem(d.items, id);
    if k >= 0 && d.items[k].slot.Value? {
      assert d.items[k] == Item(id, Value(d.items[k].slot.scalar));
    }
  }

  /** The stored member loan_value(id) hands out: the position of a nested
      value under that id, or -1 when there is none (a missing member or a
      primitive one); see LoanTargetFirst. */
  function LoanTarget(d: DynData, id: nat): (k: int)
    ensures -1 <= k < |d.items|
    ensures k >= 0 ==> d.items[k].id == id && d.items[k].slot.Nested?
  {
    var k := FindItem(d.items, id);
    if k >= 0 && d.items[k].slot.Nested? then k else -1
  }

  /** The loaned member is the first one stored under the id, and a value
      holding nothing under the id lends nothing. */
  lemma LoanTargetFirst(d: DynData, id: nat)
    ensures LoanTarget(d, id) >= 0 ==> NoItemWithId(d.items[..LoanTarget(d, id)], id)
    ensures NoItemWithId(d.items, id) ==> LoanTarget(d, id) < 0
  {
    FindItemFirst(d.items, id);
  }

  /** The type `t` declares a member with that id and that type. */
  predicate Declares(t: DynType, id: nat, typ: DynType)
  {
    exists m :: m in DeclaredMembers(t) && m.id == id && m.typ == typ
  }

  predicate DeclaresId(t: DynType, id: nat)
  {
    exists m :: m in DeclaredMembers(t) && m.id == id
  }

  /** get_descriptor(desc, id): the type of the enclosing type's member with
      that id; every item of a collection is described by the element type. */
  function DescriptorType(d: DynData, id: nat): (r: Result<DynType>)
    ensures r.Failure? ==> r.error == BadParameter
    ensures IsCollection(Enclosing(d)) ==> r == Success(ElementType(Enclosing(d)))
  {
    var t := Enclosing(d);
    if IsCollection(t) then Success(ElementType(t))
    else
      var ms := AllMembers(t);
      var k := FindMember(ms, id);
      if k < 0 then Failure(BadParameter) else Success(ms[k].typ)
  }

  /** Outside collections, a descriptor is found exactly for the ids the
      enclosing type declares, and it is that member's type. */
  lemma DescriptorTypeDeclared(d: DynData, id: nat)
    requires !IsCollection(Enclosing(d))
    ensures DescriptorType(d, id).Success? <==> DeclaresId(Enclosing(d), id)
    ensures DescriptorType(d, id).Success? ==> Declares(Enclosing(d), id, DescriptorType(d, id).value)
  {
    var t := Enclosing(d);
    var ms := AllMembers(t);
    ByIdSameMembers(DeclaredMembers(t));
    FindMemberFirst(ms, id);
    var k := FindMember(ms, id);
    if k >= 0 {
      assert ms[k] in DeclaredMembers(t);
    }
  }
}
