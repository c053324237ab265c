/** Properties of the JSON serializer model: which members end up in the
    document and under which keys, the first-failure rule of every member
    loop, the nesting of multi-dimensional arrays, and the top-level entry
    point. Each follows from the generic loop laws of MemberLoops applied to
    what the model serializes per member (ByMember, ByItemId). */
module JsonLaws {
  import opened Text
  import opened DynTypes
  import opened JsonValue
  import opened ReturnCodes
  import opened DynDataModel
  import opened MemberLoops
  import opened JsonModel

  /** The names of a type's members. */
  function DeclaredNames(t: DynType): set<string>
  {
    set m | m in DeclaredMembers(t) :: m.name
  }

  lemma AllMembersNames(t: DynType)
    ensures Keys(NameOf, AllMembers(t)) == DeclaredNames(t)
  {
    var ms := AllMembers(t);
    ByIdSameMembers(DeclaredMembers(t));
    forall m | m in DeclaredMembers(t)
      ensures m.name in Keys(NameOf, ms)
    {
      var i :| 0 <= i < |ms| && ms[i] == m;
      assert NameOf(ms[i]) == m.name;
    }
  }

  // ----------------------------------------------------------- entry point

  /** json_serialize fails exactly when the value is null, its type is not a
      structure, or one of its members fails; it then reports the error of
      the first failing member in member-id order. */
  lemma SerializeOutcome(data: DataRef, out: Json, fmt: JsonFormat)
    requires Insertable(out)
    ensures data.Null? || Kind(data.data.typ) != Structure ==> Serialize(data, out, fmt) == (BadParameter, out)
    ensures data.Ref? && Kind(data.data.typ) == Structure ==>
      var ms := AllMembers(data.data.typ);
      var f := ByMember(data.data, fmt);
      (Serialize(data, out, fmt).0 == Ok <==> AllSucceed(f, ms)) &&
      (!AllSucceed(f, ms) ==> Serialize(data, out, fmt).0 == TypedMemberValue(data.data, ms[FirstFailure(f, ms)], fmt).error)
  {
    if data.Ref? && Kind(data.data.typ) == Structure {
      InsertFoldOutcome(NameOf, ByMember(data.data, fmt), AllMembers(data.data.typ), out);
    }
  }

  /** json_serialize of a struct whose members all serialize and have
      distinct names, into an object or empty document: each member's value
      is written under its name, every other key of the document is kept and
      no key but the member names is added. */
  lemma SerializeWritesEveryMember(d: DynData, out: Json, fmt: JsonFormat)
    requires Kind(d.typ) == Structure && Insertable(out) && !out.JArray?
    requires AllSucceed(ByMember(d, fmt), AllMembers(d.typ))
    requires DistinctKeys(NameOf, AllMembers(d.typ))
    ensures Serialize(Ref(d), out, fmt).0 == Ok
    ensures ObjectKeys(Serialize(Ref(d), out, fmt).1) == ObjectKeys(out) + DeclaredNames(d.typ)
    ensures HoldsValues(NameOf, ByMember(d, fmt), AllMembers(d.typ), Serialize(Ref(d), out, fmt).1)
    ensures KeepsOthers(out, Serialize(Ref(d), out, fmt).1, DeclaredNames(d.typ))
  {
    var ms := AllMembers(d.typ);
    InsertFoldOutcome(NameOf, ByMember(d, fmt), ms, out);
    InsertFoldObject(NameOf, ByMember(d, fmt), ms, out);
    AllMembersNames(d.typ);
  }

  /** A member `id` of an aggregated or collection kind that `d` does not
      hold as a nested value cannot be loaned and fails with BAD_PARAMETER. */
  lemma UnloanableMemberFails(d: DynData, id: nat, kind: TypeKind, fmt: JsonFormat)
    requires kind.Structure? || kind.Bitset? || kind.Union? || kind.Sequence? || kind.Array? || kind.Map?
    requires NoItemWithId(d.items, id)
    ensures MemberValue(d, id, kind, fmt) == Failure(BadParameter)
  {
    LoanTargetFirst(d, id);
  }

  // --------------------------------------------------------------- structs

  /** A struct or bitset member is written as the object of its own members,
      built by the same loop as the entry point, starting from a null document. */
  lemma StructValueLaw(c: DynData, fmt: JsonFormat)
    ensures var ms := AllMembers(Enclosing(c));
      var f := ByMember(c, fmt);
      (StructValue(c, fmt).Success? <==> AllSucceed(f, ms)) &&
      (!AllSucceed(f, ms) ==> StructValue(c, fmt).error == TypedMemberValue(c, ms[FirstFailure(f, ms)], fmt).error)
    ensures var ms := AllMembers(Enclosing(c));
      AllSucceed(ByMember(c, fmt), ms) && DistinctKeys(NameOf, ms) ==>
      ObjectKeys(StructValue(c, fmt).value) == DeclaredNames(Enclosing(c)) &&
      HoldsValues(NameOf, ByMember(c, fmt), ms, StructValue(c, fmt).value)
  {
    var ms := AllMembers(Enclosing(c));
    InsertFoldOutcome(NameOf, ByMember(c, fmt), ms, JNull);
    if AllSucceed(ByMember(c, fmt), ms) && DistinctKeys(NameOf, ms) {
      InsertFoldObject(NameOf, ByMember(c, fmt), ms, JNull);
      AllMembersNames(Enclosing(c));
    }
  }

  // ---------------------------------------------------------------- unions

  /** A union is written as an object with the single key of its selected
      member; a selection no member has fails with BAD_PARAMETER. */
  lemma UnionSelectsActiveMember(c: DynData, fmt: JsonFormat)
    ensures NoMemberWithId(AllMembers(Enclosing(c)), c.selected) ==> UnionValue(c, fmt) == Failure(BadParameter)
    ensures UnionValue(c, fmt).Success? ==>
      exists m :: m in DeclaredMembers(Enclosing(c)) && m.id == c.selected &&
        TypedMemberValue(c, m, fmt).Success? &&
        UnionValue(c, fmt).value == JObject(map[m.name := TypedMemberValue(c, m, fmt).value])
  {
    var ms := AllMembers(Enclosing(c));
    var k := FindMember(ms, c.selected);
    FindMemberFirst(ms, c.selected);
    if k >= 0 {
      ByIdSameMembers(DeclaredMembers(Enclosing(c)));
      assert ms[k] in ms;
    }
  }

  // ------------------------------------------------------------- sequences

  /** A sequence is written as the array of its items' values in id order,
      or fails with the error of its first failing item. The element kind is
      not alias-resolved, so a non-empty sequence of an alias type fails with
      BAD_PARAMETER. */
  lemma SequenceValue(c: DynData, fmt: JsonFormat)
    requires Enclosing(c).SequenceType?
    ensures var f := ByItemId(c, Kind(ElementType(Enclosing(c))), fmt);
      var n := |c.items|;
      (CollectionValue(c, fmt).Success? <==> ItemsSucceed(f, 0, n)) &&
      (ItemsSucceed(f, 0, n) ==> CollectionValue(c, fmt).value == JArray(ItemValues(f, 0, n))) &&
      (!ItemsSucceed(f, 0, n) ==> CollectionValue(c, fmt).error == f(FirstFailingItem(f, 0, n)).error)
    ensures ElementType(Enclosing(c)).AliasOf? && |c.items| > 0 ==> CollectionValue(c, fmt) == Failure(BadParameter)
  {
    var f := ByItemId(c, Kind(ElementType(Enclosing(c))), fmt);
    ItemsFoldOutcome(f, 0, |c.items|, []);
    if ItemsSucceed(f, 0, |c.items|) {
      assert [] + ItemValues(f, 0, |c.items|) == ItemValues(f, 0, |c.items|);
    }
  }

  // ---------------------------------------------------------------- arrays

  /** An array is written as its Product(bounds) elements nested by its
      dimensions, or fails with the error of its first failing element. */
  lemma ArrayValue(c: DynData, fmt: JsonFormat)
    requires Enclosing(c).ArrayType?
    ensures Bounds(Enclosing(c)) == [] ==> CollectionValue(c, fmt) == Success(JArray([]))
    ensures var bounds := Bounds(Enclosing(c));
      var f := ByItemId(c, Kind(ElementType(Enclosing(c))), fmt);
      bounds != [] ==>
      (CollectionValue(c, fmt).Success? <==> ItemsSucceed(f, 0, Product(bounds))) &&
      (ItemsSucceed(f, 0, Product(bounds)) ==>
        CollectionValue(c, fmt).value == JArray(Nest(ItemValues(f, 0, Product(bounds)), bounds))) &&
      (!ItemsSucceed(f, 0, Product(bounds)) ==>
        CollectionValue(c, fmt).error == f(FirstFailingItem(f, 0, Product(bounds))).error)
  {
    var bounds := Bounds(Enclosing(c));
    var f := ByItemId(c, Kind(ElementType(Enclosing(c))), fmt);
    var res := ArrayFold(f, 0, bounds, []);
    assert CollectionValue(c, fmt) == if res.0 == Ok then Success(JArray(res.1)) else Failure(res.0);
    if bounds != [] {
      ArrayFoldFromStart(f, bounds);
    }
  }

  // ------------------------------------------------------------------ maps

  /** A map is written as an object with one key per entry, the entry's
      member id in decimal (each reads back as that id, IdKeysReadBack),
      holding the entry's value. It fails exactly when some entry fails. */
  lemma MapValueKeys(c: DynData, fmt: JsonFormat)
    requires forall i, j :: 0 <= i < j < |c.items| ==> c.items[i].id != c.items[j].id
    ensures var f := ByItemId(c, Kind(Resolve(ElementType(Enclosing(c)))), fmt);
      MapValue(c, fmt).Success? <==> AllSucceed(f, ItemIds(c.items))
    ensures var f := ByItemId(c, Kind(Resolve(ElementType(Enclosing(c)))), fmt);
      var ids := ItemIds(c.items);
      MapValue(c, fmt).Success? ==>
      ObjectKeys(MapValue(c, fmt).value) == Keys(NatToString, ids) &&
      HoldsValues(NatToString, f, ids, MapValue(c, fmt).value)
  {
    var f := ByItemId(c, Kind(Resolve(ElementType(Enclosing(c)))), fmt);
    var ids := ItemIds(c.items);
    var res := InsertFold(NatToString, f, ids, JNull);
    assert MapValue(c, fmt) == if res.0 == Ok then Success(res.1) else Failure(res.0);
    assert DistinctKeys(NatToString, ids) by {
      ItemIdsAt(c.items);
      DistinctIdsDistinctKeys(ids);
    }
    InsertFoldFromNull(NatToString, f, ids);
  }
}
