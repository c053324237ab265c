/** The DynamicData to JSON serializer as the program runs it: member loops
    that write into a JSON document step by step, nested members loaned from
    the value being serialized and handed back afterwards. Each method is
    proved to compute what the JsonModel functions define, and to leave the
    loans as it found them with every loan it took returned, innermost first. */
module JsonSerializer {
  import opened Text
  import opened DynTypes
  import opened JsonValue
  import opened ReturnCodes
  import opened DynDataModel
  import opened MemberLoops
  import opened JsonModel
  import opened Loans

  /** The public json_serialize: a null value or a value whose type is not a
      structure is rejected; otherwise each member, in id order, is written
      straight into `output` until one fails. */
  method JsonSerialize(ledger: LoanLedger, data: DataRef, output: Json, fmt: JsonFormat)
    returns (ret: RetCode, result: Json)
    requires Insertable(output) && ledger.OnlyAncestorsOf([])
    modifies ledger
    ensures (ret, result) == Serialize(data, output, fmt)
    ensures ledger.outstanding == old(ledger.outstanding)
    ensures ExtendsBalanced(old(ledger.log), ledger.log)
    ensures LentPaths(ledger.log[|old(ledger.log)|..]) == ReturnedPaths(ledger.log[|old(ledger.log)|..])
  {
    if data.Null? || Kind(data.data.typ) != Structure {
      ret, result := BadParameter, output;
      ExtendsBalancedRefl(ledger.log);
    } else {
      ret, result := SerializeMembers(ledger, data.data, [], AllMembers(data.data.typ), output, fmt);
    }
    BalancedPairsLoansWithReturns(ledger.log[|old(ledger.log)|..]);
  }

  /** The loop over a struct's members (or the top-level value's): each member
      inserted under its name into `output`, stopping at the first failure. */
  method SerializeMembers(ledger: LoanLedger, d: DynData, path: Path, ms: seq<Member>, output: Json, fmt: JsonFormat)
    returns (ret: RetCode, result: Json)
    requires Insertable(output) && ledger.OnlyAncestorsOf(path)
    modifies ledger
    ensures (ret, result) == InsertFold(NameOf, ByMember(d, fmt), ms, output)
    ensures ledger.outstanding == old(ledger.outstanding)
    ensures ExtendsBalanced(old(ledger.log), ledger.log)
    decreases d, 1
  {
    ret, result := Ok, output;
    ExtendsBalancedRefl(ledger.log);
    var i := 0;
    while i < |ms|
      invariant 0 <= i <= |ms| && Insertable(result)
      invariant InsertFold(NameOf, ByMember(d, fmt), ms, output) == InsertFold(NameOf, ByMember(d, fmt), ms[i..], result)
      invariant ledger.outstanding == old(ledger.outstanding) && ledger.OnlyAncestorsOf(path)
      invariant ExtendsBalanced(old(ledger.log), ledger.log)
    {
      ghost var mid := ledger.log;
      var r, next := SerializeTypedMember(ledger, d, path, ms[i], result, fmt);
      ExtendsBalancedTrans(old(ledger.log), mid, ledger.log);
      assert ms[i..][1..] == ms[i + 1..];
      if r != Ok {
        ret, result := r, next;
        return;
      }
      result := next;
      i := i + 1;
    }
    assert ms[i..] == [];
  }

  /** json_serialize_member on a member descriptor: the member's id, its
      alias-resolved kind and its name. */
  method SerializeTypedMember(ledger: LoanLedger, d: DynData, path: Path, m: Member, output: Json, fmt: JsonFormat)
    returns (ret: RetCode, result: Json)
    requires Insertable(output) && ledger.OnlyAncestorsOf(path)
    modifies ledger
    ensures (ret, result) == InsertFold(NameOf, ByMember(d, fmt), [m], output)
    ensures ledger.outstanding == old(ledger.outstanding)
    ensures ExtendsBalanced(old(ledger.log), ledger.log)
    decreases d, 0, 2
  {
    ret, result := SerializeMember(ledger, d, path, m.id, Kind(Resolve(m.typ)), m.name, output, fmt);
    assert [m][1..] == [];
  }

  /** json_serialize_member on an id, a kind and a name: primitives, enums
      and bitmasks are read directly; aggregates and collections are loaned,
      serialized and returned, the loan's own error giving way to an earlier
      one; an alias or any other kind fails. */
  method SerializeMember(ledger: LoanLedger, d: DynData, path: Path, id: nat, kind: TypeKind, name: string,
                         output: Json, fmt: JsonFormat)
    returns (ret: RetCode, result: Json)
    requires Insertable(output) && ledger.OnlyAncestorsOf(path)
    modifies ledger
    ensures (ret, result) == SerializeMemberInto(d, id, kind, name, output, fmt)
    ensures ledger.outstanding == old(ledger.outstanding)
    ensures ExtendsBalanced(old(ledger.log), ledger.log)
    decreases d, 0, 1
  {
    if IsBasicMemberKind(kind) {
      ret, result := SerializeBasicMember(d, id, kind, name, output, fmt);
      ExtendsBalancedRefl(ledger.log);
      return;
    }
    if !(kind.Structure? || kind.Bitset? || kind.Union? || kind.Sequence? || kind.Array? || kind.Map?) {
      ret, result := BadParameter, output;
      ExtendsBalancedRefl(ledger.log);
      return;
    }
    ret, result := SerializeLoanedMember(ledger, d, path, id, kind, name, output, fmt);
  }

  /** The aggregate and collection branches of json_serialize_member: loan
      the member, serialize it, return the loan, and let an error of the
      serialization take priority over one of the return. */
  method SerializeLoanedMember(ledger: LoanLedger, d: DynData, path: Path, id: nat, kind: TypeKind, name: string,
                               output: Json, fmt: JsonFormat)
    returns (ret: RetCode, result: Json)
    requires kind.Structure? || kind.Bitset? || kind.Union? || kind.Sequence? || kind.Array? || kind.Map?
    requires Insertable(output) && ledger.OnlyAncestorsOf(path)
    modifies ledger
    ensures (ret, result) == SerializeMemberInto(d, id, kind, name, output, fmt)
    ensures ledger.outstanding == old(ledger.outstanding)
    ensures ExtendsBalanced(old(ledger.log), ledger.log)
    decreases d, 0, 0
  {
    LoanedMemberInto(d, id, kind, name, output, fmt);
    ghost var before := ledger.log;
    LoanOfChildIsFresh(ledger.outstanding, path, id);
    var k := ledger.Lend(d, path, id);
    if k < 0 {
      ret, result := BadParameter, output;
      ExtendsBalancedRefl(ledger.log);
      return;
    }
    var inner := path + [id];
    var r;
    r, result := SerializeLoaned(ledger, d.items[k].slot.data, inner, kind, name, output, fmt);
    ghost var after := ledger.log;
    var rr := ledger.Return(path, id);
    // The loan taken above is still outstanding, so handing it back succeeds
    // and the priority between the two codes never comes into play.
    assert rr == Ok;
    ExtendsBalancedWrap(before, inner, after);
    ret := if r != Ok then r else rr;
  }

  lemma LoanedMemberInto(d: DynData, id: nat, kind: TypeKind, name: string, output: Json, fmt: JsonFormat)
    requires kind.Structure? || kind.Bitset? || kind.Union? || kind.Sequence? || kind.Array? || kind.Map?
    requires Insertable(output)
    ensures LoanTarget(d, id) < 0 ==> SerializeMemberInto(d, id, kind, name, output, fmt) == (BadParameter, output)
    ensures LoanTarget(d, id) >= 0 ==>
      var v := LoanedValue(d.items[LoanTarget(d, id)].slot.data, kind, fmt);
      SerializeMemberInto(d, id, kind, name, output, fmt) ==
        if v.Failure? then (v.error, output) else (Ok, Insert(name, v.value, output))
  {
  }

  /** What json_serialize_member does with a loaned member `c`: a struct,
      bitset, union or map is built in a fresh document and inserted under
      `name` once it has succeeded; a collection inserts its array itself. */
  method SerializeLoaned(ledger: LoanLedger, c: DynData, path: Path, kind: TypeKind, name: string,
                         output: Json, fmt: JsonFormat)
    returns (ret: RetCode, result: Json)
    requires Insertable(output) && ledger.OnlyAncestorsOf(path)
    modifies ledger
    ensures ret == Ok ==> LoanedValue(c, kind, fmt).Success? && result == Insert(name, LoanedValue(c, kind, fmt).value, output)
    ensures ret != Ok ==> LoanedValue(c, kind, fmt) == Failure(ret) && result == output
    ensures ledger.outstanding == old(ledger.outstanding)
    ensures ExtendsBalanced(old(ledger.log), ledger.log)
    decreases c, 3
  {
    if !(kind.Structure? || kind.Bitset? || kind.Union? || kind.Map?) {
      ret, result := SerializeCollection(ledger, c, path, name, output, fmt);
      return;
    }
    var value: Json;
    if kind.Structure? || kind.Bitset? {
      ret, value := SerializeMembers(ledger, c, path, AllMembers(Enclosing(c)), JNull, fmt);
    } else if kind.Union? {
      ret, value := SerializeUnion(ledger, c, path, fmt);
    } else {
      ret, value := SerializeMap(ledger, c, path, fmt);
    }
    result := if ret == Ok then Insert(name, value, output) else output;
  }

  /** json_serialize_basic_member: the member's value inserted under its name. */
  method SerializeBasicMember(d: DynData, id: nat, kind: TypeKind, name: string, output: Json, fmt: JsonFormat)
    returns (ret: RetCode, result: Json)
    requires Insertable(output) && IsBasicMemberKind(kind)
    ensures (ret, result) == SerializeMemberInto(d, id, kind, name, output, fmt)
  {
    var v := BasicValue(d, id, kind, fmt);
    if v.Failure? {
      ret, result := v.error, output;
    } else {
      ret, result := Ok, Insert(name, v.value, output);
    }
  }

  /** The union branch: the selected member written into a fresh document. */
  method SerializeUnion(ledger: LoanLedger, c: DynData, path: Path, fmt: JsonFormat)
    returns (ret: RetCode, j: Json)
    requires ledger.OnlyAncestorsOf(path)
    modifies ledger
    ensures ret == Ok ==> UnionValue(c, fmt) == Success(j)
    ensures ret != Ok ==> UnionValue(c, fmt) == Failure(ret)
    ensures ledger.outstanding == old(ledger.outstanding)
    ensures ExtendsBalanced(old(ledger.log), ledger.log)
    decreases c, 1
  {
    var ms := AllMembers(Enclosing(c));
    var k := FindMember(ms, c.selected);
    if k < 0 {
      ret, j := BadParameter, JNull;
      ExtendsBalancedRefl(ledger.log);
    } else {
      ret, j := SerializeMember(ledger, c, path, ms[k].id, Kind(Resolve(ms[k].typ)), ms[k].name, JNull, fmt);
    }
  }

  /** The map branch: entry i, the stored member at index i, written under its
      member id in decimal, with the alias-resolved value kind. */
  method SerializeMap(ledger: LoanLedger, c: DynData, path: Path, fmt: JsonFormat)
    returns (ret: RetCode, j: Json)
    requires ledger.OnlyAncestorsOf(path)
    modifies ledger
    ensures ret == Ok ==> MapValue(c, fmt) == Success(j)
    ensures ret != Ok ==> MapValue(c, fmt) == Failure(ret)
    ensures ledger.outstanding == old(ledger.outstanding)
    ensures ExtendsBalanced(old(ledger.log), ledger.log)
    decreases c, 1
  {
    var vk := Kind(Resolve(ElementType(Enclosing(c))));
    ghost var f := ByItemId(c, vk, fmt);
    ghost var ids := ItemIds(c.items);
    ItemIdsAt(c.items);
    ret, j := Ok, JNull;
    ExtendsBalancedRefl(ledger.log);
    var i := 0;
    while i < |c.items|
      invariant 0 <= i <= |c.items| && Insertable(j)
      invariant InsertFold(NatToString, f, ids, JNull) == InsertFold(NatToString, f, ids[i..], j)
      invariant ledger.outstanding == old(ledger.outstanding) && ledger.OnlyAncestorsOf(path)
      invariant ExtendsBalanced(old(ledger.log), ledger.log)
    {
      var id := c.items[i].id;
      ghost var mid := ledger.log;
      var r, next := SerializeMember(ledger, c, path, id, vk, NatToString(id), j, fmt);
      ExtendsBalancedTrans(old(ledger.log), mid, ledger.log);
      assert ids[i..][0] == id && ids[i..][1..] == ids[i + 1..];
      if r != Ok {
        ret := r;
        return;
      }
      j := next;
      i := i + 1;
    }
    assert ids[i..] == [];
  }

  /** json_serialize_collection: a sequence's items, or an array's elements
      nested by its bounds, gathered into a JSON array that is inserted under
      `name` once every element has succeeded. */
  method SerializeCollection(ledger: LoanLedger, c: DynData, path: Path, name: string, output: Json, fmt: JsonFormat)
    returns (ret: RetCode, result: Json)
    requires Insertable(output) && ledger.OnlyAncestorsOf(path)
    modifies ledger
    ensures ret == Ok ==> CollectionValue(c, fmt).Success? && result == Insert(name, CollectionValue(c, fmt).value, output)
    ensures ret != Ok ==> CollectionValue(c, fmt) == Failure(ret) && result == output
    ensures ledger.outstanding == old(ledger.outstanding)
    ensures ExtendsBalanced(old(ledger.log), ledger.log)
    decreases c, 2
  {
    var t := Enclosing(c);
    var ek := Kind(ElementType(t));
    var items: seq<Json>;
    if Kind(t) == Sequence {
      ret, items := SerializeSequence(ledger, c, path, ek, fmt);
    } else {
      var next: nat;
      ret, items, next := SerializeArray(ledger, c, path, ek, 0, Bounds(t), [], fmt);
    }
    result := if ret == Ok then Insert(name, JArray(items), output) else output;
  }

  /** The sequence loop: items 0..count-1, appended to the array in turn. */
  method SerializeSequence(ledger: LoanLedger, c: DynData, path: Path, ek: TypeKind, fmt: JsonFormat)
    returns (ret: RetCode, items: seq<Json>)
    requires ledger.OnlyAncestorsOf(path)
    modifies ledger
    ensures (ret, items) == ItemsFold(ByItemId(c, ek, fmt), 0, |c.items|, [])
    ensures ledger.outstanding == old(ledger.outstanding)
    ensures ExtendsBalanced(old(ledger.log), ledger.log)
    decreases c, 1
  {
    ghost var f := ByItemId(c, ek, fmt);
    var count := |c.items|;
    ret, items := Ok, [];
    ExtendsBalancedRefl(ledger.log);
    var index := 0;
    while index < count
      invariant 0 <= index <= count
      invariant ItemsFold(f, 0, count, []) == ItemsFold(f, index, count, items)
      invariant ledger.outstanding == old(ledger.outstanding) && ledger.OnlyAncestorsOf(path)
      invariant ExtendsBalanced(old(ledger.log), ledger.log)
    {
      ghost var mid := ledger.log;
      var r, next := SerializeMember(ledger, c, path, index, ek, "", JArray(items), fmt);
      ExtendsBalancedTrans(old(ledger.log), mid, ledger.log);
      if r != Ok {
        ret := r;
        return;
      }
      items := next.items;
      index := index + 1;
    }
  }

  /** json_serialize_array: the dimensions `bounds` from element id `index`
      on, appended to `acc`; the index is shared by all dimensions and moves
      past every element visited, the failing one included. */
  method SerializeArray(ledger: LoanLedger, c: DynData, path: Path, kind: TypeKind, index: nat, bounds: seq<nat>,
                        acc: seq<Json>, fmt: JsonFormat)
    returns (ret: RetCode, items: seq<Json>, next: nat)
    requires ledger.OnlyAncestorsOf(path)
    modifies ledger
    ensures (ret, items, next) == ArrayFold(ByItemId(c, kind, fmt), index, bounds, acc)
    ensures ledger.outstanding == old(ledger.outstanding)
    ensures ExtendsBalanced(old(ledger.log), ledger.log)
    decreases c, 1, |bounds|, 1
  {
    if |bounds| == 1 {
      ret, items, next := SerializeElements(ledger, c, path, kind, index, bounds[0], acc, fmt);
    } else if |bounds| > 1 {
      ret, items, next := SerializeRows(ledger, c, path, kind, index, bounds, acc, fmt);
    } else {
      ret, items, next := Ok, acc, index;
      ExtendsBalancedRefl(ledger.log);
    }
  }

  /** The loop of the innermost dimension: `n` elements with consecutive ids. */
  method SerializeElements(ledger: LoanLedger, c: DynData, path: Path, kind: TypeKind, index: nat, n: nat,
                           acc: seq<Json>, fmt: JsonFormat)
    returns (ret: RetCode, items: seq<Json>, next: nat)
    requires ledger.OnlyAncestorsOf(path)
    modifies ledger
    ensures (ret, items, next) == ElementsFold(ByItemId(c, kind, fmt), index, n, acc)
    ensures ledger.outstanding == old(ledger.outstanding)
    ensures ExtendsBalanced(old(ledger.log), ledger.log)
    decreases c, 1, 1, 0
  {
    ghost var f := ByItemId(c, kind, fmt);
    ret, items, next := Ok, acc, index;
    ExtendsBalancedRefl(ledger.log);
    var i := 0;
    while i < n
      invariant 0 <= i <= n
      invariant ElementsFold(f, index, n, acc) == ElementsFold(f, next, n - i, items)
      invariant ledger.outstanding == old(ledger.outstanding) && ledger.OnlyAncestorsOf(path)
      invariant ExtendsBalanced(old(ledger.log), ledger.log)
    {
      ghost var mid := ledger.log;
      var r, arr := SerializeMember(ledger, c, path, next, kind, "", JArray(items), fmt);
      ExtendsBalancedTrans(old(ledger.log), mid, ledger.log);
      next := next + 1;
      if r != Ok {
        ret := r;
        return;
      }
      items := arr.items;
      i := i + 1;
    }
  }

  /** The loop of an outer dimension: one inner array per row, built from a
      fresh array and pushed once it has succeeded. */
  method SerializeRows(ledger: LoanLedger, c: DynData, path: Path, kind: TypeKind, index: nat, bounds: seq<nat>,
                       acc: seq<Json>, fmt: JsonFormat)
    returns (ret: RetCode, items: seq<Json>, next: nat)
    requires |bounds| >= 2 && ledger.OnlyAncestorsOf(path)
    modifies ledger
    ensures (ret, items, next) == RowsFold(ByItemId(c, kind, fmt), index, bounds, bounds[0], acc)
    ensures ledger.outstanding == old(ledger.outstanding)
    ensures ExtendsBalanced(old(ledger.log), ledger.log)
    decreases c, 1, |bounds|, 0
  {
    ghost var f := ByItemId(c, kind, fmt);
    ret, items, next := Ok, acc, index;
    ExtendsBalancedRefl(ledger.log);
    var i := 0;
    while i < bounds[0]
      invariant 0 <= i <= bounds[0]
      invariant RowsFold(f, index, bounds, bounds[0], acc) == RowsFold(f, next, bounds, bounds[0] - i, items)
      invariant ledger.outstanding == old(ledger.outstanding) && ledger.OnlyAncestorsOf(path)
      invariant ExtendsBalanced(old(ledger.log), ledger.log)
    {
      ghost var mid := ledger.log;
      var r, inner, after := SerializeArray(ledger, c, path, kind, next, bounds[1..], [], fmt);
      ExtendsBalancedTrans(old(ledger.log), mid, ledger.log);
      next := after;
      if r != Ok {
        ret := r;
        return;
      }
      items := items + [JArray(inner)];
      i := i + 1;
    }
  }
}
