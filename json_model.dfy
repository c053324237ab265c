/** What the dynamic-value-to-JSON serializer computes, as functions: the
    JSON value of one member (json_serialize_member and
    json_serialize_basic_member), the fold over a struct's members that stops
    at the first failure, sequences, maps and multi-dimensional arrays
    (json_serialize_collection, json_serialize_array), and the top-level call.
    Every branch of json_serialize_member inserts exactly one value into its
    output, and only when the member succeeded, so a member is described by
    the value it inserts (MemberValue) and the insertion (SerializeMemberInto). */
module JsonModel {
  import opened Text
  import opened DynTypes
  import opened JsonValue
  import opened ReturnCodes
  import opened DynDataModel
  import opened MemberLoops

  /** DynamicDataJsonFormat: the dialect, which only changes enums and bitmasks. */
  datatype JsonFormat = Omg | Eprosima

  /** A possibly null reference to a dynamic value. */
  datatype DataRef = Null | Ref(data: DynData)

  /** The kinds json_serialize_member hands to json_serialize_basic_member. */
  predicate IsBasicMemberKind(k: TypeKind)
  {
    (k.IsSimple() && !k.Annotation?) || k.Enum? || k.Bitmask?
  }

  /** The JSON shape a stored primitive of each kind is written as. */
  predicate ScalarShape(kind: TypeKind, j: Json)
  {
    match kind
    case Boolean => j.JBool?
    case Byte | Int8 | Int16 | Int32 | Int64 | UInt8 | UInt16 | UInt32 | UInt64 => j.JInt?
    case Float32 | Float64 | Float128 => j.JFloat?
    case Char8 => j.JString? && |j.s| == 1
    case Char16 | String8 | String16 => j.JString?
    case _ => false
  }

  /** An enum is written as its literal's name (OMG) or as {"name", "value"}. */
  predicate EnumShape(fmt: JsonFormat, j: Json)
  {
    if fmt == Omg then j.JString? else j.JObject? && j.fields.Keys == {"name", "value"}
  }

  /** A bitmask is written as a non-negative number (OMG) or as {"value", "binary", "active"}. */
  predicate BitmaskShape(fmt: JsonFormat, j: Json)
  {
    if fmt == Omg then j.JInt? && j.i >= 0 else j.JObject? && j.fields.Keys == {"value", "binary", "active"}
  }

  /** The JSON shape each basic kind is written as. */
  predicate JsonShape(kind: TypeKind, fmt: JsonFormat, j: Json)
  {
    if kind.Enum? then EnumShape(fmt, j)
    else if kind.Bitmask? then BitmaskShape(fmt, j)
    else ScalarShape(kind, j)
  }

  /** The JSON value of a stored primitive: numbers and booleans as such, a
      char as a one-character string, wide characters and strings UTF-8 encoded. */
  function ScalarJson(s: Scalar): (j: Json)
    ensures ScalarShape(ScalarKind(s), j)
  {
    match s
    case BoolVal(b) => JBool(b)
    case IntVal(_, i) => JInt(i)
    case FloatVal(_, f) => JFloat(f)
    case Char8Val(c) => JString([c])
    case Char16Val(w) => JString(Utf8([w]))
    case String8Val(str) => JString(str)
    case String16Val(ws) => JString(Utf8(ws))
  }

  /** Wide characters the UTF-8 converter accepts: code points up to U+10FFFF. */
  predicate WideInRange(s: Scalar)
  {
    match s
    case Char16Val(w) => w <= 0x10FFFF
    case String16Val(ws) => forall i :: 0 <= i < |ws| ==> ws[i] <= 0x10FFFF
    case _ => true
  }

  /** Reads a primitive of the given kind back from its JSON value: the
      inverse of ScalarJson (ScalarJsonReadsBack). */
  function ScalarOf(kind: TypeKind, j: Json): Option<Scalar>
  {
    match j
    case JBool(b) => if kind.Boolean? then Some(BoolVal(b)) else None
    case JInt(i) => if kind.IsInteger() then Some(IntVal(kind, i)) else None
    case JFloat(f) => if kind.IsFloat() then Some(FloatVal(kind, f)) else None
    case JString(str) =>
      if kind.Char8? then (if |str| == 1 then Some(Char8Val(str[0])) else None)
      else if kind.String8? then Some(String8Val(str))
      else if kind.Char16? || kind.String16? then
        match Utf8Decode(str)
        case None => None
        case Some(ws) =>
          if kind.String16? then Some(String16Val(ws))
          else if |ws| == 1 then Some(Char16Val(ws[0])) else None
      else None
    case _ => None
  }

  // ---------------------------------------------------------------- enums

  /** Some literal has `text` as its default value. */
  predicate HasLiteral(lits: seq<Member>, text: string)
  {
    exists i :: 0 <= i < |lits| && lits[i].defaultValue == text
  }

  /** `name` is the least name among the literals whose default value is `text`. */
  predicate IsLeastLiteral(lits: seq<Member>, text: string, name: string)
  {
    (exists i :: 0 <= i < |lits| && lits[i].defaultValue == text && lits[i].name == name) &&
    forall i :: 0 <= i < |lits| && lits[i].defaultValue == text ==> LexLeq(name, lits[i].name)
  }

  /** The name get_all_members_by_name's iteration finds first among the
      literals whose default value is `text`: the least such name (EnumNameLeast). */
  function EnumName(lits: seq<Member>, text: string): (r: Result<string>)
    ensures r.Failure? ==> r.error == BadParameter
  {
    if lits == [] then Failure(BadParameter)
    else
      var rest := EnumName(lits[1..], text);
      if lits[0].defaultValue != text then rest
      else if rest.Failure? || LexLeq(lits[0].name, rest.value) then Success(lits[0].name)
      else rest
  }

  /** The lookup fails exactly when no literal has the text, and otherwise
      yields the least name among the literals that have it. */
  lemma {:induction false} EnumNameLeast(lits: seq<Member>, text: string)
    ensures EnumName(lits, text).Failure? <==> !HasLiteral(lits, text)
    ensures EnumName(lits, text).Success? ==> IsLeastLiteral(lits, text, EnumName(lits, text).value)
  {
    if lits != [] {
      EnumNameLeast(lits[1..], text);
      EnumNameStep(lits, text, EnumName(lits[1..], text));
    }
  }

  lemma EnumNameStep(lits: seq<Member>, text: string, rest: Result<string>)
    requires lits != []
    requires rest.Failure? <==> !HasLiteral(lits[1..], text)
    requires rest.Success? ==> IsLeastLiteral(lits[1..], text, rest.value)
    ensures lits[0].defaultValue != text ==>
      (rest.Failure? <==> !HasLiteral(lits, text)) && (rest.Success? ==> IsLeastLiteral(lits, text, rest.value))
    ensures lits[0].defaultValue == text && (rest.Failure? || LexLeq(lits[0].name, rest.value)) ==>
      HasLiteral(lits, text) && IsLeastLiteral(lits, text, lits[0].name)
    ensures lits[0].defaultValue == text && rest.Success? && !LexLeq(lits[0].name, rest.value) ==>
      HasLiteral(lits, text) && IsLeastLiteral(lits, text, rest.value)
  {
    assert forall i :: 1 <= i < |lits| ==> lits[i] == lits[1..][i - 1];
    if rest.Success? {
      var i :| 0 <= i < |lits[1..]| && lits[1..][i].defaultValue == text && lits[1..][i].name == rest.value;
      assert lits[i + 1].defaultValue == text && lits[i + 1].name == rest.value;
    }
    if HasLiteral(lits, text) && lits[0].defaultValue != text {
      var i :| 0 <= i < |lits| && lits[i].defaultValue == text;
      assert lits[1..][i - 1].defaultValue == text;
    }
    if lits[0].defaultValue == text {
      LexLeqTotal(lits[0].name, lits[0].name);
      if rest.Success? {
        LexLeqTotal(lits[0].name, rest.value);
        forall i | 0 <= i < |lits| && lits[i].defaultValue == text && LexLeq(lits[0].name, rest.value)
          ensures LexLeq(lits[0].name, lits[i].name)
        {
          if i > 0 {
            assert lits[1..][i - 1] == lits[i];
            LexLeqTransitive(lits[0].name, rest.value, lits[i].name);
          }
        }
      }
    }
  }

  /** TK_ENUM: the stored int32, the enum type's literal whose default value is
      its decimal text, then the name alone (OMG) or {"name", "value"} (EPROSIMA). */
  function EnumValue(d: DynData, id: nat, fmt: JsonFormat): (r: Result<Json>)
    ensures r.Failure? ==> r.error == BadParameter
    ensures r.Success? ==> EnumShape(fmt, r.value)
  {
    match GetScalar(d, id, Int32)
    case Failure(e) => Failure(e)
    case Success(s) =>
      var v := s.i;
      match DescriptorType(d, id)
      case Failure(e) => Failure(e)
      case Success(t) =>
        match EnumName(DeclaredMembers(Resolve(t)), IntToString(v))
        case Failure(e) => Failure(e)
        case Success(name) =>
          if fmt == Omg then Success(JString(name)) else Success(EnumObject(name, v))
  }

  /** The EPROSIMA form of an enum value. */
  function EnumObject(name: string, v: int): (j: Json)
    ensures j.JObject? && j.fields.Keys == {"name", "value"}
    ensures j.fields["name"] == JString(name) && j.fields["value"] == JInt(v)
  {
    JObject(map["name" := JString(name), "value" := JInt(v)])
  }

  // ------------------------------------------------------------- bitmasks

  /** The storage width a bitmask's bound selects: the smallest of 8, 16
      and 32 that holds the bound, and 64 for every larger bound. */
  function BitmaskWidth(bound: nat): (w: nat)
    ensures w == 8 || w == 16 || w == 32 || w == 64
    ensures bound <= 64 ==> bound <= w
    ensures w > 8 ==> bound > w / 2
    ensures bound >= 33 ==> w == 64
  {
    if bound < 9 then 8 else if bound < 17 then 16 else if bound < 33 then 32 else 64
  }

  /** The unsigned kind read for a storage width. */
  function WidthKind(w: nat): TypeKind
  {
    if w == 8 then UInt8 else if w == 16 then UInt16 else if w == 32 then UInt32 else UInt64
  }

  function Pow2(n: nat): (p: nat)
    ensures p >= 1
  {
    if n == 0 then 1 else 2 * Pow2(n - 1)
  }

  /** std::bitset<w>(v).to_string(): the low `w` bits of `v`, most significant first. */
  function Binary(v: nat, w: nat): string
  {
    if w == 0 then "" else Binary(v / 2, w - 1) + [if v % 2 == 1 then '1' else '0']
  }

  /** Reads a string of '0' and '1' back as a number. */
  function FromBinary(s: string): nat
  {
    if s == [] then 0 else 2 * FromBinary(s[..|s| - 1]) + (if s[|s| - 1] == '1' then 1 else 0)
  }

  /** `u64_value & (1ull << pos)` is non-zero; positions from 64 up test nothing. */
  predicate BitIsSet(v: nat, pos: nat)
  {
    pos < 64 && (v / Pow2(pos)) % 2 == 1
  }

  /** The "active" list: names of the flags whose bit is set, in the given order. */
  function ActiveNames(flags: seq<Member>, v: nat): seq<string>
  {
    if flags == [] then []
    else (if BitIsSet(v, flags[0].id) then [flags[0].name] else []) + ActiveNames(flags[1..], v)
  }

  /** TK_BITMASK: the value read at the width the bound selects (an unsigned
      variable of that width holds it modulo 2^width); OMG emits the number,
      EPROSIMA {"value", "binary", "active"}. A descriptor without a bound,
      where bound().at(0) would throw, is a failure here. */
  function BitmaskValue(d: DynData, id: nat, fmt: JsonFormat): (r: Result<Json>)
    ensures r.Failure? ==> r.error == BadParameter
    ensures r.Success? ==> BitmaskShape(fmt, r.value)
  {
    match DescriptorType(d, id)
    case Failure(e) => Failure(e)
    case Success(t) =>
      var bt := Resolve(t);
      if Bounds(bt) == [] then Failure(BadParameter)
      else
        var w := BitmaskWidth(Bounds(bt)[0]);
        match GetScalar(d, id, WidthKind(w))
        case Failure(e) => Failure(e)
        case Success(s) =>
          var v := s.i % Pow2(w);
          if fmt == Omg then Success(JInt(v)) else Success(BitmaskObject(v, Binary(v, w), ActiveNames(AllMembers(bt), v)))
  }

  /** The EPROSIMA form of a bitmask value. */
  function BitmaskObject(v: int, binary: string, active: seq<string>): (j: Json)
    ensures j.JObject? && j.fields.Keys == {"value", "binary", "active"}
    ensures j.fields["value"] == JInt(v) && j.fields["binary"] == JString(binary)
    ensures j.fields["active"] == JArray(StringsJson(active))
  {
    JObject(map["value" := JInt(v), "binary" := JString(binary), "active" := JArray(StringsJson(active))])
  }

  function StringsJson(names: seq<string>): seq<Json>
  {
    seq(|names|, i requires 0 <= i < |names| => JString(names[i]))
  }

  // -------------------------------------------------------- basic members

  /** json_serialize_basic_member: the value to insert for a primitive, enum or
      bitmask member; TK_NONE and any other kind fail. */
  function BasicValue(d: DynData, id: nat, kind: TypeKind, fmt: JsonFormat): (r: Result<Json>)
    ensures r.Failure? ==> r.error == BadParameter
    ensures r.Success? ==> IsBasicMemberKind(kind) && !kind.NoneKind? && JsonShape(kind, fmt, r.value)
  {
    if kind.Enum? then EnumValue(d, id, fmt)
    else if kind.Bitmask? then BitmaskValue(d, id, fmt)
    else if kind.NoneKind? || !IsBasicMemberKind(kind) then Failure(BadParameter)
    else match GetScalar(d, id, kind)
      case Failure(e) => Failure(e)
      case Success(s) => Success(ScalarJson(s))
  }

  // ------------------------------------------------------- member dispatch

  /** json_serialize_member: the JSON value of member `id` of `d` dispatched on
      `kind`. Aggregates and collections are loaned; a missing or primitive
      member cannot be loaned (BAD_PARAMETER); an alias or any other kind fails. */
  function MemberValue(d: DynData, id: nat, kind: TypeKind, fmt: JsonFormat): (r: Result<Json>)
    ensures r.Failure? ==> r.error != Ok
    ensures (kind.NoneKind? || kind.Alias? || kind.Annotation?) ==> r == Failure(BadParameter)
    decreases d, 0, 0
  {
    if IsBasicMemberKind(kind) then BasicValue(d, id, kind, fmt)
    else if kind.Structure? || kind.Bitset? || kind.Union? || kind.Sequence? || kind.Array? || kind.Map? then
      var k := LoanTarget(d, id);
      if k < 0 then Failure(BadParameter) else LoanedValue(d.items[k].slot.data, kind, fmt)
    else Failure(BadParameter)
  }

  /** The value of a loaned member `c` of an aggregated or collection kind. */
  function LoanedValue(c: DynData, kind: TypeKind, fmt: JsonFormat): (r: Result<Json>)
    ensures r.Failure? ==> r.error != Ok
    decreases c, 3, 0
  {
    if kind.Structure? || kind.Bitset? then StructValue(c, fmt)
    else if kind.Union? then UnionValue(c, fmt)
    else if kind.Map? then MapValue(c, fmt)
    else CollectionValue(c, fmt)
  }

  /** The overload taking a member descriptor: the member's type is alias-resolved first. */
  function TypedMemberValue(d: DynData, m: Member, fmt: JsonFormat): (r: Result<Json>)
    ensures r.Failure? ==> r.error != Ok
    decreases d, 0, 1
  {
    MemberValue(d, m.id, Kind(Resolve(m.typ)), fmt)
  }

  /** What the member loop of a struct serializes for each member of `d`. */
  function ByMember(d: DynData, fmt: JsonFormat): (f: Member -> Result<Json>)
    ensures ErrorsAreErrors(f)
    decreases d, 1, 0
  {
    m => TypedMemberValue(d, m, fmt)
  }

  /** What the loops over a collection serialize for each item id of `d`. */
  function ByItemId(d: DynData, kind: TypeKind, fmt: JsonFormat): (f: nat -> Result<Json>)
    ensures ErrorsAreErrors(f)
    decreases d, 1, 0
  {
    (id: nat) => MemberValue(d, id, kind, fmt)
  }

  /** Struct and bitset: all members of the loaned value, by id, into a fresh
      (null) document; the document only if every member succeeded. */
  function StructValue(c: DynData, fmt: JsonFormat): (r: Result<Json>)
    ensures r.Failure? ==> r.error != Ok
    decreases c, 2, 0
  {
    var (r, j) := InsertFold(NameOf, ByMember(c, fmt), AllMembers(Enclosing(c)), JNull);
    if r == Ok then Success(j) else Failure(r)
  }

  /** Union: only the selected member, as a one-key object. */
  function UnionValue(c: DynData, fmt: JsonFormat): (r: Result<Json>)
    ensures r.Failure? ==> r.error != Ok
    decreases c, 2, 0
  {
    var ms := AllMembers(Enclosing(c));
    var k := FindMember(ms, c.selected);
    if k < 0 then Failure(BadParameter)
    else match TypedMemberValue(c, ms[k], fmt)
      case Failure(e) => Failure(e)
      case Success(v) => Success(Insert(ms[k].name, v, JNull))
  }

  /** Map: entry i is the stored member at index i, written under its member
      id as text (not the key value); the value kind is alias-resolved. */
  function MapValue(c: DynData, fmt: JsonFormat): (r: Result<Json>)
    ensures r.Failure? ==> r.error != Ok
    decreases c, 2, 0
  {
    var vk := Kind(Resolve(ElementType(Enclosing(c))));
    var (r, j) := InsertFold(NatToString, ByItemId(c, vk, fmt), ItemIds(c.items), JNull);
    if r == Ok then Success(j) else Failure(r)
  }

  /** json_serialize_collection: a sequence's items 0..count-1, or an array's
      elements nested by its bounds; the element kind is NOT alias-resolved. */
  function CollectionValue(c: DynData, fmt: JsonFormat): (r: Result<Json>)
    ensures r.Failure? ==> r.error != Ok
    decreases c, 2, 0
  {
    var t := Enclosing(c);
    var ek := Kind(ElementType(t));
    if Kind(t) == Sequence then
      var (r, items) := ItemsFold(ByItemId(c, ek, fmt), 0, |c.items|, []);
      if r == Ok then Success(JArray(items)) else Failure(r)
    else
      var (r, items, _) := ArrayFold(ByItemId(c, ek, fmt), 0, Bounds(t), []);
      if r == Ok then Success(JArray(items)) else Failure(r)
  }

  /** A member serialized into `out`: inserted under `name` on success,
      `out` untouched on failure. */
  function SerializeMemberInto(d: DynData, id: nat, kind: TypeKind, name: string, out: Json, fmt: JsonFormat)
    : (res: (RetCode, Json))
    requires Insertable(out)
    ensures Insertable(res.1)
    ensures res.0 != Ok ==> res.1 == out && MemberValue(d, id, kind, fmt) == Failure(res.0)
    ensures res.0 == Ok ==>
              (MemberValue(d, id, kind, fmt).Success? && res.1 == Insert(name, MemberValue(d, id, kind, fmt).value, out))
  {
    match MemberValue(d, id, kind, fmt)
    case Failure(e) => (e, out)
    case Success(v) => (Ok, Insert(name, v, out))
  }

  /** The public json_serialize on a value reference: only a non-null value
      whose own type (not alias-resolved) is a structure is serialized, its
      members written straight into `out`. */
  function Serialize(data: DataRef, out: Json, fmt: JsonFormat): (res: (RetCode, Json))
    requires Insertable(out)
    ensures res.0 == Ok ==> data.Ref? && Kind(data.data.typ) == Structure
    ensures (data.Null? || Kind(data.data.typ) != Structure) ==> res == (BadParameter, out)
  {
    if data.Null? then (BadParameter, out)
    else if Kind(data.data.typ) != Structure then (BadParameter, out)
    else InsertFold(NameOf, ByMember(data.data, fmt), AllMembers(data.data.typ), out)
  }
}
