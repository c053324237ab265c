/** Properties of the basic-member encodings: a primitive's JSON value reads
    back as the stored primitive; the name written for an enum designates a
    literal whose value is the stored one; a bitmask's
    "binary" string reads back as its "value", has one digit per storage bit,
    and its "active" list names exactly the flags whose bit is set. */
module BasicLaws {
  import opened Text
  import opened DynTypes
  import opened JsonValue
  import opened ReturnCodes
  import opened DynDataModel
  import opened JsonModel

  // ----------------------------------------------------------- primitives

  /** The JSON value of a primitive reads back as that primitive, so distinct
      stored values are written differently; wide text needs code points up
      to U+10FFFF. */
  lemma ScalarJsonReadsBack(s: Scalar)
    requires WideInRange(s)
    ensures ScalarOf(ScalarKind(s), ScalarJson(s)) == Some(s)
  {
    match s
    case Char16Val(w) =>
      Utf8RoundTrip([w]);
    case String16Val(ws) =>
      Utf8RoundTrip(ws);
    case _ =>
  }

  /** A primitive member is written as the JSON value of the primitive stored
      under its id, of exactly its kind, and that value reads back as it. */
  lemma BasicValueWritesStored(d: DynData, id: nat, kind: TypeKind, fmt: JsonFormat)
    requires !kind.Enum? && !kind.Bitmask?
    requires BasicValue(d, id, kind, fmt).Success?
    ensures exists s :: (Stores(d, id, s) && ScalarKind(s) == kind &&
      BasicValue(d, id, kind, fmt).value == ScalarJson(s) &&
      (WideInRange(s) ==> ScalarOf(kind, BasicValue(d, id, kind, fmt).value) == Some(s)))
  {
    GetScalarReadsStored(d, id, kind);
    var s := GetScalar(d, id, kind).value;
    if WideInRange(s) {
      ScalarJsonReadsBack(s);
    }
  }

  // ---------------------------------------------------------------- enums

  /** Some literal called `name` has, as its default value, the decimal text of `v`. */
  predicate NamesValue(lits: seq<Member>, name: string, v: int)
  {
    exists i :: 0 <= i < |lits| && lits[i].name == name && IsIntText(lits[i].defaultValue) && ParseInt(lits[i].defaultValue) == v
  }

  /** The least-name literal chosen for the text of `v` designates `v`. */
  lemma EnumNameDesignates(lits: seq<Member>, v: int)
    requires EnumName(lits, IntToString(v)).Success?
    ensures NamesValue(lits, EnumName(lits, IntToString(v)).value, v)
  {
    EnumNameLeast(lits, IntToString(v));
    var name := EnumName(lits, IntToString(v)).value;
    var i :| 0 <= i < |lits| && lits[i].defaultValue == IntToString(v) && lits[i].name == name;
    IntToStringRoundTrip(v);
  }

  /** An enum member is written as the name of a literal of its type whose
      value is the stored int32 `v` (OMG), or as that name together with `v`
      (EPROSIMA); a stored value no literal has fails. */
  lemma EnumValueDesignatesStored(d: DynData, id: nat, fmt: JsonFormat, v: int, lits: seq<Member>)
    requires GetScalar(d, id, Int32) == Success(IntVal(Int32, v))
    requires DescriptorType(d, id).Success? && lits == DeclaredMembers(Resolve(DescriptorType(d, id).value))
    ensures Stores(d, id, IntVal(Int32, v))
    ensures EnumValue(d, id, fmt).Success? <==> HasLiteral(lits, IntToString(v))
    ensures EnumValue(d, id, fmt).Success? ==>
      exists name :: NamesValue(lits, name, v) &&
        EnumValue(d, id, fmt).value == if fmt == Omg then JString(name) else EnumObject(name, v)
  {
    GetScalarReadsStored(d, id, Int32);
    EnumNameLeast(lits, IntToString(v));
    if EnumName(lits, IntToString(v)).Success? {
      EnumNameDesignates(lits, v);
    }
  }

  // ------------------------------------------------------------- bitmasks

  lemma {:induction false} MulAtLeast(m: int, x: int)
    requires m > 0 && x >= 1
    ensures m * x >= m
    decreases x
  {
    if x > 1 {
      MulAtLeast(m, x - 1);
      assert m * x == m * (x - 1) + m;
    }
  }

  /** A multiple of a positive `m` strictly between -m and m is zero. */
  lemma SmallMultipleIsZero(m: int, x: int)
    requires m > 0 && -m < m * x < m
    ensures x == 0
  {
    if x >= 1 {
      MulAtLeast(m, x);
    } else if x <= -1 {
      MulAtLeast(m, -x);
    }
  }

  /** Euclidean division by a positive divisor is unique. */
  lemma DivModUnique(v: int, m: int, a: int, b: int)
    requires m > 0 && 0 <= b < m && v == m * a + b
    ensures v / m == a && v % m == b
  {
    var q, r := v / m, v % m;
    assert v == m * q + r;
    assert m * (a - q) == m * a - m * q;
    SmallMultipleIsZero(m, a - q);
  }

  /** Dividing by 2p is halving and then dividing by p; the remainder is
      assembled from the two remainders. */
  lemma HalveThenDivide(v: nat, p: nat)
    requires p >= 1
    ensures v / (2 * p) == (v / 2) / p
    ensures v % (2 * p) == 2 * ((v / 2) % p) + v % 2
  {
    var a, b := (v / 2) / p, (v / 2) % p;
    assert v / 2 == p * a + b;
    assert v == (2 * p) * a + (2 * b + v % 2);
    DivModUnique(v, 2 * p, a, 2 * b + v % 2);
  }

  /** std::bitset<w>::to_string has one digit per bit and reads back as the
      value modulo 2^w. */
  lemma {:induction false} BinaryRoundTrip(v: nat, w: nat)
    ensures |Binary(v, w)| == w
    ensures FromBinary(Binary(v, w)) == v % Pow2(w)
  {
    if w > 0 {
      BinaryRoundTrip(v / 2, w - 1);
      var s := Binary(v, w);
      assert s[..|s| - 1] == Binary(v / 2, w - 1);
      HalveThenDivide(v, Pow2(w - 1));
    }
  }

  /** A value reduced modulo 2^w fits in w bits, and its w-digit binary string reads back as it. */
  lemma ReducedBinary(x: int, w: nat)
    ensures 0 <= x % Pow2(w) < Pow2(w)
    ensures |Binary(x % Pow2(w), w)| == w && FromBinary(Binary(x % Pow2(w), w)) == x % Pow2(w)
  {
    var v := x % Pow2(w);
    BinaryRoundTrip(v, w);
    DivModUnique(v, Pow2(w), 0, v);
  }

  /** The digit for bit `pos` sits `pos` places from the right. */
  lemma {:induction false} BinaryDigit(v: nat, w: nat, pos: nat)
    requires pos < w
    ensures |Binary(v, w)| == w
    ensures Binary(v, w)[w - 1 - pos] == if (v / Pow2(pos)) % 2 == 1 then '1' else '0'
  {
    BinaryRoundTrip(v, w);
    var rest := Binary(v / 2, w - 1);
    assert Binary(v, w) == rest + [if v % 2 == 1 then '1' else '0'];
    if pos > 0 {
      BinaryDigit(v / 2, w - 1, pos - 1);
      var p := Pow2(pos - 1);
      assert Pow2(pos) == 2 * p;
      HalveThenDivide(v, p);
      assert Binary(v, w)[w - 1 - pos] == rest[w - 1 - pos];
    }
  }

  /** The "active" list names exactly the flags whose bit is set. */
  lemma {:induction false} ActiveNamesSpec(flags: seq<Member>, v: nat, name: string)
    ensures name in ActiveNames(flags, v) <==>
      exists i :: 0 <= i < |flags| && flags[i].name == name && BitIsSet(v, flags[i].id)
  {
    if flags != [] {
      ActiveNamesSpec(flags[1..], v, name);
      if exists i :: 0 <= i < |flags| && flags[i].name == name && BitIsSet(v, flags[i].id) {
        var i :| 0 <= i < |flags| && flags[i].name == name && BitIsSet(v, flags[i].id);
        if i > 0 {
          assert flags[1..][i - 1] == flags[i];
        }
      }
      if name in ActiveNames(flags[1..], v) {
        var i :| 0 <= i < |flags[1..]| && flags[1..][i].name == name && BitIsSet(v, flags[1..][i].id);
        assert flags[i + 1] == flags[1..][i];
      }
    }
  }

  /** Within the storage width, a flag is active exactly when its digit in
      the binary string is '1'. */
  lemma ActiveMatchesBinary(v: nat, w: nat, pos: nat)
    requires pos < w <= 64
    ensures |Binary(v, w)| == w
    ensures Binary(v, w)[w - 1 - pos] == '1' <==> BitIsSet(v, pos)
  {
    BinaryDigit(v, w, pos);
  }

  /** A bitmask member serializes only when its type has a bound and the
      member can be read at the width that bound selects. */
  lemma BitmaskValueReads(d: DynData, id: nat, fmt: JsonFormat)
    requires BitmaskValue(d, id, fmt).Success?
    ensures DescriptorType(d, id).Success?
    ensures Bounds(Resolve(DescriptorType(d, id).value)) != []
    ensures GetScalar(d, id, WidthKind(BitmaskWidth(Bounds(Resolve(DescriptorType(d, id).value))[0]))).Success?
  {
  }

  /** A bitmask member read at the width `w` its bound selects is written as
      that value reduced to `w` bits (OMG), or as the value, its binary
      string, which has one digit per storage bit and reads back as the value,
      and the names of the flags whose bits are set (EPROSIMA). */
  lemma BitmaskValueLaw(d: DynData, id: nat, fmt: JsonFormat, bt: DynType, w: nat, raw: int)
    requires DescriptorType(d, id).Success? && bt == Resolve(DescriptorType(d, id).value)
    requires Bounds(bt) != [] && w == BitmaskWidth(Bounds(bt)[0])
    requires GetScalar(d, id, WidthKind(w)).Success? && GetScalar(d, id, WidthKind(w)).value.IntVal?
    requires raw == GetScalar(d, id, WidthKind(w)).value.i
    ensures BitmaskValue(d, id, fmt).Success?
    ensures var v := raw % Pow2(w);
      0 <= v < Pow2(w) && |Binary(v, w)| == w && FromBinary(Binary(v, w)) == v &&
      BitmaskValue(d, id, fmt).value ==
        if fmt == Omg then JInt(v) else BitmaskObject(v, Binary(v, w), ActiveNames(AllMembers(bt), v))
  {
    ReducedBinary(raw, w);
  }
}
