/** The loops of the serializer, independent of what one member's value is:
    each visits members in order, stops at the first member that fails and
    reports its error, and otherwise inserts or appends every value. A member
    is represented by its outcome `res`, which the JSON model instantiates
    with the value of the member of the dynamic value being serialized. */
module MemberLoops {
  import opened Text
  import opened DynTypes
  import opened JsonValue
  import opened ReturnCodes

  // ---------------------------------------------- struct loop and map loop

  /** The loop over a struct's members (keyed by name) and the loop over a
      map's entries (keyed by member id in decimal): insert each value under
      its key until one fails, which ends the loop with that error. */
  function InsertFold<K>(key: K -> string, res: K -> Result<Json>, xs: seq<K>, out: Json): (r: (RetCode, Json))
    requires Insertable(out)
    ensures Insertable(r.1)
  {
    if xs == [] then (Ok, out)
    else match res(xs[0])
      case Failure(e) => (e, out)
      case Success(v) => InsertFold(key, res, xs[1..], Insert(key(xs[0]), v, out))
  }

  predicate AllSucceed<K>(res: K -> Result<Json>, xs: seq<K>)
  {
    forall i :: 0 <= i < |xs| ==> res(xs[i]).Success?
  }

  /** No element fails with the OK code. */
  ghost predicate ErrorsAreErrors<K(!new)>(res: K -> Result<Json>)
  {
    forall x :: res(x).Failure? ==> res(x).error != Ok
  }

  /** The position of the first element that fails, or the length. */
  function FirstFailure<K>(res: K -> Result<Json>, xs: seq<K>): (k: nat)
    ensures k <= |xs|
    ensures k < |xs| ==> res(xs[k]).Failure?
    ensures AllSucceed(res, xs[..k])
    ensures k == |xs| <==> AllSucceed(res, xs)
  {
    if xs == [] then 0
    else if res(xs[0]).Failure? then 0
    else
      var k := FirstFailure(res, xs[1..]);
      assert xs[..k + 1] == [xs[0]] + xs[1..][..k];
      assert forall i :: 1 <= i < |xs| ==> xs[i] == xs[1..][i - 1];
      k + 1
  }

  lemma AllSucceedTail<K>(res: K -> Result<Json>, xs: seq<K>)
    requires xs != [] && res(xs[0]).Success?
    ensures AllSucceed(res, xs) <==> AllSucceed(res, xs[1..])
  {
    if AllSucceed(res, xs[1..]) {
      forall i | 0 < i < |xs|
        ensures res(xs[i]).Success?
      {
        assert xs[i] == xs[1..][i - 1];
      }
    }
  }

  /** The keyed loop succeeds exactly when every element does; otherwise it
      reports the error of the first element that failed. */
  lemma {:induction false} InsertFoldOutcome<K(!new)>(key: K -> string, res: K -> Result<Json>, xs: seq<K>, out: Json)
    requires Insertable(out) && ErrorsAreErrors(res)
    ensures InsertFold(key, res, xs, out).0 == Ok <==> AllSucceed(res, xs)
    ensures !AllSucceed(res, xs) ==> InsertFold(key, res, xs, out).0 == res(xs[FirstFailure(res, xs)]).error
    decreases |xs|
  {
    if xs != [] && res(xs[0]).Success? {
      InsertFoldOutcome(key, res, xs[1..], Insert(key(xs[0]), res(xs[0]).value, out));
      AllSucceedTail(res, xs);
    }
  }

  predicate DistinctKeys<K>(key: K -> string, xs: seq<K>)
  {
    forall i, j :: 0 <= i < j < |xs| ==> key(xs[i]) != key(xs[j])
  }

  function Keys<K>(key: K -> string, xs: seq<K>): set<string>
  {
    set i | 0 <= i < |xs| :: key(xs[i])
  }

  /** `j` holds each element's value under its key. */
  predicate HoldsValues<K>(key: K -> string, res: K -> Result<Json>, xs: seq<K>, j: Json)
  {
    forall i :: 0 <= i < |xs| ==>
      key(xs[i]) in ObjectKeys(j) && res(xs[i]).Success? && j.fields[key(xs[i])] == res(xs[i]).value
  }

  /** Every key of `out` outside `written` keeps its value in `j`. */
  predicate KeepsOthers(out: Json, j: Json, written: set<string>)
  {
    forall k :: k in ObjectKeys(out) && k !in written ==> k in ObjectKeys(j) && j.fields[k] == out.fields[k]
  }

  /** One step of the keyed loop: what holds of the rest after inserting the
      first element holds of the whole. */
  lemma InsertFoldObjectStep<K>(key: K -> string, res: K -> Result<Json>, xs: seq<K>, out: Json, j: Json)
    requires xs != [] && Insertable(out) && !out.JArray? && res(xs[0]).Success?
    requires DistinctKeys(key, xs)
    requires var out' := Insert(key(xs[0]), res(xs[0]).value, out);
      ObjectKeys(j) == ObjectKeys(out') + Keys(key, xs[1..]) &&
      HoldsValues(key, res, xs[1..], j) && KeepsOthers(out', j, Keys(key, xs[1..]))
    ensures ObjectKeys(j) == ObjectKeys(out) + Keys(key, xs)
    ensures HoldsValues(key, res, xs, j)
    ensures KeepsOthers(out, j, Keys(key, xs))
  {
    var rest := xs[1..];
    var k0 := key(xs[0]);
    assert Keys(key, xs) == {k0} + Keys(key, rest) by {
      forall i | 0 < i < |xs|
        ensures xs[i] == rest[i - 1]
      {
      }
    }
    assert k0 !in Keys(key, rest);
    forall i | 0 <= i < |xs|
      ensures key(xs[i]) in ObjectKeys(j) && res(xs[i]).Success? && j.fields[key(xs[i])] == res(xs[i]).value
    {
      if i > 0 {
        assert xs[i] == rest[i - 1];
      }
    }
  }

  /** When every element succeeds and the keys are distinct, the loop writes
      each value under its key, keeps every other key of the output and adds
      no other key. */
  lemma {:induction false} InsertFoldObject<K>(key: K -> string, res: K -> Result<Json>, xs: seq<K>, out: Json)
    requires Insertable(out) && !out.JArray?
    requires AllSucceed(res, xs) && DistinctKeys(key, xs)
    ensures !InsertFold(key, res, xs, out).1.JArray?
    ensures ObjectKeys(InsertFold(key, res, xs, out).1) == ObjectKeys(out) + Keys(key, xs)
    ensures HoldsValues(key, res, xs, InsertFold(key, res, xs, out).1)
    ensures KeepsOthers(out, InsertFold(key, res, xs, out).1, Keys(key, xs))
    decreases |xs|
  {
    if xs != [] {
      var out' := Insert(key(xs[0]), res(xs[0]).value, out);
      AllSucceedTail(res, xs);
      InsertFoldObject(key, res, xs[1..], out');
      InsertFoldObjectStep(key, res, xs, out, InsertFold(key, res, xs[1..], out').1);
    }
  }

  /** The keyed loop into a fresh (null) document: it succeeds exactly when
      every element does, and with distinct keys its result is an object
      holding exactly those keys, each with its element's value. */
  lemma InsertFoldFromNull<K(!new)>(key: K -> string, res: K -> Result<Json>, xs: seq<K>)
    requires ErrorsAreErrors(res)
    ensures InsertFold(key, res, xs, JNull).0 == Ok <==> AllSucceed(res, xs)
    ensures AllSucceed(res, xs) && DistinctKeys(key, xs) ==>
      ObjectKeys(InsertFold(key, res, xs, JNull).1) == Keys(key, xs) &&
      HoldsValues(key, res, xs, InsertFold(key, res, xs, JNull).1)
  {
    InsertFoldOutcome(key, res, xs, JNull);
    if AllSucceed(res, xs) && DistinctKeys(key, xs) {
      InsertFoldObject(key, res, xs, JNull);
    }
  }

  // ----------------------------------------------------------- sequence loop

  predicate ItemsSucceed(res: nat -> Result<Json>, lo: nat, hi: nat)
  {
    forall i :: lo <= i < hi ==> res(i).Success?
  }

  /** The values of the items with ids lo..hi-1, in id order. */
  function ItemValues(res: nat -> Result<Json>, lo: nat, hi: nat): (vs: seq<Json>)
    requires lo <= hi && ItemsSucceed(res, lo, hi)
    ensures |vs| == hi - lo
    ensures forall i :: 0 <= i < |vs| ==> vs[i] == res(lo + i).value
    decreases hi - lo
  {
    if lo == hi then [] else [res(lo).value] + ItemValues(res, lo + 1, hi)
  }

  /** The smallest id in lo..hi-1 whose item fails, or `hi`. */
  function FirstFailingItem(res: nat -> Result<Json>, lo: nat, hi: nat): (k: nat)
    requires lo <= hi
    ensures lo <= k <= hi
    ensures k < hi ==> res(k).Failure?
    ensures ItemsSucceed(res, lo, k)
    decreases hi - lo
  {
    if lo == hi || res(lo).Failure? then lo else FirstFailingItem(res, lo + 1, hi)
  }

  /** The loop over a sequence's items 0..count-1: append each value until an item fails. */
  function ItemsFold(res: nat -> Result<Json>, i: nat, count: nat, acc: seq<Json>): (RetCode, seq<Json>)
    decreases count - i
  {
    if i >= count then (Ok, acc)
    else match res(i)
      case Failure(e) => (e, acc)
      case Success(v) => ItemsFold(res, i + 1, count, acc + [v])
  }

  lemma {:induction false} ItemsFoldOutcome(res: nat -> Result<Json>, i: nat, count: nat, acc: seq<Json>)
    requires i <= count && ErrorsAreErrors(res)
    ensures ItemsFold(res, i, count, acc).0 == Ok <==> ItemsSucceed(res, i, count)
    ensures ItemsSucceed(res, i, count) ==> ItemsFold(res, i, count, acc).1 == acc + ItemValues(res, i, count)
    ensures !ItemsSucceed(res, i, count) ==> ItemsFold(res, i, count, acc).0 == res(FirstFailingItem(res, i, count)).error
    decreases count - i
  {
    if i < count && res(i).Success? {
      ItemsFoldOutcome(res, i + 1, count, acc + [res(i).value]);
      if ItemsSucceed(res, i, count) {
        assert ItemValues(res, i, count) == [res(i).value] + ItemValues(res, i + 1, count);
      }
    }
  }

  lemma NatToStringInjective(a: nat, b: nat)
    requires NatToString(a) == NatToString(b)
    ensures a == b
  {
    NatToStringRoundTrip(a);
    NatToStringRoundTrip(b);
  }

  /** Every map key reads back as the member id it was written from. */
  lemma IdKeysReadBack(ids: seq<nat>)
    ensures forall key :: key in Keys(NatToString, ids) ==> IsIntText(key) && ParseInt(key) in ids
  {
    forall key | key in Keys(NatToString, ids)
      ensures IsIntText(key) && ParseInt(key) in ids
    {
      var k :| 0 <= k < |ids| && key == NatToString(ids[k]);
      IntToStringRoundTrip(ids[k]);
    }
  }

  /** Distinct member ids give distinct map keys. */
  lemma DistinctIdsDistinctKeys(ids: seq<nat>)
    requires forall i, j :: 0 <= i < j < |ids| ==> ids[i] != ids[j]
    ensures DistinctKeys(NatToString, ids)
  {
    forall i, j | 0 <= i < j < |ids|
      ensures NatToString(ids[i]) != NatToString(ids[j])
    {
      if NatToString(ids[i]) == NatToString(ids[j]) {
        NatToStringInjective(ids[i], ids[j]);
      }
    }
  }

  // -------------------------------------------------------------- array loop

  /** The number of elements an array of these dimensions holds. */
  function Product(bounds: seq<nat>): nat
  {
    if bounds == [] then 1 else bounds[0] * Product(bounds[1..])
  }

  /** json_serialize_array: the elements of the dimensions `bounds` from
      element id `index` on, appended to `acc`, and the advanced index. The
      index also moves past the element that fails. Without dimensions no
      element is visited. */
  function ArrayFold(res: nat -> Result<Json>, index: nat, bounds: seq<nat>, acc: seq<Json>): (RetCode, seq<Json>, nat)
    decreases |bounds|, 1, 0
  {
    if bounds == [] then (Ok, acc, index)
    else if |bounds| == 1 then ElementsFold(res, index, bounds[0], acc)
    else RowsFold(res, index, bounds, bounds[0], acc)
  }

  /** The innermost dimension: `n` elements with consecutive ids. */
  function ElementsFold(res: nat -> Result<Json>, index: nat, n: nat, acc: seq<Json>): (RetCode, seq<Json>, nat)
    decreases n
  {
    if n == 0 then (Ok, acc, index)
    else match res(index)
      case Failure(e) => (e, acc, index + 1)
      case Success(v) => ElementsFold(res, index + 1, n - 1, acc + [v])
  }

  /** An outer dimension: `rows` inner arrays, each pushed once it has succeeded. */
  function RowsFold(res: nat -> Result<Json>, index: nat, bounds: seq<nat>, rows: nat, acc: seq<Json>): (RetCode, seq<Json>, nat)
    requires |bounds| >= 2
    decreases |bounds|, 0, rows
  {
    if rows == 0 then (Ok, acc, index)
    else
      var (r, inner, next) := ArrayFold(res, index, bounds[1..], []);
      if r != Ok then (r, acc, next)
      else RowsFold(res, next, bounds, rows - 1, acc + [JArray(inner)])
  }

  lemma RowSizes(rows: nat, p: nat)
    requires rows > 0
    ensures p <= rows * p && rows * p - p == (rows - 1) * p
  {
  }

  /** Flat element values arranged by the dimensions: the first dimension at
      the top level, every further one as nested arrays. */
  function Nest(vs: seq<Json>, bounds: seq<nat>): (r: seq<Json>)
    requires bounds != [] && |vs| == Product(bounds)
    ensures |r| == bounds[0]
    decreases |bounds|, 1, 0
  {
    if |bounds| == 1 then
      assert Product(bounds[1..]) == 1;
      vs
    else NestRows(vs, bounds[1..], bounds[0])
  }

  function NestRows(vs: seq<Json>, inner: seq<nat>, rows: nat): (r: seq<Json>)
    requires inner != [] && |vs| == rows * Product(inner)
    ensures |r| == rows
    decreases |inner| + 1, 0, rows
  {
    if rows == 0 then []
    else
      var p := Product(inner);
      RowSizes(rows, p);
      [JArray(Nest(vs[..p], inner))] + NestRows(vs[p..], inner, rows - 1)
  }

  lemma {:induction false} ItemValuesSplit(res: nat -> Result<Json>, lo: nat, mid: nat, hi: nat)
    requires lo <= mid <= hi && ItemsSucceed(res, lo, hi)
    ensures ItemValues(res, lo, hi) == ItemValues(res, lo, mid) + ItemValues(res, mid, hi)
  {
  }

  lemma {:induction false} ElementsFoldOutcome(res: nat -> Result<Json>, index: nat, n: nat, acc: seq<Json>)
    requires ErrorsAreErrors(res)
    ensures ElementsFold(res, index, n, acc).0 == Ok <==> ItemsSucceed(res, index, index + n)
    ensures ItemsSucceed(res, index, index + n) ==>
      ElementsFold(res, index, n, acc) == (Ok, acc + ItemValues(res, index, index + n), index + n)
    ensures !ItemsSucceed(res, index, index + n) ==>
      ElementsFold(res, index, n, acc).0 == res(FirstFailingItem(res, index, index + n)).error
    decreases n
  {
    if n == 0 {
      assert acc + ItemValues(res, index, index) == acc;
    } else if res(index).Success? {
      ElementsFoldOutcome(res, index + 1, n - 1, acc + [res(index).value]);
      if ItemsSucceed(res, index, index + n) {
        assert ItemValues(res, index, index + n) == [res(index).value] + ItemValues(res, index + 1, index + n);
        assert (acc + [res(index).value]) + ItemValues(res, index + 1, index + n) == acc + ItemValues(res, index, index + n);
      }
    } else {
      assert !ItemsSucceed(res, index, index + n);
    }
  }

  /** The array loop succeeds exactly when each of the Product(bounds)
      elements from `index` on does; it then appends them nested by the
      dimensions and advances the index past them. */
  lemma {:induction false} ArrayFoldOutcome(res: nat -> Result<Json>, index: nat, bounds: seq<nat>, acc: seq<Json>)
    requires bounds != [] && ErrorsAreErrors(res)
    ensures ArrayFold(res, index, bounds, acc).0 == Ok <==> ItemsSucceed(res, index, index + Product(bounds))
    ensures ItemsSucceed(res, index, index + Product(bounds)) ==>
      ArrayFold(res, index, bounds, acc) ==
      (Ok, acc + Nest(ItemValues(res, index, index + Product(bounds)), bounds), index + Product(bounds))
    decreases |bounds|, 1, 0
  {
    if |bounds| == 1 {
      assert Product(bounds) == bounds[0];
      ElementsFoldOutcome(res, index, bounds[0], acc);
    } else {
      RowsFoldOutcome(res, index, bounds, bounds[0], acc, Product(bounds));
    }
  }

  lemma ItemsSucceedSplit(res: nat -> Result<Json>, lo: nat, mid: nat, hi: nat)
    requires lo <= mid <= hi
    ensures ItemsSucceed(res, lo, hi) <==> ItemsSucceed(res, lo, mid) && ItemsSucceed(res, mid, hi)
  {
  }

  /** The first failure in lo..hi-1 is the first one in lo..mid-1 if there
      is one, and otherwise the first one in mid..hi-1. */
  lemma {:induction false} FirstFailingItemSplit(res: nat -> Result<Json>, lo: nat, mid: nat, hi: nat)
    requires lo <= mid <= hi
    ensures !ItemsSucceed(res, lo, mid) ==> FirstFailingItem(res, lo, hi) == FirstFailingItem(res, lo, mid)
    ensures ItemsSucceed(res, lo, mid) ==> FirstFailingItem(res, lo, hi) == FirstFailingItem(res, mid, hi)
    decreases mid - lo
  {
    if lo < mid && res(lo).Success? {
      FirstFailingItemSplit(res, lo + 1, mid, hi);
    }
  }

  /** The nested values of `rows` rows: the first row, then the others. */
  lemma RowsAssemble(res: nat -> Result<Json>, index: nat, inner: seq<nat>, rows: nat, acc: seq<Json>, p: nat, n: nat)
    requires inner != [] && rows > 0 && p == Product(inner) && p <= n && n == rows * p
    requires ItemsSucceed(res, index, index + p) && ItemsSucceed(res, index + p, index + n)
    ensures ItemsSucceed(res, index, index + n)
    ensures acc + [JArray(Nest(ItemValues(res, index, index + p), inner))] + NestRows(ItemValues(res, index + p, index + n), inner, rows - 1) ==
      acc + NestRows(ItemValues(res, index, index + n), inner, rows)
  {
    RowSizes(rows, p);
    var vs := ItemValues(res, index, index + n);
    ItemValuesSplit(res, index, index + p, index + n);
    assert vs[..p] == ItemValues(res, index, index + p);
    assert vs[p..] == ItemValues(res, index + p, index + n);
  }

  lemma {:induction false} RowsFoldOutcome(res: nat -> Result<Json>, index: nat, bounds: seq<nat>, rows: nat, acc: seq<Json>, n: nat)
    requires |bounds| >= 2 && ErrorsAreErrors(res)
    requires n == rows * Product(bounds[1..])
    ensures RowsFold(res, index, bounds, rows, acc).0 == Ok <==> ItemsSucceed(res, index, index + n)
    ensures ItemsSucceed(res, index, index + n) ==>
      RowsFold(res, index, bounds, rows, acc) ==
      (Ok, acc + NestRows(ItemValues(res, index, index + n), bounds[1..], rows), index + n)
    decreases |bounds|, 0, rows
  {
    var inner := bounds[1..];
    var p := Product(inner);
    if rows == 0 {
      assert acc + NestRows(ItemValues(res, index, index), inner, 0) == acc;
    } else {
      RowSizes(rows, p);
      ArrayFoldOutcome(res, index, inner, []);
      ItemsSucceedSplit(res, index, index + p, index + n);
      var (r, row, next) := ArrayFold(res, index, inner, []);
      if r == Ok {
        var acc' := acc + [JArray(row)];
        assert RowsFold(res, index, bounds, rows, acc) == RowsFold(res, index + p, bounds, rows - 1, acc');
        RowsFoldOutcome(res, index + p, bounds, rows - 1, acc', n - p);
        if ItemsSucceed(res, index, index + n) {
          assert row == Nest(ItemValues(res, index, index + p), inner) by {
            assert [] + Nest(ItemValues(res, index, index + p), inner) == Nest(ItemValues(res, index, index + p), inner);
          }
          RowsAssemble(res, index, inner, rows, acc, p, n);
        }
      } else {
        assert RowsFold(res, index, bounds, rows, acc).0 == r;
      }
    }
  }

  /** The whole array walk, from element 0 with nothing appended yet: it
      succeeds exactly when all Product(bounds) elements do and then holds
      their values nested by the dimensions; otherwise it returns the error
      of the first failing element. */
  lemma ArrayFoldFromStart(res: nat -> Result<Json>, bounds: seq<nat>)
    requires bounds != [] && ErrorsAreErrors(res)
    ensures ArrayFold(res, 0, bounds, []).0 == Ok <==> ItemsSucceed(res, 0, Product(bounds))
    ensures ItemsSucceed(res, 0, Product(bounds)) ==>
      ArrayFold(res, 0, bounds, []).1 == Nest(ItemValues(res, 0, Product(bounds)), bounds)
    ensures !ItemsSucceed(res, 0, Product(bounds)) ==>
      ArrayFold(res, 0, bounds, []).0 == res(FirstFailingItem(res, 0, Product(bounds))).error
  {
    ArrayFoldOutcome(res, 0, bounds, []);
    ArrayFoldFirstFailure(res, 0, bounds, []);
    if ItemsSucceed(res, 0, Product(bounds)) {
      var vs := Nest(ItemValues(res, 0, Product(bounds)), bounds);
      assert [] + vs == vs;
    }
  }

  /** When some element fails, the array loop reports the error of the
      first failing element: the loops stop there. */
  lemma {:induction false} ArrayFoldFirstFailure(res: nat -> Result<Json>, index: nat, bounds: seq<nat>, acc: seq<Json>)
    requires bounds != [] && ErrorsAreErrors(res)
    ensures !ItemsSucceed(res, index, index + Product(bounds)) ==>
      ArrayFold(res, index, bounds, acc).0 == res(FirstFailingItem(res, index, index + Product(bounds))).error
    decreases |bounds|, 1, 0
  {
    if |bounds| == 1 {
      assert Product(bounds) == bounds[0];
      ElementsFoldOutcome(res, index, bounds[0], acc);
    } else {
      RowsFoldFirstFailure(res, index, bounds, bounds[0], acc, Product(bounds));
    }
  }

  lemma {:induction false} RowsFoldFirstFailure(res: nat -> Result<Json>, index: nat, bounds: seq<nat>, rows: nat, acc: seq<Json>, n: nat)
    requires |bounds| >= 2 && ErrorsAreErrors(res)
    requires n == rows * Product(bounds[1..])
    ensures !ItemsSucceed(res, index, index + n) ==>
      RowsFold(res, index, bounds, rows, acc).0 == res(FirstFailingItem(res, index, index + n)).error
    decreases |bounds|, 0, rows, 1
  {
    if rows > 0 && !ItemsSucceed(res, index, index + n) {
      RowSizes(rows, Product(bounds[1..]));
      if ItemsSucceed(res, index, index + Product(bounds[1..])) {
        LaterRowFails(res, index, bounds, rows, acc, n);
      } else {
        FirstRowFails(res, index, bounds, rows, acc, n);
      }
    }
  }

  /** The first row fails: its first failure is the array's. */
  lemma {:induction false} FirstRowFails(res: nat -> Result<Json>, index: nat, bounds: seq<nat>, rows: nat, acc: seq<Json>, n: nat)
    requires |bounds| >= 2 && ErrorsAreErrors(res) && rows > 0
    requires n == rows * Product(bounds[1..]) && Product(bounds[1..]) <= n
    requires !ItemsSucceed(res, index, index + Product(bounds[1..]))
    ensures RowsFold(res, index, bounds, rows, acc).0 == res(FirstFailingItem(res, index, index + n)).error
    decreases |bounds|, 0, rows, 0
  {
    var inner := bounds[1..];
    var p := Product(inner);
    ArrayFoldOutcome(res, index, inner, []);
    ArrayFoldFirstFailure(res, index, inner, []);
    FirstFailingItemSplit(res, index, index + p, index + n);
  }

  /** The first row succeeds: the failure lies in the remaining rows. */
  lemma {:induction false} LaterRowFails(res: nat -> Result<Json>, index: nat, bounds: seq<nat>, rows: nat, acc: seq<Json>, n: nat)
    requires |bounds| >= 2 && ErrorsAreErrors(res) && rows > 0
    requires n == rows * Product(bounds[1..]) && Product(bounds[1..]) <= n && n - Product(bounds[1..]) == (rows - 1) * Product(bounds[1..])
    requires ItemsSucceed(res, index, index + Product(bounds[1..])) && !ItemsSucceed(res, index, index + n)
    ensures RowsFold(res, index, bounds, rows, acc).0 == res(FirstFailingItem(res, index, index + n)).error
    decreases |bounds|, 0, rows, 0
  {
    var inner := bounds[1..];
    var p := Product(inner);
    ArrayFoldOutcome(res, index, inner, []);
    ItemsSucceedSplit(res, index, index + p, index + n);
    FirstFailingItemSplit(res, index, index + p, index + n);
    var row := ArrayFold(res, index, inner, []).1;
    assert RowsFold(res, index, bounds, rows, acc) == RowsFold(res, index + p, bounds, rows - 1, acc + [JArray(row)]);
    RowsFoldFirstFailure(res, index + p, bounds, rows - 1, acc + [JArray(row)], n - p);
  }
}
