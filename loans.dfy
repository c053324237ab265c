/** The loan discipline of dynamic values. A nested member is viewed through
    loan_value and must be handed back with return_loaned_value; while it is
    out, the same member cannot be loaned again. The ledger below keeps the
    outstanding loans of a whole value tree, each named by the path of member
    ids from the root, and a log of loans and returns used to state that every
    loan taken during a serialization call is returned exactly once. */
module Loans {
  import opened ReturnCodes
  import opened DynDataModel

  type Path = seq<nat>

  datatype LoanEvent = Lent(path: Path) | Returned(path: Path)

  datatype Replayed = Stuck | Open(stack: seq<Path>)

  /** Replays events against the stack of loans still open. A return must hand
      back the most recent loan still open; otherwise the replay is Stuck. */
  function Replay(ev: seq<LoanEvent>, open: seq<Path>): Replayed
    decreases |ev|
  {
    if ev == [] then Open(open)
    else match ev[0]
      case Lent(p) => Replay(ev[1..], open + [p])
      case Returned(p) =>
        if open != [] && open[|open| - 1] == p then Replay(ev[1..], open[..|open| - 1]) else Stuck
  }

  /** Every loan is matched by one later return of the same member, properly nested. */
  predicate Balanced(ev: seq<LoanEvent>)
  {
    Replay(ev, []) == Open([])
  }

  /** `after` is `before` followed by a balanced run of loans and returns. */
  predicate ExtendsBalanced(before: seq<LoanEvent>, after: seq<LoanEvent>)
  {
    |before| <= |after| && after[..|before|] == before && Balanced(after[|before|..])
  }

  function LentPaths(ev: seq<LoanEvent>): multiset<Path>
  {
    if ev == [] then multiset{}
    else (if ev[0].Lent? then multiset{ev[0].path} else multiset{}) + LentPaths(ev[1..])
  }

  function ReturnedPaths(ev: seq<LoanEvent>): multiset<Path>
  {
    if ev == [] then multiset{}
    else (if ev[0].Returned? then multiset{ev[0].path} else multiset{}) + ReturnedPaths(ev[1..])
  }

  lemma {:induction false} ReplayConcat(a: seq<LoanEvent>, b: seq<LoanEvent>, open: seq<Path>)
    ensures Replay(a + b, open) == match Replay(a, open) case Stuck => Stuck case Open(s) => Replay(b, s)
    decreases |a|
  {
    if a != [] {
      assert (a + b)[1..] == a[1..] + b;
      match a[0]
      case Lent(p) => ReplayConcat(a[1..], b, open + [p]);
      case Returned(p) =>
        if open != [] && open[|open| - 1] == p {
          ReplayConcat(a[1..], b, open[..|open| - 1]);
        }
    } else {
      assert a + b == b;
    }
  }

  /** A run that replays from one stack replays the same way on top of older loans. */
  lemma {:induction false} ReplayOnTop(ev: seq<LoanEvent>, base: seq<Path>, open: seq<Path>, res: seq<Path>)
    requires Replay(ev, open) == Open(res)
    ensures Replay(ev, base + open) == Open(base + res)
    decreases |ev|
  {
    if ev != [] {
      match ev[0]
      case Lent(p) =>
        assert base + open + [p] == base + (open + [p]);
        ReplayOnTop(ev[1..], base, open + [p], res);
      case Returned(p) =>
        assert (base + open)[..|base + open| - 1] == base + open[..|open| - 1];
        ReplayOnTop(ev[1..], base, open[..|open| - 1], res);
    }
  }

  lemma BalancedConcat(a: seq<LoanEvent>, b: seq<LoanEvent>)
    requires Balanced(a) && Balanced(b)
    ensures Balanced(a + b)
  {
    ReplayConcat(a, b, []);
  }

  /** A loan, a balanced run on the loaned value, and the return of that loan is balanced. */
  lemma BalancedWrap(p: Path, ev: seq<LoanEvent>)
    requires Balanced(ev)
    ensures Balanced([Lent(p)] + ev + [Returned(p)])
  {
    var w := [Lent(p)] + ev + [Returned(p)];
    ReplayConcat([Lent(p)] + ev, [Returned(p)], []);
    ReplayConcat([Lent(p)], ev, []);
    assert Replay([Lent(p)], []) == Open([p]) by {
      assert [Lent(p)][1..] == [];
    }
    ReplayOnTop(ev, [p], [], []);
    assert [p] + [] == [p];
    assert Replay([Returned(p)], [p]) == Replay([], []);
  }

  lemma ExtendsBalancedTrans(a: seq<LoanEvent>, b: seq<LoanEvent>, c: seq<LoanEvent>)
    requires ExtendsBalanced(a, b) && ExtendsBalanced(b, c)
    ensures ExtendsBalanced(a, c)
  {
    assert c[|a|..] == b[|a|..] + c[|b|..];
    BalancedConcat(b[|a|..], c[|b|..]);
  }

  lemma ExtendsBalancedRefl(a: seq<LoanEvent>)
    ensures ExtendsBalanced(a, a)
  {
    assert a[|a|..] == [];
  }

  /** Closing a loan around a balanced run: from `before`, a loan of `p`, a
      balanced run, then the return of `p`. */
  lemma ExtendsBalancedWrap(before: seq<LoanEvent>, p: Path, after: seq<LoanEvent>)
    requires ExtendsBalanced(before + [Lent(p)], after)
    ensures ExtendsBalanced(before, after + [Returned(p)])
  {
    var inner := after[|before| + 1..];
    BalancedWrap(p, inner);
    assert (after + [Returned(p)])[|before|..] == [Lent(p)] + inner + [Returned(p)];
  }

  lemma {:induction false} ReplayPaths(ev: seq<LoanEvent>, open: seq<Path>, res: seq<Path>)
    requires Replay(ev, open) == Open(res)
    ensures multiset(res) + ReturnedPaths(ev) == multiset(open) + LentPaths(ev)
    decreases |ev|
  {
    if ev != [] {
      match ev[0]
      case Lent(p) =>
        ReplayPaths(ev[1..], open + [p], res);
        assert multiset(open + [p]) == multiset(open) + multiset{p};
        assert LentPaths(ev) == multiset{p} + LentPaths(ev[1..]);
        assert ReturnedPaths(ev) == ReturnedPaths(ev[1..]);
      case Returned(p) =>
        assert open != [] && open[|open| - 1] == p;
        ReplayPaths(ev[1..], open[..|open| - 1], res);
        assert open == open[..|open| - 1] + [p];
        assert multiset(open) == multiset(open[..|open| - 1]) + multiset{p};
        assert ReturnedPaths(ev) == multiset{p} + ReturnedPaths(ev[1..]);
        assert LentPaths(ev) == LentPaths(ev[1..]);
        calc {
          multiset(res) + ReturnedPaths(ev);
          (multiset(res) + ReturnedPaths(ev[1..])) + multiset{p};
          (multiset(open[..|open| - 1]) + LentPaths(ev[1..])) + multiset{p};
          multiset(open) + LentPaths(ev);
        }
    }
  }

  /** In a balanced run every member loaned is returned as many times as it
      was loaned, and nothing else is returned: as many returns as loans. */
  lemma BalancedPairsLoansWithReturns(ev: seq<LoanEvent>)
    requires Balanced(ev)
    ensures LentPaths(ev) == ReturnedPaths(ev)
    ensures |LentPaths(ev)| == |ReturnedPaths(ev)|
  {
    ReplayPaths(ev, [], []);
    var empty: seq<Path> := [];
    assert multiset(empty) == multiset{};
    assert multiset(empty) + ReturnedPaths(ev) == multiset(empty) + LentPaths(ev);
    assert ReturnedPaths(ev) == multiset(empty) + ReturnedPaths(ev);
    assert LentPaths(ev) == multiset(empty) + LentPaths(ev);
  }

  /** The loans outstanding on a value tree. */
  class LoanLedger {
    var outstanding: set<Path>
    ghost var log: seq<LoanEvent>

    constructor ()
      ensures outstanding == {} && log == []
    {
      outstanding := {};
      log := [];
    }

    /** Only the value at `path` and its ancestors are on loan, which is the
        situation while `path` is being serialized. */
    predicate OnlyAncestorsOf(path: Path)
      reads this
    {
      forall q :: q in outstanding ==> |q| <= |path| && q == path[..|q|]
    }

    /** loan_value(id) on the value `d` found at `path`: it fails when `d` has
        no nested member under `id` or when that member is already on loan. */
    method Lend(d: DynData, path: Path, id: nat) returns (k: int)
      modifies this
      ensures k == (if path + [id] in old(outstanding) then -1 else LoanTarget(d, id))
      ensures k >= 0 ==> outstanding == old(outstanding) + {path + [id]} && log == old(log) + [Lent(path + [id])]
      ensures k < 0 ==> outstanding == old(outstanding) && log == old(log)
    {
      if path + [id] in outstanding {
        k := -1;
      } else {
        k := LoanTarget(d, id);
        if k >= 0 {
          outstanding := outstanding + {path + [id]};
          log := log + [Lent(path + [id])];
        }
      }
    }

    /** return_loaned_value for the member `id` of the value at `path`: it
        fails when that member is not on loan. */
    method Return(path: Path, id: nat) returns (rc: RetCode)
      modifies this
      ensures rc == (if path + [id] in old(outstanding) then Ok else PreconditionNotMet)
      ensures rc == Ok ==> outstanding == old(outstanding) - {path + [id]} && log == old(log) + [Returned(path + [id])]
      ensures rc != Ok ==> outstanding == old(outstanding) && log == old(log)
    {
      if path + [id] in outstanding {
        outstanding := outstanding - {path + [id]};
        log := log + [Returned(path + [id])];
        rc := Ok;
      } else {
        rc := PreconditionNotMet;
      }
    }
  }

  /** While only ancestors of `path` are on loan, a member of the value at
      `path` is never already on loan, and loaning it keeps the situation for
      the loaned member's own path. */
  lemma LoanOfChildIsFresh(outstanding: set<Path>, path: Path, id: nat)
    requires forall q :: q in outstanding ==> |q| <= |path| && q == path[..|q|]
    ensures path + [id] !in outstanding
    ensures forall q :: q in outstanding + {path + [id]} ==>
      |q| <= |path + [id]| && q == (path + [id])[..|q|]
  {
    forall q | q in outstanding
      ensures q == (path + [id])[..|q|]
    {
      assert (path + [id])[..|q|] == path[..|q|];
    }
  }
}
