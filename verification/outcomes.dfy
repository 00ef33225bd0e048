/**
 * Outcomes of a stream of device operations, and the reference behaviour of
 * a loop that issues operations in order and gives up at the first failure.
 *
 * A driver loop sees one Boolean per operation, in order: `outs[i]` says
 * whether operation number i succeeded, and every operation past the end of
 * `outs` succeeds.
 */
module Outcomes {
  /** Whether exchange number i succeeds: those past the given outcomes do. */
  predicate Ok(outs: seq<bool>, i: nat)
  {
    i >= |outs| || outs[i]
  }

  /** The first n exchanges succeed. */
  predicate AllSucceed(outs: seq<bool>, n: nat)
  {
    forall i :: 0 <= i < n ==> Ok(outs, i)
  }

  /** The outcomes after the first exchange. */
  function Rest(outs: seq<bool>): (r: seq<bool>)
    ensures |r| == if |outs| == 0 then 0 else |outs| - 1
  {
    if |outs| == 0 then [] else outs[1..]
  }

  /** The outcomes after the first n exchanges. */
  function Drop(outs: seq<bool>, n: nat): seq<bool>
  {
    if n >= |outs| then [] else outs[n..]
  }

  /** Exchange i after the first is exchange i + 1. */
  lemma RestOk(outs: seq<bool>, i: nat)
    ensures Ok(Rest(outs), i) == Ok(outs, i + 1)
  {
  }

  lemma DropRest(outs: seq<bool>, n: nat)
    ensures Drop(Rest(outs), n) == Drop(outs, n + 1)
  {
  }

  lemma DropZero(outs: seq<bool>)
    ensures Drop(outs, 0) == outs
  {
  }

  /** What a sequence of operations got through: the operations issued and whether all succeeded. */
  datatype Sent<T> = Sent(ops: seq<T>, ok: bool)

  /** The reference behaviour: issue the operations in order and stop after the first that fails. */
  function Run<T>(ops: seq<T>, outs: seq<bool>): (r: Sent<T>)
    ensures |r.ops| <= |ops| && r.ops == ops[..|r.ops|]
    ensures r.ok ==> r.ops == ops
  {
    if |ops| == 0 then Sent([], true)
    else if !Ok(outs, 0) then Sent([ops[0]], false)
    else
      var rest := Run(ops[1..], Rest(outs));
      Sent([ops[0]] + rest.ops, rest.ok)
  }

  /** A run succeeds iff the exchanges of all its operations succeed. */
  lemma {:induction false} RunOk<T>(ops: seq<T>, outs: seq<bool>)
    ensures Run(ops, outs).ok <==> AllSucceed(outs, |ops|)
    decreases |ops|
  {
    if |ops| > 0 && Ok(outs, 0) {
      RunOk(ops[1..], Rest(outs));
      forall i | 0 <= i < |ops| - 1
        ensures Ok(Rest(outs), i) == Ok(outs, i + 1)
      {
        RestOk(outs, i);
      }
      if AllSucceed(Rest(outs), |ops| - 1) {
        forall i | 0 <= i < |ops|
          ensures Ok(outs, i)
        {
          if i > 0 {
            RestOk(outs, i - 1);
          }
        }
      }
    }
  }

  /** A failed run ends with the first failing operation; all before it succeeded. */
  lemma {:induction false} RunStopsAtFailure<T>(ops: seq<T>, outs: seq<bool>)
    ensures var r := Run(ops, outs);
            !r.ok ==> (0 < |r.ops| && !Ok(outs, |r.ops| - 1) && AllSucceed(outs, |r.ops| - 1))
    decreases |ops|
  {
    if |ops| > 0 && Ok(outs, 0) {
      RunStopsAtFailure(ops[1..], Rest(outs));
      var rest := Run(ops[1..], Rest(outs));
      if !rest.ok {
        forall i | 0 <= i < |rest.ops|
          ensures Ok(outs, i)
        {
          if i > 0 {
            RestOk(outs, i - 1);
          }
        }
      }
    }
  }

  /** One operation in front of the rest. */
  lemma RunCons<T>(x: T, ops: seq<T>, outs: seq<bool>)
    ensures Run([x] + ops, outs) ==
      if !Ok(outs, 0) then Sent([x], false)
      else Sent([x] + Run(ops, Rest(outs)).ops, Run(ops, Rest(outs)).ok)
  {
    assert ([x] + ops)[1..] == ops;
  }

  /**
   * Two operations in front of the rest: w is their run when it stops at the
   * first failing one of them, and otherwise goes on with r, the run of the rest.
   */
  lemma PairIsRun<T>(w: Sent<T>, x: T, y: T, ops: seq<T>, outs: seq<bool>, r: Sent<T>)
    requires r == Run(ops, Rest(Rest(outs)))
    requires w == if !Ok(outs, 0) then Sent([x], false)
                  else if !Ok(outs, 1) then Sent([x, y], false)
                  else Sent([x, y] + r.ops, r.ok)
    ensures w == Run([x, y] + ops, outs)
  {
    var b := [y] + ops;
    assert [x, y] + ops == [x] + b;
    RunCons(x, b, outs);
    if Ok(outs, 0) {
      RunCons(y, ops, Rest(outs));
      RestOk(outs, 0);
      if Ok(outs, 1) {
        assert [x] + ([y] + r.ops) == [x, y] + r.ops;
      } else {
        assert [x] + [y] == [x, y];
      }
    }
  }

  /** Running a concatenation runs the first part and, if that succeeds, the second. */
  lemma {:induction false} RunAppend<T>(a: seq<T>, b: seq<T>, outs: seq<bool>)
    ensures Run(a + b, outs) ==
      if Run(a, outs).ok then Sent(a + Run(b, Drop(outs, |a|)).ops, Run(b, Drop(outs, |a|)).ok)
      else Run(a, outs)
    decreases |a|
  {
    if |a| == 0 {
      assert a + b == b;
      DropZero(outs);
    } else {
      assert a + b == [a[0]] + (a[1..] + b);
      assert a == [a[0]] + a[1..];
      RunCons(a[0], a[1..] + b, outs);
      RunCons(a[0], a[1..], outs);
      if Ok(outs, 0) {
        RunAppend(a[1..], b, Rest(outs));
        DropRest(outs, |a| - 1);
      }
    }
  }
}
