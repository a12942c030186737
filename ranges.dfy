/** The `range(start, end, step)` macro of slices_ranges.cpp: a lambda over
    three `int`s that starts a local vector empty and runs
    `for (i = s; i < e; i += st) r.push_back(i)`.
    The C++ `int` is 32 bits wide and its overflow is undefined, so the
    method works on `Int32` and the verifier checks every `i += st`. */
module Ranges {

  const Int32Min: int := -0x8000_0000
  const Int32Max: int := 0x7fff_ffff

  /** A C++ `int`. */
  newtype Int32 = x: int | Int32Min <= x <= Int32Max

  /** The loop stops: either it never starts, or every step moves `i` up. */
  predicate Terminates(s: int, e: int, st: int)
  {
    s >= e || st > 0
  }

  /** The values the loop pushes, one iteration at a time (unbounded `int`). */
  function RangeOf(s: int, e: int, st: int): (r: seq<int>)
    requires Terminates(s, e, st)
    ensures r == [] <==> s >= e
    ensures forall x :: x in r ==> s <= x < e
    decreases e - s
  {
    if s < e then [s] + RangeOf(s + st, e, st) else []
  }

  /** The value of `i` when the loop condition first fails: the last value
      the loop computes, and so the largest. */
  function ExitValue(s: int, e: int, st: int): (x: int)
    requires Terminates(s, e, st)
    ensures x >= s && x >= e
    ensures s >= e ==> x == s
    ensures s < e ==> x < e + st
    decreases e - s
  {
    if s < e then ExitValue(s + st, e, st) else s
  }

  /** The elements of a vector of `int`, as mathematical integers. */
  function AsInts(r: seq<Int32>): seq<int>
  {
    seq(|r|, k requires 0 <= k < |r| => r[k] as int)
  }

  /** The lambda body: the loop terminates, never overflows, and builds
      exactly `RangeOf(s, e, st)`. */
  method Range(s: Int32, e: Int32, st: Int32) returns (r: seq<Int32>)
    requires Terminates(s as int, e as int, st as int)
    requires ExitValue(s as int, e as int, st as int) <= Int32Max
    ensures AsInts(r) == RangeOf(s as int, e as int, st as int)
  {
    r := [];
    var i := s;
    while i < e
      invariant Terminates(i as int, e as int, st as int)
      invariant ExitValue(i as int, e as int, st as int) == ExitValue(s as int, e as int, st as int)
      invariant AsInts(r) + RangeOf(i as int, e as int, st as int) == RangeOf(s as int, e as int, st as int)
      decreases e as int - i as int
    {
      PushStep(r, i, e as int, st as int);
      r := r + [i];
      i := i + st;
    }
  }

  /** One iteration of the loop: pushing `i` moves it from the values still
      to come to the values already pushed, and `i + st` stays below the
      exit value. */
  lemma PushStep(r: seq<Int32>, i: Int32, e: int, st: int)
    requires Terminates(i as int, e, st) && i as int < e
    ensures i as int + st <= ExitValue(i as int, e, st) == ExitValue(i as int + st, e, st)
    ensures AsInts(r + [i]) + RangeOf(i as int + st, e, st) == AsInts(r) + RangeOf(i as int, e, st)
  {
  }

  // ---------------------------------------------------------------------
  // Euclidean division facts used by the closed forms below.

  lemma DivUnique(x: int, st: int, q: int, rem: int)
    requires st > 0 && 0 <= rem < st && x == q * st + rem
    ensures x / st == q && x % st == rem
  {
    var d := q - x / st;
    assert d * st == x % st - rem by {
      assert x == (x / st) * st + x % st;
      assert d * st == q * st - (x / st) * st;
    }
    if d >= 1 {
      MulAtLeast(d, st);
    } else if d <= -1 {
      MulAtLeast(-d, st);
    }
  }

  lemma MulAtLeast(d: int, st: int)
    requires d >= 1 && st > 0
    ensures d * st >= st
  {
  }

  lemma DivShift(y: int, st: int)
    requires st > 0
    ensures (y + st) / st == y / st + 1 && (y + st) % st == y % st
  {
    assert y + st == (y / st + 1) * st + y % st;
    DivUnique(y + st, st, y / st + 1, y % st);
  }

  // ---------------------------------------------------------------------
  // Closed forms of the range with a positive step.

  /** The k-th value pushed is `s + k*st`. */
  lemma {:induction false} RangeOfAt(s: int, e: int, st: int, k: nat)
    requires st > 0 && k < |RangeOf(s, e, st)|
    ensures RangeOf(s, e, st)[k] == s + k * st
    decreases k
  {
    if k > 0 {
      RangeOfAt(s + st, e, st, k - 1);
      assert s + st + (k - 1) * st == s + k * st;
    }
  }

  /** The number of values is 0 for an empty interval, and otherwise the
      step count rounded up, `(e - s + st - 1) / st`. */
  lemma {:induction false} RangeOfLength(s: int, e: int, st: int)
    requires st > 0
    ensures |RangeOf(s, e, st)| == if s >= e then 0 else (e - s + st - 1) / st
    decreases e - s
  {
    if s < e {
      RangeOfLength(s + st, e, st);
      if s + st >= e {
        DivUnique(e - s + st - 1, st, 1, e - s - 1);
      } else {
        DivShift(e - s - 1, st);
      }
    }
  }

  /** A value is pushed exactly when it lies in `[s, e)` and is reached
      from `s` by a whole number of steps. */
  lemma {:induction false} RangeOfMember(s: int, e: int, st: int, x: int)
    requires st > 0
    ensures x in RangeOf(s, e, st) <==> s <= x < e && (x - s) % st == 0
    decreases e - s
  {
    if s < e {
      RangeOfMember(s + st, e, st, x);
      assert RangeOf(s, e, st) == [s] + RangeOf(s + st, e, st);
      DivShift(x - s - st, st);
      if s < x < s + st {
        DivUnique(x - s, st, 0, x - s);
      }
      if x == s {
        DivUnique(0, st, 0, 0);
      }
    }
  }

  /** Consecutive values differ by exactly one step. */
  lemma {:induction false} RangeOfSteps(s: int, e: int, st: int)
    requires st > 0
    ensures forall k :: 0 <= k < |RangeOf(s, e, st)| - 1 ==>
              RangeOf(s, e, st)[k + 1] == RangeOf(s, e, st)[k] + st
  {
    var r := RangeOf(s, e, st);
    forall k | 0 <= k < |r| - 1 ensures r[k + 1] == r[k] + st {
      RangeOfAt(s, e, st, k);
      RangeOfAt(s, e, st, k + 1);
      assert s + (k + 1) * st == s + k * st + st;
    }
  }

  /** The values are strictly increasing. */
  lemma {:induction false} RangeOfIncreasing(s: int, e: int, st: int)
    requires Terminates(s, e, st)
    ensures forall i, j :: 0 <= i < j < |RangeOf(s, e, st)| ==>
              RangeOf(s, e, st)[i] < RangeOf(s, e, st)[j]
    decreases e - s
  {
    if s < e {
      RangeOfIncreasing(s + st, e, st);
      var r, t := RangeOf(s, e, st), RangeOf(s + st, e, st);
      assert r == [s] + t;
      forall i, j | 0 <= i < j < |r| ensures r[i] < r[j] {
        assert r[j] == t[j - 1];
        if i == 0 {
          assert t[j - 1] in t;
        } else {
          assert r[i] == t[i - 1];
        }
      }
    }
  }

  /** With a positive step the loop exits at `s + n*st`, `n` the number of
      values pushed. */
  lemma {:induction false} ExitValueClosedForm(s: int, e: int, st: int)
    requires st > 0
    ensures ExitValue(s, e, st) == s + |RangeOf(s, e, st)| * st
    decreases e - s
  {
    if s < e {
      ExitValueClosedForm(s + st, e, st);
      var n := |RangeOf(s + st, e, st)|;
      assert s + st + n * st == s + (n + 1) * st;
    }
  }

  /** A caller that keeps `e + st - 1` within `int` can never overflow the loop. */
  lemma NoOverflowWhenEndPlusStepFits(s: Int32, e: Int32, st: Int32)
    requires st > 0 && e as int + st as int - 1 <= Int32Max
    ensures Terminates(s as int, e as int, st as int)
    ensures ExitValue(s as int, e as int, st as int) <= Int32Max
  {
  }

  /** The worked example of the source: `range(0, 10, 2)`. */
  lemma RangeExample()
    ensures Terminates(0, 10, 2) && ExitValue(0, 10, 2) <= Int32Max
    ensures RangeOf(0, 10, 2) == [0, 2, 4, 6, 8]
  {
  }

  /** The same example run through the loop itself. */
  method RangeExampleRun() returns (r: seq<Int32>)
    ensures AsInts(r) == [0, 2, 4, 6, 8]
  {
    RangeExample();
    r := Range(0, 10, 2);
  }
}
