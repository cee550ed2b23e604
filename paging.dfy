/**
 * The pages `AddressBook.__next__` hands out: from a start index, slices of
 * `PageSize` values taken in order, the last one possibly shorter.
 */
module Paging {
  const PageSize := 10

  function Min(a: int, b: int): int {
    if a <= b then a else b
  }

  /** The pages still to come when the cursor stands at `start`. */
  function Pages<T>(values: seq<T>, start: nat): seq<seq<T>>
    decreases |values| - start
  {
    if start >= |values| then []
    else [values[start..Min(start + PageSize, |values|)]] + Pages(values, start + PageSize)
  }

  function Flatten<T>(pages: seq<seq<T>>): seq<T> {
    if pages == [] then [] else pages[0] + Flatten(pages[1..])
  }

  /** The pages from `start` on, put back together, are the values from `start` on. */
  lemma {:induction false} PagesCover<T>(values: seq<T>, start: nat)
    requires start <= |values|
    ensures Flatten(Pages(values, start)) == values[start..]
    decreases |values| - start
  {
    if start < |values| {
      var stop := Min(start + PageSize, |values|);
      var rest := Pages(values, start);
      assert rest[1..] == Pages(values, stop) by {
        if start + PageSize < |values| {
          assert stop == start + PageSize;
        } else {
          assert Pages(values, start + PageSize) == [] == Pages(values, stop);
        }
      }
      PagesCover(values, stop);
      assert values[start..] == values[start..stop] + values[stop..];
    }
  }

  /** Every page holds `PageSize` values except the last, which holds 1 to `PageSize`. */
  lemma {:induction false} PageSizes<T>(values: seq<T>, start: nat)
    ensures var p := Pages(values, start);
      (forall k | 0 <= k < |p| - 1 :: |p[k]| == PageSize)
      && (p != [] ==> 1 <= |p[|p| - 1]| <= PageSize)
    decreases |values| - start
  {
    if start < |values| {
      PageSizes(values, start + PageSize);
      var p := Pages(values, start);
      assert forall k | 1 <= k < |p| :: p[k] == Pages(values, start + PageSize)[k - 1];
    }
  }

  /** There are ceil(n / 10) pages for n values left, and none when nothing is left. */
  lemma {:induction false} PageCount<T>(values: seq<T>, start: nat)
    requires start <= |values|
    ensures |Pages(values, start)| == (|values| - start + PageSize - 1) / PageSize
    decreases |values| - start
  {
    if start < |values| {
      if start + PageSize <= |values| {
        PageCount(values, start + PageSize);
      }
    }
  }

  /** Twenty-five values give pages of 10, 10 and 5. */
  lemma TwentyFiveValues<T>(values: seq<T>)
    requires |values| == 25
    ensures |Pages(values, 0)| == 3
    ensures |Pages(values, 0)[0]| == 10 && |Pages(values, 0)[1]| == 10 && |Pages(values, 0)[2]| == 5
  {
    assert Pages(values, 0) == [values[0..10]] + Pages(values, 10);
    assert Pages(values, 10) == [values[10..20]] + Pages(values, 20);
    assert Pages(values, 20) == [values[20..25]] + Pages(values, 30);
  }
}
