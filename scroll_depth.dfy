/** The scroll-depth tracker inside `initAnalytics` (script.js:396-423): the
    deepest scroll percentage seen so far and the depth thresholds already
    reported, each reported once, in increasing order. The percentage is
    taken as an integer input. */
module ScrollDepth {

  /** `scrollThresholds`. */
  const THRESHOLDS: seq<int> := [25, 50, 75, 100]

  predicate StrictlyIncreasing(ts: seq<int>) {
    forall j, k :: 0 <= j < k < |ts| ==> ts[j] < ts[k]
  }

  /** The elements of `ts` no greater than `m`, in order. */
  function UpTo(ts: seq<int>, m: int): seq<int> {
    if ts == [] then []
    else UpTo(ts[..|ts| - 1], m) + (if ts[|ts| - 1] <= m then [ts[|ts| - 1]] else [])
  }

  /** The elements `t` of `ts` with `lo < t <= hi`, in order: the thresholds
      a scroll from depth `lo` to depth `hi` crosses. */
  function Crossed(ts: seq<int>, lo: int, hi: int): seq<int> {
    if ts == [] then []
    else Crossed(ts[..|ts| - 1], lo, hi) + (if lo < ts[|ts| - 1] <= hi then [ts[|ts| - 1]] else [])
  }

  /** `t` is tracked at depth `m` exactly when it is a threshold no greater
      than `m`. */
  lemma {:induction false} UpToMembers(ts: seq<int>, m: int, t: int)
    ensures t in UpTo(ts, m) <==> t in ts && t <= m
  {
    if ts != [] {
      var init := ts[..|ts| - 1];
      UpToMembers(init, m, t);
      assert ts == init + [ts[|ts| - 1]];
    }
  }

  lemma {:induction false} CrossedMembers(ts: seq<int>, lo: int, hi: int, t: int)
    ensures t in Crossed(ts, lo, hi) <==> t in ts && lo < t <= hi
  {
    if ts != [] {
      var init := ts[..|ts| - 1];
      CrossedMembers(init, lo, hi, t);
      assert ts == init + [ts[|ts| - 1]];
    }
  }

  /** In an increasing list everything before the last element is below it,
      and the list without its last element is still increasing. */
  lemma InitBelowLast(init: seq<int>, last: int)
    requires StrictlyIncreasing(init + [last])
    ensures StrictlyIncreasing(init)
    ensures forall x :: x in init ==> x < last
  {
    var ts := init + [last];
    forall j, k | 0 <= j < k < |init| ensures init[j] < init[k] {
      assert init[j] == ts[j] && init[k] == ts[k];
    }
    forall x | x in init ensures x < last {
      var j :| 0 <= j < |init| && init[j] == x;
      assert ts[j] == x && ts[|init|] == last;
    }
  }

  /** Filtering an increasing list keeps it increasing. */
  lemma {:induction false} UpToIncreasing(ts: seq<int>, m: int)
    requires StrictlyIncreasing(ts)
    ensures StrictlyIncreasing(UpTo(ts, m))
  {
    if ts != [] {
      var init := ts[..|ts| - 1];
      var last := ts[|ts| - 1];
      assert ts == init + [last];
      InitBelowLast(init, last);
      UpToIncreasing(init, m);
      var u := UpTo(init, m);
      forall x | x in u ensures x < last {
        UpToMembers(init, m, x);
      }
      if last <= m {
        var v := u + [last];
        forall j, k | 0 <= j < k < |v| ensures v[j] < v[k] {
          if k == |u| {
            assert v[j] in u;
          }
        }
      }
    }
  }

  /** What is tracked at depth `lo` followed by what a scroll to `hi`
      crosses is what is tracked at depth `hi`. */
  lemma {:induction false} UpToThenCrossed(ts: seq<int>, lo: int, hi: int)
    requires StrictlyIncreasing(ts) && lo <= hi
    ensures UpTo(ts, lo) + Crossed(ts, lo, hi) == UpTo(ts, hi)
  {
    if ts != [] {
      var init := ts[..|ts| - 1];
      var last := ts[|ts| - 1];
      assert ts == init + [last];
      InitBelowLast(init, last);
      UpToThenCrossed(init, lo, hi);
      if last <= lo {
        assert Crossed(init, lo, hi) == [] by {
          if Crossed(init, lo, hi) != [] {
            var x := Crossed(init, lo, hi)[0];
            CrossedMembers(init, lo, hi, x);
          }
        }
      }
    }
  }

  /** Slicing one more threshold adds it when the scroll crosses it. */
  lemma CrossedStep(ts: seq<int>, j: nat, lo: int, hi: int)
    requires j < |ts|
    ensures Crossed(ts[..j + 1], lo, hi)
      == Crossed(ts[..j], lo, hi) + (if lo < ts[j] <= hi then [ts[j]] else [])
  {
    assert ts[..j + 1][..j] == ts[..j];
  }

  class Tracker {
    /** `maxScroll`. */
    var maxScroll: int
    /** `trackedThresholds`. */
    var tracked: seq<int>

    /** The tracked thresholds are exactly those the deepest scroll so far
        has reached, in increasing order. */
    ghost predicate Valid()
      reads this
    {
      maxScroll >= 0 && tracked == UpTo(THRESHOLDS, maxScroll)
    }

    constructor ()
      ensures Valid() && maxScroll == 0 && tracked == []
    {
      maxScroll := 0;
      tracked := [];
      assert UpTo(THRESHOLDS, 0) == [] by {
        if UpTo(THRESHOLDS, 0) != [] {
          UpToMembers(THRESHOLDS, 0, UpTo(THRESHOLDS, 0)[0]);
        }
      }
    }

    /** The throttled scroll handler at depth `percent`. A new maximum
        raises `maxScroll` and reports, in order, every threshold it reaches
        that was not yet tracked; any other depth changes nothing. */
    method OnScroll(percent: int) returns (reported: seq<int>)
      requires Valid()
      modifies this
      ensures Valid()
      ensures maxScroll == if percent > old(maxScroll) then percent else old(maxScroll)
      ensures reported == Crossed(THRESHOLDS, old(maxScroll), percent)
      ensures tracked == old(tracked) + reported
    {
      reported := [];
      if percent > maxScroll {
        var before := maxScroll;
        maxScroll := percent;
        for j := 0 to |THRESHOLDS|
          invariant reported == Crossed(THRESHOLDS[..j], before, percent)
          invariant tracked == UpTo(THRESHOLDS, before) + reported
          invariant maxScroll == percent
        {
          var threshold := THRESHOLDS[j];
          CrossedStep(THRESHOLDS, j, before, percent);
          UpToMembers(THRESHOLDS, before, threshold);
          CrossedMembers(THRESHOLDS[..j], before, percent, threshold);
          assert threshold !in THRESHOLDS[..j];
          if percent >= threshold && threshold !in tracked {
            tracked := tracked + [threshold];
            reported := reported + [threshold];
          }
        }
        assert THRESHOLDS[..|THRESHOLDS|] == THRESHOLDS;
        UpToThenCrossed(THRESHOLDS, before, percent);
      } else {
        assert Crossed(THRESHOLDS, maxScroll, percent) == [] by {
          if Crossed(THRESHOLDS, maxScroll, percent) != [] {
            CrossedMembers(THRESHOLDS, maxScroll, percent, Crossed(THRESHOLDS, maxScroll, percent)[0]);
          }
        }
      }
    }
  }

  /** No threshold is ever tracked, hence reported, twice. */
  lemma TrackedDistinct(m: int)
    ensures forall j, k :: 0 <= j < k < |UpTo(THRESHOLDS, m)| ==> UpTo(THRESHOLDS, m)[j] != UpTo(THRESHOLDS, m)[k]
  {
    UpToIncreasing(THRESHOLDS, m);
  }
}
