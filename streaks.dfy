// Reading streaks: StatisticsService.calculateStreaks over the distinct
// session dates of a user, newest first. A date is an epoch-day number.
module Streaks {
  import opened Wrappers

  /** The streak figures the service returns (ReadingStreakDTO). */
  datatype Streak = Streak(
    current: nat,
    longest: nat,
    currentStart: Option<int>,
    longestStart: Option<int>,
    longestEnd: Option<int>,
    activeDates: seq<int>)

  /** The best run the longest-streak scan has recorded: length and reported dates. */
  datatype Best = Best(length: nat, start: Option<int>, end: Option<int>)

  /** The order getAllSessionDates delivers: distinct dates, newest first. */
  predicate StrictlyDescending(ds: seq<int>)
  {
    forall i, j :: 0 <= i < j < |ds| ==> ds[i] > ds[j]
  }

  function Max(a: int, b: int): int { if a >= b then a else b }

  // ------------------------------------------------------------ current streak

  /**
   * What the current-streak loop counts, walking the dates from `check`
   * backwards: a date equal to `check` or to the day before it is counted and
   * moves `check` to the day before that date; an older date ends the walk; a
   * newer one is skipped.
   */
  function CurrentStreak(ds: seq<int>, check: int): (n: nat)
    ensures n <= |ds|
  {
    if ds == [] then 0
    else if ds[0] == check || ds[0] == check - 1 then 1 + CurrentStreak(ds[1..], ds[0] - 1)
    else if ds[0] < check - 1 then 0
    else CurrentStreak(ds[1..], check)
  }

  /** The first date that walk counts (currentStreakStartDate). */
  function CurrentStart(ds: seq<int>, check: int): (d: Option<int>)
    ensures d.Some? <==> CurrentStreak(ds, check) > 0
    ensures d.Some? ==> d.value in ds && (d.value == check || d.value == check - 1)
  {
    if ds == [] then None
    else if ds[0] == check || ds[0] == check - 1 then Some(ds[0])
    else if ds[0] < check - 1 then None
    else CurrentStart(ds[1..], check)
  }

  // ------------------------------------------------------------ longest streak

  /** Length of the run of consecutive days that ends (oldest day) at index i. */
  function RunEndingAt(ds: seq<int>, i: nat): (n: nat)
    requires i < |ds|
    ensures 1 <= n <= i + 1
  {
    if i == 0 then 1
    else if ds[i - 1] - 1 == ds[i] then RunEndingAt(ds, i - 1) + 1
    else 1
  }

  /** Longest run of consecutive days among the first n dates: the reference for longestStreak. */
  function MaxRun(ds: seq<int>, n: nat): (m: nat)
    requires 1 <= n <= |ds|
    ensures 1 <= m <= n
  {
    if n == 1 then RunEndingAt(ds, 0) else Max(MaxRun(ds, n - 1), RunEndingAt(ds, n - 1))
  }

  function LongestRun(ds: seq<int>): nat
    requires ds != []
  {
    MaxRun(ds, |ds|)
  }

  /**
   * The record the longest-streak loop holds after looking at indices 1..k-1:
   * when the run that ends at index k-1 breaks at k and beats the record, the
   * loop records its length with the dates at k and k-1.
   */
  function Scan(ds: seq<int>, k: nat): Best
    requires 1 <= k <= |ds|
  {
    if k == 1 then Best(0, None, None)
    else
      var b := Scan(ds, k - 1);
      if ds[k - 2] - 1 == ds[k - 1] then b
      else if RunEndingAt(ds, k - 2) > b.length then Best(RunEndingAt(ds, k - 2), Some(ds[k - 1]), Some(ds[k - 2]))
      else b
  }

  /** The record after the final-run check, which reports the last and the first date. */
  function ScanFinal(ds: seq<int>): Best
    requires ds != []
  {
    var b := Scan(ds, |ds|);
    if RunEndingAt(ds, |ds| - 1) > b.length then Best(RunEndingAt(ds, |ds| - 1), Some(ds[|ds| - 1]), Some(ds[0]))
    else b
  }

  lemma {:induction false} ScanTracksMaxRun(ds: seq<int>, k: nat)
    requires 1 <= k <= |ds|
    ensures Max(Scan(ds, k).length, RunEndingAt(ds, k - 1)) == MaxRun(ds, k)
  {
    if k > 1 {
      ScanTracksMaxRun(ds, k - 1);
    }
  }

  /** The scan's length is the reference longest run. */
  lemma ScanFinalIsLongestRun(ds: seq<int>)
    requires ds != []
    ensures ScanFinal(ds).length == LongestRun(ds)
  {
    ScanTracksMaxRun(ds, |ds|);
  }

  /** A run counted by RunEndingAt really is a block of consecutive days. */
  lemma {:induction false} RunIsConsecutive(ds: seq<int>, i: nat, t: nat)
    requires i < |ds| && t < RunEndingAt(ds, i)
    ensures ds[i - t] == ds[i] + t
  {
    if t > 0 {
      RunIsConsecutive(ds, i - 1, t - 1);
    }
  }

  /** Positions j .. j+len-1 hold len consecutive days, newest first. */
  predicate ConsecutiveBlock(ds: seq<int>, j: nat, len: nat)
  {
    j + len <= |ds| && forall p :: j <= p < j + len ==> ds[p] == ds[j] - (p - j)
  }

  /** Every block of consecutive days in the list is at most the longest run. */
  lemma {:induction false} ConsecutiveBlockBounded(ds: seq<int>, j: nat, len: nat)
    requires 1 <= len && ConsecutiveBlock(ds, j, len)
    ensures len <= RunEndingAt(ds, j + len - 1)
    ensures len <= LongestRun(ds)
  {
    if len > 1 {
      ConsecutiveBlockBounded(ds, j, len - 1);
      assert ds[j + len - 2] - 1 == ds[j + len - 1];
    }
    MaxRunCovers(ds, |ds|, j + len - 1);
  }

  lemma {:induction false} MaxRunCovers(ds: seq<int>, n: nat, i: nat)
    requires 1 <= n <= |ds| && i < n
    ensures RunEndingAt(ds, i) <= MaxRun(ds, n)
  {
    if i < n - 1 {
      MaxRunCovers(ds, n - 1, i);
    }
  }

  // ------------------------------------------------------------ active dates

  /** The heatmap filter: the dates on or after the cut-off, in their order. */
  function OnOrAfter(ds: seq<int>, cutoff: int): (r: seq<int>)
    ensures |r| <= |ds|
    ensures forall x :: x in r <==> x in ds && x >= cutoff
    ensures StrictlyDescending(ds) ==> StrictlyDescending(r) && r == ds[..|r|]
  {
    if ds == [] then []
    else if ds[0] >= cutoff then [ds[0]] + OnOrAfter(ds[1..], cutoff)
    else OnOrAfter(ds[1..], cutoff)
  }

  // ------------------------------------------------------------ the service method

  /** StatisticsService.calculateStreaks; `today` is LocalDate.now(). */
  method CalculateStreaks(ds: seq<int>, today: int) returns (r: Streak)
    ensures ds == [] ==> r == Streak(0, 0, None, None, None, [])
    ensures r.current == CurrentStreak(ds, today) && r.currentStart == CurrentStart(ds, today)
    ensures ds != [] ==> r.longest == Max(LongestRun(ds), r.current)
    ensures ds != [] && ScanFinal(ds).length >= r.current ==>
              r.longestStart == ScanFinal(ds).start && r.longestEnd == ScanFinal(ds).end
    ensures ds != [] && ScanFinal(ds).length < r.current ==>
              r.longestStart == r.currentStart && r.longestEnd == Some(today)
    ensures r.activeDates == OnOrAfter(ds, today - 365)
  {
    if ds == [] {
      return Streak(0, 0, None, None, None, []);
    }
    // Current streak, from today backwards.
    var current: nat := 0;
    var currentStart: Option<int> := None;
    var check := today;
    var i := 0;
    var stopped := false;
    while i < |ds| && !stopped
      invariant 0 <= i <= |ds|
      invariant current == 0 ==> check == today && currentStart == None
      invariant stopped ==> current == CurrentStreak(ds, today)
      invariant !stopped ==> current + CurrentStreak(ds[i..], check) == CurrentStreak(ds, today)
      invariant !stopped && current == 0 ==> CurrentStart(ds[i..], check) == CurrentStart(ds, today)
      invariant current > 0 ==> currentStart == CurrentStart(ds, today)
    {
      assert ds[i..][1..] == ds[i + 1..];
      if ds[i] == check || ds[i] == check - 1 {
        if current == 0 {
          currentStart := Some(ds[i]);
        }
        current := current + 1;
        check := ds[i] - 1;
      } else if ds[i] < check - 1 {
        stopped := true;
      }
      i := i + 1;
    }
    // Longest streak: one scan over consecutive pairs.
    var longest: nat := 0;
    var longestStart: Option<int> := None;
    var longestEnd: Option<int> := None;
    var temp: nat := 1;
    var previous := ds[0];
    var k := 1;
    while k < |ds|
      invariant 1 <= k <= |ds|
      invariant previous == ds[k - 1] && temp == RunEndingAt(ds, k - 1)
      invariant Best(longest, longestStart, longestEnd) == Scan(ds, k)
    {
      var date := ds[k];
      if previous - 1 == date {
        temp := temp + 1;
      } else {
        if temp > longest {
          longest := temp;
          longestStart := Some(date);
          longestEnd := Some(previous);
        }
        temp := 1;
      }
      previous := date;
      k := k + 1;
    }
    if temp > longest {
      longest := temp;
      longestStart := Some(ds[|ds| - 1]);
      longestEnd := Some(ds[0]);
    }
    ScanFinalIsLongestRun(ds);
    if current > longest {
      longest := current;
      longestStart := currentStart;
      longestEnd := Some(today);
    }
    r := Streak(current, longest, currentStart, longestStart, longestEnd, OnOrAfter(ds, today - 365));
  }

  // ------------------------------------------------------------ findings

  /** The current-streak walk also counts across one-day gaps: 99 is missing, yet all three dates count. */
  lemma CurrentStreakSpansGaps()
    ensures 99 !in [100, 98, 96] && CurrentStreak([100, 98, 96], 100) == 3
    ensures IntendedCurrentStreak([100, 98, 96], 100) == 1
  {
    assert [100, 98, 96][1..] == [98, 96];
    assert [98, 96][1..] == [96];
  }

  /** The dates after those newer than `today` (the list is newest first). */
  function SkipFuture(ds: seq<int>, today: int): (rs: seq<int>)
    ensures |rs| <= |ds| && rs == ds[|ds| - |rs|..]
    ensures rs == [] || rs[0] <= today
    ensures forall i :: 0 <= i < |ds| - |rs| ==> ds[i] > today
  {
    if ds != [] && ds[0] > today then SkipFuture(ds[1..], today) else ds
  }

  /** Length of the block of consecutive days at the head of the list. */
  function RunFromHead(rs: seq<int>): (n: nat)
    ensures rs != [] ==> 1 <= n
  {
    if rs == [] then 0
    else if |rs| > 1 && rs[1] == rs[0] - 1 then 1 + RunFromHead(rs[1..])
    else 1
  }

  /** Corrected current streak: the consecutive days ending today, or yesterday when there is no session today. */
  function IntendedCurrentStreak(ds: seq<int>, today: int): nat
  {
    var rs := SkipFuture(ds, today);
    if rs != [] && (rs[0] == today || rs[0] == today - 1) then RunFromHead(rs) else 0
  }

  lemma {:induction false} RunFromHeadIsMaximal(rs: seq<int>)
    requires StrictlyDescending(rs) && rs != []
    ensures RunFromHead(rs) <= |rs|
    ensures forall t :: 0 <= t < RunFromHead(rs) ==> rs[t] == rs[0] - t
    ensures rs[0] - RunFromHead(rs) !in rs
  {
    if |rs| > 1 && rs[1] == rs[0] - 1 {
      var tail := rs[1..];
      RunFromHeadIsMaximal(tail);
      forall t | 0 <= t < RunFromHead(rs) ensures rs[t] == rs[0] - t {
        if t > 0 { assert rs[t] == tail[t - 1]; }
      }
    } else if |rs| > 1 {
      forall i | 1 <= i < |rs| ensures rs[i] < rs[0] - 1 {
        assert rs[i] <= rs[1];
      }
    }
  }

  lemma DescendingTail(ds: seq<int>)
    requires StrictlyDescending(ds) && ds != []
    ensures StrictlyDescending(ds[1..])
    ensures forall x :: x in ds ==> x <= ds[0]
  {
    forall x | x in ds ensures x <= ds[0] {
      var i :| 0 <= i < |ds| && ds[i] == x;
    }
  }

  lemma {:induction false} SkipFutureKeepsPast(ds: seq<int>, today: int)
    requires StrictlyDescending(ds)
    ensures StrictlyDescending(SkipFuture(ds, today))
    ensures forall x :: x in ds && x <= today ==> x in SkipFuture(ds, today)
    ensures forall x :: x in SkipFuture(ds, today) ==> x in ds && x <= SkipFuture(ds, today)[0]
  {
    if ds != [] {
      DescendingTail(ds);
      if ds[0] > today {
        SkipFutureKeepsPast(ds[1..], today);
        assert forall x :: x in ds[1..] ==> x in ds;
        assert forall x :: x in ds && x <= today ==> x in ds[1..];
      }
    }
  }

  /** The days a-n+1 .. a all have a session and the day a-n has none. */
  predicate EndsBlock(ds: seq<int>, a: int, n: nat)
  {
    (forall d :: a - n < d <= a ==> d in ds) && a - n !in ds
  }

  lemma RunFromHeadBlock(rs: seq<int>)
    requires StrictlyDescending(rs) && rs != []
    ensures EndsBlock(rs, rs[0], RunFromHead(rs))
  {
    RunFromHeadIsMaximal(rs);
    var n := RunFromHead(rs);
    forall d | rs[0] - n < d <= rs[0] ensures d in rs {
      assert rs[rs[0] - d] == d;
    }
  }

  lemma BlockTransfers(rs: seq<int>, ds: seq<int>, today: int, a: int, n: nat)
    requires forall x :: x in rs ==> x in ds
    requires forall x :: x in ds && x <= today ==> x in rs
    requires a <= today && EndsBlock(rs, a, n)
    ensures EndsBlock(ds, a, n)
  {
  }

  /** The corrected streak counts exactly the block of consecutive days anchored at today or yesterday. */
  lemma IntendedStreakIsMaximalBlock(ds: seq<int>, today: int)
    requires StrictlyDescending(ds)
    ensures IntendedCurrentStreak(ds, today) == 0 <==> today !in ds && today - 1 !in ds
    ensures today in ds ==> EndsBlock(ds, today, IntendedCurrentStreak(ds, today))
    ensures today !in ds && today - 1 in ds ==> EndsBlock(ds, today - 1, IntendedCurrentStreak(ds, today))
  {
    var rs := SkipFuture(ds, today);
    SkipFutureKeepsPast(ds, today);
    var n := IntendedCurrentStreak(ds, today);
    if rs != [] && (rs[0] == today || rs[0] == today - 1) {
      assert n == RunFromHead(rs) && n >= 1;
      RunFromHeadBlock(rs);
      assert rs[0] in rs;
      BlockTransfers(rs, ds, today, rs[0], n);
    } else {
      assert n == 0;
      assert today !in rs && today - 1 !in rs;
    }
  }

  /** The first index at which a longest run ends (its oldest day). */
  function FirstMaxEnd(ds: seq<int>, n: nat): (e: nat)
    requires 1 <= n <= |ds|
    ensures e < n && RunEndingAt(ds, e) == MaxRun(ds, n)
  {
    if n == 1 then 0
    else if RunEndingAt(ds, n - 1) > MaxRun(ds, n - 1) then n - 1
    else FirstMaxEnd(ds, n - 1)
  }

  /** Corrected longest-streak record: the oldest and the newest day of the first longest run. */
  function LongestRange(ds: seq<int>): Best
    requires ds != []
  {
    var e := FirstMaxEnd(ds, |ds|);
    var len := RunEndingAt(ds, e);
    Best(len, Some(ds[e]), Some(ds[e - len + 1]))
  }

  /** The corrected record spans exactly the longest run, and every day in between has a session. */
  lemma LongestRangeSpansRun(ds: seq<int>)
    requires ds != []
    ensures var b := LongestRange(ds);
      b.length == LongestRun(ds) && b.start.Some? && b.end.Some? &&
      b.end.value - b.start.value + 1 == b.length &&
      forall d :: b.start.value <= d <= b.end.value ==> d in ds
  {
    var e := FirstMaxEnd(ds, |ds|);
    var len := RunEndingAt(ds, e);
    RunIsConsecutive(ds, e, len - 1);
    forall d | ds[e] <= d <= ds[e] + len - 1 ensures d in ds {
      RunIsConsecutive(ds, e, d - ds[e]);
      assert ds[e - (d - ds[e])] == d;
    }
  }

  /** As written, the record for 10, 9, 8 (broken at 5) reports the dates 5 and 8 instead of 8 and 10. */
  lemma ScanReportsNeighbourDates()
    ensures ScanFinal([10, 9, 8, 5]) == Best(3, Some(5), Some(8))
    ensures LongestRange([10, 9, 8, 5]) == Best(3, Some(8), Some(10))
  {
    var ds := [10, 9, 8, 5];
    assert RunEndingAt(ds, 2) == 3;
    assert Scan(ds, 3) == Best(0, None, None);
    assert Scan(ds, 4) == Best(3, Some(5), Some(8));
    assert MaxRun(ds, 4) == 3;
  }
}
