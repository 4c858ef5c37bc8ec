/**
 * The Most_Active_Cookie class: a log held as three parallel lists (cookie,
 * date, time), loaded row by row, searched for the run of entries of one
 * date, and tallied to find the date's most active cookies.
 */
module CookieLog {
  import opened Tally
  import opened Strings
  import opened Validation

  /** One row of the cookie log: its cookie column and its timestamp column. */
  datatype Row = Row(cookie: string, timestamp: string)

  datatype Result<T> = Success(value: T) | Failure(error: Error)

  datatype Option<T> = None | Some(value: T)

  /** A timestamp the row loop can split into a date and a time: exactly one 'T'. */
  predicate WellFormed(row: Row)
  {
    Count(row.timestamp, 'T') == 1
  }

  /**
   * The unpacking `date, time = timestamp.split('T')`: it succeeds exactly
   * when the split gives two pieces, that is when the timestamp holds one
   * 'T', and the pieces are the text before and after it.
   */
  function SplitTimestamp(timestamp: string): (r: Option<(string, string)>)
    ensures r.Some? <==> Count(timestamp, 'T') == 1
    ensures r.Some? ==> 'T' !in r.value.0 && 'T' !in r.value.1 && timestamp == r.value.0 + "T" + r.value.1
  {
    var parts := Split(timestamp, 'T');
    SplitCount(timestamp, 'T');
    if |parts| != 2 then None
    else
      SplitInTwo(timestamp, 'T', parts[0], parts[1]);
      assert parts == [parts[0], parts[1]];
      Some((parts[0], parts[1]))
  }

  /** A date and a time without 'T', joined by one, split back into themselves. */
  lemma SplitTimestampJoin(date: string, time: string)
    requires 'T' !in date && 'T' !in time
    ensures SplitTimestamp(date + "T" + time) == Some((date, time))
  {
    SplitInTwo(date + "T" + time, 'T', date, time);
  }

  /**
   * c, d and t extend c0, d0 and t0 by one entry per row: the row's cookie,
   * and the text before and after the one 'T' of its timestamp.
   */
  ghost predicate Appended(c0: seq<string>, d0: seq<string>, t0: seq<string>,
                           c: seq<string>, d: seq<string>, t: seq<string>, rows: seq<Row>)
  {
    && |c| == |c0| + |rows| && |d| == |d0| + |rows| && |t| == |t0| + |rows|
    && c[..|c0|] == c0 && d[..|d0|] == d0 && t[..|t0|] == t0
    && forall i :: 0 <= i < |rows| ==> IsEntryOf(c[|c0| + i], d[|d0| + i], t[|t0| + i], rows[i])
  }

  /**
   * The row loop stopped at a row k with a malformed timestamp: rows before
   * it were well formed and appended in full, and of row k only the cookie.
   */
  ghost predicate StoppedAt(c0: seq<string>, d0: seq<string>, t0: seq<string>,
                            c: seq<string>, d: seq<string>, t: seq<string>, rows: seq<Row>)
  {
    var k := |d| - |d0|;
    && 0 <= k < |rows| && !WellFormed(rows[k])
    && (forall j :: 0 <= j < k ==> WellFormed(rows[j]))
    && |c| == |c0| + k + 1 && c[|c| - 1] == rows[k].cookie
    && Appended(c0, d0, t0, c[..|c| - 1], d, t, rows[..k])
  }

  /** cookie, date and time are what the row loop stores for row. */
  ghost predicate IsEntryOf(cookie: string, date: string, time: string, row: Row)
  {
    cookie == row.cookie && SplitTimestamp(row.timestamp) == Some((date, time))
  }

  /** The log is sorted most recent first under Python's string comparison. */
  ghost predicate NonIncreasing(dates: seq<string>)
  {
    forall i, j :: 0 <= i < j < |dates| ==> !Less(dates[i], dates[j])
  }

  /** dates[start..end], both ends included, is a run of target that cannot be widened. */
  ghost predicate IsMaximalRun(dates: seq<string>, target: string, start: int, end: int)
  {
    && 0 <= start <= end < |dates|
    && (forall k :: start <= k <= end ==> dates[k] == target)
    && (start == 0 || dates[start - 1] != target)
    && (end == |dates| - 1 || dates[end + 1] != target)
  }

  /** The cookies of the entries dated target, in log order. */
  ghost function CookiesOn(cookies: seq<string>, dates: seq<string>, target: string): seq<string>
    requires |dates| <= |cookies|
  {
    if |dates| == 0 then []
    else
      var n := |dates| - 1;
      CookiesOn(cookies, dates[..n], target) + (if dates[n] == target then [cookies[n]] else [])
  }

  /** In a sorted log the entries dated target are exactly those of a maximal run of target. */
  lemma SortedRunHoldsAll(dates: seq<string>, target: string, start: int, end: int)
    requires NonIncreasing(dates) && IsMaximalRun(dates, target, start, end)
    ensures forall k :: 0 <= k < |dates| ==> (dates[k] == target <==> start <= k <= end)
  {
    forall k | 0 <= k < |dates| && dates[k] == target
      ensures start <= k <= end
    {
      if k < start - 1 {
        // target == dates[k] >= dates[start - 1] >= dates[start] == target
        var before := dates[start - 1];
        assert !Less(dates[k], dates[start - 1]) && !Less(dates[start - 1], dates[start]);
        LessTotal(before, target);
      } else if end + 1 < k {
        var after := dates[end + 1];
        assert !Less(dates[end], dates[end + 1]) && !Less(dates[end + 1], dates[k]);
        LessTotal(after, target);
      }
    }
  }

  /** In a sorted log a maximal run of target is as long as target's number of entries. */
  lemma SortedRunCount(dates: seq<string>, target: string, start: int, end: int)
    requires NonIncreasing(dates) && IsMaximalRun(dates, target, start, end)
    ensures Count(dates, target) == end - start + 1
  {
    SortedRunHoldsAll(dates, target, start, end);
    CountBlock(dates, target, start, end + 1);
  }

  /** No entry of dates[..n] is dated target, so none of its cookies is logged on target. */
  lemma {:induction false} CookiesOnNone(cookies: seq<string>, dates: seq<string>, target: string, n: nat)
    requires |dates| <= |cookies| && n <= |dates|
    requires forall k :: 0 <= k < n ==> dates[k] != target
    ensures CookiesOn(cookies, dates[..n], target) == []
  {
    if n > 0 {
      CookiesOnNone(cookies, dates, target, n - 1);
      CookiesOnStep(cookies, dates, target, n);
    }
  }

  /** The entries of dates[..n] dated target are exactly start..n - 1. */
  lemma {:induction false} CookiesOnBlock(cookies: seq<string>, dates: seq<string>, target: string,
                                          start: nat, n: nat)
    requires |dates| <= |cookies| && start <= n <= |dates|
    requires forall k :: 0 <= k < start ==> dates[k] != target
    requires forall k :: start <= k < n ==> dates[k] == target
    ensures CookiesOn(cookies, dates[..n], target) == cookies[start..n]
  {
    if n == start {
      CookiesOnNone(cookies, dates, target, start);
    } else {
      CookiesOnBlock(cookies, dates, target, start, n - 1);
      CookiesOnStep(cookies, dates, target, n);
      assert cookies[start..n] == cookies[start..n - 1] + [cookies[n - 1]];
    }
  }

  /** The entries of dates[..n] dated target are exactly start..end, which ends before n. */
  lemma {:induction false} CookiesOnAfter(cookies: seq<string>, dates: seq<string>, target: string,
                                          start: nat, end: nat, n: nat)
    requires |dates| <= |cookies| && start <= end < n <= |dates|
    requires forall k :: 0 <= k < start ==> dates[k] != target
    requires forall k :: start <= k <= end ==> dates[k] == target
    requires forall k :: end < k < n ==> dates[k] != target
    ensures CookiesOn(cookies, dates[..n], target) == cookies[start..end + 1]
  {
    if n == end + 1 {
      CookiesOnBlock(cookies, dates, target, start, n);
    } else {
      CookiesOnAfter(cookies, dates, target, start, end, n - 1);
      CookiesOnStep(cookies, dates, target, n);
    }
  }

  /** The entries of dates[..n] on target are those of dates[..n - 1] and possibly entry n - 1. */
  lemma CookiesOnStep(cookies: seq<string>, dates: seq<string>, target: string, n: nat)
    requires |dates| <= |cookies| && 0 < n <= |dates|
    ensures CookiesOn(cookies, dates[..n], target) ==
            CookiesOn(cookies, dates[..n - 1], target) + if dates[n - 1] == target then [cookies[n - 1]] else []
  {
    assert dates[..n][..n - 1] == dates[..n - 1];
  }

  /** In a sorted log a maximal run of target covers exactly the cookies logged on target. */
  lemma SortedRunIsCookiesOn(cookies: seq<string>, dates: seq<string>, target: string, start: int, end: int)
    requires |dates| <= |cookies|
    requires NonIncreasing(dates) && IsMaximalRun(dates, target, start, end)
    ensures cookies[start..end + 1] == CookiesOn(cookies, dates, target)
  {
    SortedRunHoldsAll(dates, target, start, end);
    BlockIsCookiesOn(cookies, dates, target, start, end);
  }

  /** When the entries dated target are exactly those of start..end, their cookies are that block. */
  lemma BlockIsCookiesOn(cookies: seq<string>, dates: seq<string>, target: string, start: int, end: int)
    requires |dates| <= |cookies| && 0 <= start <= end < |dates|
    requires forall k :: 0 <= k < |dates| ==> (dates[k] == target <==> start <= k <= end)
    ensures cookies[start..end + 1] == CookiesOn(cookies, dates, target)
  {
    CookiesOnAfter(cookies, dates, target, start, end, |dates|);
    assert dates[..|dates|] == dates;
  }

  /** Appending one more row's entry to an Appended state. */
  lemma AppendedStep(c0: seq<string>, d0: seq<string>, t0: seq<string>,
                     c: seq<string>, d: seq<string>, t: seq<string>, rows: seq<Row>, i: nat,
                     date: string, time: string)
    requires i < |rows| && Appended(c0, d0, t0, c, d, t, rows[..i])
    requires SplitTimestamp(rows[i].timestamp) == Some((date, time))
    ensures Appended(c0, d0, t0, c + [rows[i].cookie], d + [date], t + [time], rows[..i + 1])
  {
    var c', d', t', rows' := c + [rows[i].cookie], d + [date], t + [time], rows[..i + 1];
    assert c'[..|c0|] == c[..|c0|] && d'[..|d0|] == d[..|d0|] && t'[..|t0|] == t[..|t0|];
    forall k | 0 <= k < |rows'|
      ensures IsEntryOf(c'[|c0| + k], d'[|d0| + k], t'[|t0| + k], rows'[k])
    {
      if k < i {
        assert rows'[k] == rows[..i][k];
      }
    }
  }

  /** Every row that has left an entry behind had a well-formed timestamp. */
  lemma AppendedWellFormed(c0: seq<string>, d0: seq<string>, t0: seq<string>,
                           c: seq<string>, d: seq<string>, t: seq<string>, rows: seq<Row>, n: nat)
    requires n <= |rows| && Appended(c0, d0, t0, c, d, t, rows[..n])
    ensures forall j :: 0 <= j < n ==> WellFormed(rows[j])
  {
    forall j | 0 <= j < n
      ensures WellFormed(rows[j])
    {
      assert IsEntryOf(c[|c0| + j], d[|d0| + j], t[|t0| + j], rows[..n][j]);
    }
  }

  /** Each appended date and time glue back, around a 'T', into their row's timestamp. */
  lemma AppendedTimestamps(c0: seq<string>, d0: seq<string>, t0: seq<string>,
                           c: seq<string>, d: seq<string>, t: seq<string>, rows: seq<Row>)
    requires Appended(c0, d0, t0, c, d, t, rows)
    ensures forall i :: 0 <= i < |rows| ==>
              && c[|c0| + i] == rows[i].cookie
              && d[|d0| + i] + "T" + t[|t0| + i] == rows[i].timestamp
              && 'T' !in d[|d0| + i] && 'T' !in t[|t0| + i]
  {
    forall i | 0 <= i < |rows|
      ensures && c[|c0| + i] == rows[i].cookie
              && d[|d0| + i] + "T" + t[|t0| + i] == rows[i].timestamp
              && 'T' !in d[|d0| + i] && 'T' !in t[|t0| + i]
    {
      assert IsEntryOf(c[|c0| + i], d[|d0| + i], t[|t0| + i], rows[i]);
    }
  }

  /**
   * The counting loop of find_active_cookie, over the cookies of the found
   * run: a dictionary from cookie to number of entries, with keys listing
   * the dictionary's keys in insertion order.
   */
  method CountCookies(run: seq<string>) returns (frequency: map<string, nat>, keys: seq<string>)
    ensures frequency == Frequencies(run) && keys == Distinct(run)
  {
    keys, frequency := [], map[];
    var i := 0;
    assert frequency == Frequencies(run[..0]) && keys == Distinct(run[..0]) by {
      assert run[..0] == [];
    }
    while i < |run|
      invariant 0 <= i <= |run|
      invariant frequency == Frequencies(run[..i]) && keys == Distinct(run[..i])
    {
      var c := run[i];
      FrequenciesStep(run, i);
      if c in frequency {
        frequency := frequency[c := frequency[c] + 1];
      } else {
        frequency := frequency[c := 1];
        keys := keys + [c];
      }
      i := i + 1;
    }
    assert run[..|run|] == run;
  }

  /**
   * The maximum loop of find_active_cookie: walking the dictionary in key
   * order, a larger count restarts the output list and an equal count joins
   * it. The result is the mode list of the counted cookies.
   */
  method MostFrequent(frequency: map<string, nat>, keys: seq<string>, ghost w: seq<string>) returns (output: seq<string>)
    requires IsTally(frequency, keys, w)
    ensures output == Modes(w)
  {
    output := [];
    var maxCount := 0;
    var j := 0;
    assert keys[..0] == [];
    while j < |keys|
      invariant 0 <= j <= |keys|
      invariant maxCount == MaxCount(keys[..j], w)
      invariant output == WithCount(keys[..j], w, maxCount)
    {
      var key := keys[j];
      var value := frequency[key];
      assert value == Count(w, key);
      ModeStep(keys, w, j, maxCount, output);
      if value > maxCount {
        maxCount := value;
        output := [key];
      } else if value == maxCount {
        output := output + [key];
      }
      j := j + 1;
    }
    assert keys[..|keys|] == keys;
  }

  class MostActiveCookie {
    var cookies: seq<string>
    var dates: seq<string>
    var times: seq<string>  // stored, never read

    /**
     * dates and times always grow together; cookies is never shorter, and it
     * is one entry longer per row whose timestamp failed to split.
     */
    ghost predicate Valid()
      reads this
    {
      |dates| == |times| <= |cookies|
    }

    constructor ()
      ensures Valid()
      ensures cookies == [] && dates == [] && times == []
    {
      cookies, dates, times := [], [], [];
    }

    /**
     * load_data, with the CSV reader's rows given as a sequence: the path
     * check first, then one entry appended per row. A row whose timestamp
     * does not have exactly one 'T' stops the load with its cookie already
     * appended and its date and time not.
     */
    method LoadData(path: string, rows: seq<Row>) returns (r: Outcome)
      requires Valid()
      modifies this
      ensures Valid()
      ensures r == Pass || r == Fail(InvalidInput) || r == Fail(ParseError)
      ensures r == Fail(InvalidInput) <==> CheckFileCsv(path) == Fail(InvalidInput)
      ensures r == Fail(InvalidInput) ==> cookies == old(cookies) && dates == old(dates) && times == old(times)
      ensures r == Pass <==> CheckFileCsv(path) == Pass && forall i :: 0 <= i < |rows| ==> WellFormed(rows[i])
      ensures r == Pass ==> Appended(old(cookies), old(dates), old(times), cookies, dates, times, rows)
      ensures r == Fail(ParseError) ==> StoppedAt(old(cookies), old(dates), old(times), cookies, dates, times, rows)
    {
      r := CheckFileCsv(path);
      if r != Pass {
        return;
      }
      r := AppendRows(rows);
    }

    /** The row loop of load_data. */
    method AppendRows(rows: seq<Row>) returns (r: Outcome)
      requires Valid()
      modifies this
      ensures Valid()
      ensures r == Pass || r == Fail(ParseError)
      ensures r == Pass <==> forall i :: 0 <= i < |rows| ==> WellFormed(rows[i])
      ensures r == Pass ==> Appended(old(cookies), old(dates), old(times), cookies, dates, times, rows)
      ensures r == Fail(ParseError) ==> StoppedAt(old(cookies), old(dates), old(times), cookies, dates, times, rows)
    {
      r := Pass;
      var i := 0;
      assert rows[..0] == [];
      while i < |rows|
        invariant 0 <= i <= |rows| && Valid()
        invariant Appended(old(cookies), old(dates), old(times), cookies, dates, times, rows[..i])
      {
        var row := rows[i];
        ghost var before := cookies;
        cookies := cookies + [row.cookie];
        var parsed := SplitTimestamp(row.timestamp);
        if parsed.None? {
          assert cookies[..|cookies| - 1] == before;
          AppendedWellFormed(old(cookies), old(dates), old(times), before, dates, times, rows, i);
          return Fail(ParseError);
        }
        var date, time := parsed.value.0, parsed.value.1;
        AppendedStep(old(cookies), old(dates), old(times), before, dates, times, rows, i, date, time);
        dates := dates + [date];
        times := times + [time];
        i := i + 1;
      }
      assert rows[..|rows|] == rows;
      AppendedWellFormed(old(cookies), old(dates), old(times), cookies, dates, times, rows, |rows|);
    }

    /**
     * binary_search_indices: a binary search for target in dates, read as a
     * list sorted most recent first, widened on both sides to the whole run
     * of equal dates; (-1, -1) when the search finds no entry. It never
     * indexes out of range, whatever the order of dates.
     */
    method BinarySearchIndices(target: string) returns (start: int, end: int)
      ensures (start == -1 && end == -1) || IsMaximalRun(dates, target, start, end)
      ensures NonIncreasing(dates) ==> (start == -1 <==> target !in dates)
      ensures NonIncreasing(dates) && start != -1 ==> end - start + 1 == Count(dates, target)
    {
      var left, right := 0, |dates| - 1;
      while left <= right
        invariant 0 <= left <= right + 1 <= |dates|
        invariant NonIncreasing(dates) ==> forall k :: 0 <= k < left ==> dates[k] != target
        invariant NonIncreasing(dates) ==> forall k :: right < k < |dates| ==> dates[k] != target
        decreases right - left
      {
        var mid := (right + left) / 2;
        var midDate := dates[mid];
        if midDate == target {
          start, end := mid, mid;
          while start > 0 && dates[start - 1] == target
            invariant 0 <= start <= mid
            invariant forall k :: start <= k <= mid ==> dates[k] == target
          {
            start := start - 1;
          }
          while end < |dates| - 1 && dates[end + 1] == target
            invariant mid <= end < |dates|
            invariant forall k :: start <= k <= end ==> dates[k] == target
          {
            end := end + 1;
          }
          if NonIncreasing(dates) {
            SortedRunCount(dates, target, start, end);
          }
          return;
        } else if Less(midDate, target) {
          right := mid - 1;
        } else {
          if NonIncreasing(dates) {
            LessTotal(midDate, target);
          }
          left := mid + 1;
        }
      }
      start, end := -1, -1;
    }

    /**
     * find_active_cookie, returning the cookies it prints. The date is run
     * through CheckValidDate and the verdict discarded, so a malformed date
     * fails only when the search does not find it.
     */
    method FindActiveCookie(target: string) returns (r: Result<seq<string>>)
      requires Valid()
      ensures r.Failure? ==> r.error == DateNotFound
      ensures r.Success? ==> exists s, e :: IsMaximalRun(dates, target, s, e) && r.value == Modes(cookies[s..e + 1])
      ensures r.Success? ==> |r.value| > 0 && NoDuplicates(r.value)
      ensures NonIncreasing(dates) ==> (r.Failure? <==> target !in dates)
      ensures NonIncreasing(dates) && r.Success? ==> r.value == Modes(CookiesOn(cookies, dates, target))
    {
      var _ := CheckValidDate(target);
      var start, end := BinarySearchIndices(target);
      if start == -1 {
        return Failure(DateNotFound);
      }
      var run := cookies[start..end + 1];
      var frequency, keys := CountCookies(run);
      TallyCounts(run);
      var output := MostFrequent(frequency, keys, run);
      ModesNonEmpty(run);
      ModesFirstSeen(run);
      if NonIncreasing(dates) {
        SortedRunIsCookiesOn(cookies, dates, target, start, end);
      }
      r := Success(output);
    }
  }
}
