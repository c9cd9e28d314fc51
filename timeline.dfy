/** The grouping step of the timeline endpoint: the `(Time, Focal)` rows of
    one well become one entry per distinct time, holding that time's focal
    values in ascending order, with the entries in ascending time order. */
module Timeline {
  import opened Table
  import opened Sorting

  /** One element of the JSON answer: `{"time": t, "focals": [z1, z2, ...]}`. */
  datatype Entry = Entry(time: int, focals: seq<int>)

  /** The times that occur in `rows`. */
  ghost function Times(rows: seq<Row>): set<int> {
    set r | r in rows :: r.time
  }

  /** The focal values of the rows at time `t`, in the order of the rows. */
  function FocalsAt(rows: seq<Row>, t: int): seq<int> {
    if rows == [] then []
    else
      var before := FocalsAt(rows[..|rows| - 1], t);
      var last := rows[|rows| - 1];
      if last.time == t then before + [last.focal] else before
  }

  /** `f` occurs among the focals at time `t` exactly as often as the row `(t, f)` occurs. */
  lemma {:induction false} FocalsAtCount(rows: seq<Row>, t: int, f: int)
    ensures multiset(FocalsAt(rows, t))[f] == multiset(rows)[Row(t, f)]
  {
    if rows != [] {
      var init := rows[..|rows| - 1];
      FocalsAtCount(init, t, f);
      assert rows == init + [rows[|rows| - 1]];
    }
  }

  lemma {:induction false} FocalsAtMember(rows: seq<Row>, t: int, f: int)
    ensures f in FocalsAt(rows, t) <==> Row(t, f) in rows
  {
    FocalsAtCount(rows, t, f);
    assert f in FocalsAt(rows, t) <==> f in multiset(FocalsAt(rows, t));
    assert Row(t, f) in rows <==> Row(t, f) in multiset(rows);
  }

  lemma {:induction false} FocalsAtAbsent(rows: seq<Row>, t: int)
    requires t !in Times(rows)
    ensures FocalsAt(rows, t) == []
  {
    if FocalsAt(rows, t) != [] {
      FocalsAtMember(rows, t, FocalsAt(rows, t)[0]);
    }
  }

  /** Every time that occurs in the rows has at least one focal value. */
  lemma {:induction false} FocalsAtNonEmpty(rows: seq<Row>, t: int)
    requires t in Times(rows)
    ensures |FocalsAt(rows, t)| > 0
  {
    var r :| r in rows && r.time == t;
    FocalsAtMember(rows, t, r.focal);
  }

  /** `result` is a timeline of `rows`: strictly ascending times, each with
      its focal values sorted, exactly the row multiset's focals at that
      time, and exactly the times of the rows. */
  ghost predicate IsTimelineOf(result: seq<Entry>, rows: seq<Row>) {
    && (forall i, j :: 0 <= i < j < |result| ==> result[i].time < result[j].time)
    && (forall k :: 0 <= k < |result| ==> Sorted(result[k].focals))
    && (forall k :: 0 <= k < |result| ==>
          multiset(result[k].focals) == multiset(FocalsAt(rows, result[k].time)))
    && (forall t :: t in Times(rows) <==> exists k :: 0 <= k < |result| && result[k].time == t)
  }

  /** The first loop: `timeline[time].append(focal)` for each row, creating
      the key on first sight. A Python dict remembers the order in which its
      keys were added; `keys` is that order and `groups` the mapping. */
  method GroupByTime(rows: seq<Row>) returns (keys: seq<int>, groups: map<int, seq<int>>)
    ensures NoDuplicates(keys)
    ensures forall t :: t in keys <==> t in Times(rows)
    ensures forall t :: t in groups <==> t in keys
    ensures forall t :: t in groups ==> groups[t] == FocalsAt(rows, t)
  {
    keys, groups := [], map[];
    var i := 0;
    while i < |rows|
      invariant 0 <= i <= |rows|
      invariant NoDuplicates(keys)
      invariant forall t :: t in keys <==> t in Times(rows[..i])
      invariant forall t :: t in groups <==> t in keys
      invariant forall t :: t in groups ==> groups[t] == FocalsAt(rows[..i], t)
    {
      var row := rows[i];
      assert rows[..i + 1] == rows[..i] + [row];
      assert rows[..i + 1][..i] == rows[..i];
      assert Times(rows[..i + 1]) == Times(rows[..i]) + {row.time};
      ghost var before := groups;
      if row.time !in groups {
        keys := keys + [row.time];
        groups := groups[row.time := []];
      }
      groups := groups[row.time := groups[row.time] + [row.focal]];
      forall t | t in groups ensures groups[t] == FocalsAt(rows[..i + 1], t) {
        assert FocalsAt(rows[..i + 1], t)
          == FocalsAt(rows[..i], t) + (if row.time == t then [row.focal] else []);
        if t != row.time {
          assert groups[t] == before[t];
        } else if t !in before {
          FocalsAtAbsent(rows[..i], t);
        }
      }
      i := i + 1;
    }
    assert rows[..i] == rows;
  }

  /** The second loop: one entry per key, in `sorted(keys)` order, each with
      `sorted(groups[key])` as its focals. */
  method CollectEntries(keys: seq<int>, groups: map<int, seq<int>>) returns (result: seq<Entry>)
    requires NoDuplicates(keys)
    requires forall t :: t in keys ==> t in groups
    ensures forall i, j :: 0 <= i < j < |result| ==> result[i].time < result[j].time
    ensures forall t :: t in keys <==> exists k :: 0 <= k < |result| && result[k].time == t
    ensures forall k :: 0 <= k < |result| ==>
      (result[k].time in groups
       && Sorted(result[k].focals)
       && multiset(result[k].focals) == multiset(groups[result[k].time]))
  {
    var times := Sort(keys);
    SortKeys(keys);
    result := [];
    for k := 0 to |times|
      invariant |result| == k
      invariant forall m :: 0 <= m < k ==> result[m].time == times[m]
      invariant forall m :: 0 <= m < k ==> result[m].time in groups
      invariant forall m :: 0 <= m < k ==>
        Sorted(result[m].focals) && multiset(result[m].focals) == multiset(groups[result[m].time])
    {
      var t := times[k];
      assert t in times;
      var focals := Sort(groups[t]);
      result := result + [Entry(t, focals)];
    }
    forall t | t in keys ensures exists k :: 0 <= k < |result| && result[k].time == t {
      var k :| 0 <= k < |times| && times[k] == t;
      assert result[k].time == t;
    }
  }

  /** Sorting duplicate-free keys orders them strictly and keeps exactly the same keys. */
  lemma SortKeys(keys: seq<int>)
    requires NoDuplicates(keys)
    ensures StrictlyAscending(Sort(keys))
    ensures forall t :: t in Sort(keys) <==> t in keys
  {
    var times := Sort(keys);
    PermutationNoDuplicates(keys, times);
    forall t ensures t in times <==> t in keys {
      assert t in times <==> t in multiset(times);
      assert t in keys <==> t in multiset(keys);
    }
  }

  /** Lines 55-69 of `handle_timeline`: group the rows by time, then list the
      groups in time order with sorted focals. */
  method BuildTimeline(rows: seq<Row>) returns (result: seq<Entry>)
    ensures IsTimelineOf(result, rows)
    ensures forall k :: 0 <= k < |result| ==> |result[k].focals| > 0
  {
    var keys, groups := GroupByTime(rows);
    result := CollectEntries(keys, groups);
    forall k | 0 <= k < |result| ensures |result[k].focals| > 0 {
      FocalsAtNonEmpty(rows, result[k].time);
    }
  }

  /** The timeline depends only on the multiset of rows, not on their order,
      and is unique: two timelines of rearrangements of the same rows are equal. */
  lemma TimelineOrderIndependent(r1: seq<Entry>, rows1: seq<Row>, r2: seq<Entry>, rows2: seq<Row>)
    requires IsTimelineOf(r1, rows1) && IsTimelineOf(r2, rows2)
    requires multiset(rows1) == multiset(rows2)
    ensures r1 == r2
  {
    assert Times(rows1) == Times(rows2) by {
      forall r ensures r in rows1 <==> r in rows2 {
        assert r in rows1 <==> r in multiset(rows1);
        assert r in rows2 <==> r in multiset(rows2);
      }
    }
    var ts1 := seq(|r1|, k requires 0 <= k < |r1| => r1[k].time);
    var ts2 := seq(|r2|, k requires 0 <= k < |r2| => r2[k].time);
    forall x ensures x in ts1 <==> x in ts2 {
      if x in ts1 {
        var k :| 0 <= k < |ts1| && ts1[k] == x;
        assert r1[k].time == x;
        assert x in Times(rows1) && x in Times(rows2);
        var j :| 0 <= j < |r2| && r2[j].time == x;
        assert ts2[j] == x;
      }
      if x in ts2 {
        var k :| 0 <= k < |ts2| && ts2[k] == x;
        assert r2[k].time == x;
        assert x in Times(rows2) && x in Times(rows1);
        var j :| 0 <= j < |r1| && r1[j].time == x;
        assert ts1[j] == x;
      }
    }
    StrictlyAscendingUnique(ts1, ts2);
    assert |r1| == |r2|;
    forall k | 0 <= k < |r1| ensures r1[k] == r2[k] {
      var t := r1[k].time;
      assert ts1[k] == ts2[k];
      forall f ensures multiset(FocalsAt(rows1, t))[f] == multiset(FocalsAt(rows2, t))[f] {
        FocalsAtCount(rows1, t, f);
        FocalsAtCount(rows2, t, f);
      }
      assert multiset(FocalsAt(rows1, t)) == multiset(FocalsAt(rows2, t));
      SortedUnique(r1[k].focals, r2[k].focals);
    }
  }

  /** Being a timeline of some rows depends only on their multiset. */
  lemma TimelineOfRearrangement(result: seq<Entry>, rows1: seq<Row>, rows2: seq<Row>)
    requires IsTimelineOf(result, rows1)
    requires multiset(rows1) == multiset(rows2)
    ensures IsTimelineOf(result, rows2)
  {
    forall r ensures r in rows1 <==> r in rows2 {
      assert r in rows1 <==> r in multiset(rows1);
      assert r in rows2 <==> r in multiset(rows2);
    }
    assert Times(rows1) == Times(rows2);
    forall t ensures multiset(FocalsAt(rows1, t)) == multiset(FocalsAt(rows2, t)) {
      forall f ensures multiset(FocalsAt(rows1, t))[f] == multiset(FocalsAt(rows2, t))[f] {
        FocalsAtCount(rows1, t, f);
        FocalsAtCount(rows2, t, f);
      }
    }
  }

  /** Every entry of a timeline is backed by the rows: each focal value `f`
      listed under time `t` comes from a row `(t, f)`, and each row is listed. */
  lemma TimelineCoversRows(result: seq<Entry>, rows: seq<Row>)
    requires IsTimelineOf(result, rows)
    ensures forall k, f :: 0 <= k < |result| && f in result[k].focals ==> Row(result[k].time, f) in rows
    ensures forall r :: r in rows ==> exists k :: 0 <= k < |result| && result[k].time == r.time && r.focal in result[k].focals
  {
    forall k, f | 0 <= k < |result| && f in result[k].focals ensures Row(result[k].time, f) in rows {
      assert f in multiset(result[k].focals);
      FocalsAtMember(rows, result[k].time, f);
    }
    forall r | r in rows ensures exists k :: 0 <= k < |result| && result[k].time == r.time && r.focal in result[k].focals {
      assert r.time in Times(rows);
      var k :| 0 <= k < |result| && result[k].time == r.time;
      FocalsAtMember(rows, r.time, r.focal);
      assert r.focal in multiset(result[k].focals);
    }
  }
}
