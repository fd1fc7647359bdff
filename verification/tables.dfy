// The break table and the avoid table of the renderer: lists of
// [start, end, break point] records kept in ascending order of start.
// Models insertIntoTable, deleteAvoidsBiggerThan, mergeAvoids and
// updateTables of pdf/PDFRenderer.java (identical in render/PDFRenderer.java).
module BreakTables {
  import opened Nodes

  /** One `float[]` table record: an interval of the document and the line to break at. */
  datatype Record = Record(start: real, end: real, breakPoint: real)

  function Starts(t: seq<Record>): (ys: seq<real>)
    ensures |ys| == |t|
    ensures forall i :: 0 <= i < |t| ==> ys[i] == t[i].start
  {
    if t == [] then [] else [t[0].start] + Starts(t[1..])
  }

  predicate SortedByStart(t: seq<Record>) {
    forall i, j :: 0 <= i < j < |t| ==> t[i].start <= t[j].start
  }

  /** The line falls strictly inside the record's interval. */
  predicate Encloses(r: Record, line: real) {
    r.start < line && r.end > line
  }

  /** The record spans more than `limit`. */
  predicate Wide(r: Record, limit: real) {
    r.end - r.start > limit
  }

  function Width(r: Record): real { r.end - r.start }

  // ---------------------------------------------------------------------
  // insertIntoTable

  /**
   * `insertIntoTable`: the record goes before the first record that starts
   * strictly later, so the table stays ordered and equal starts keep their
   * arrival order.
   */
  method InsertIntoTable(rec: Record, table: seq<Record>) returns (r: seq<Record>)
    ensures r == InsertAt(table, InsertPos(Starts(table), rec.start), rec)
    ensures multiset(r) == multiset(table) + multiset{rec}
    ensures SortedByStart(table) ==> SortedByStart(r)
  {
    var i := 0;
    while i < |table|
      invariant i <= |table|
      invariant forall j :: 0 <= j < i ==> table[j].start <= rec.start
    {
      if rec.start < table[i].start {
        break;
      }
      i := i + 1;
    }
    InsertPosIs(Starts(table), rec.start, i);
    r := table[..i] + [rec] + table[i..];
    InsertAtMultiset(table, i, rec);
    if SortedByStart(table) {
      InsertAtSorted(table, i, rec);
    }
  }

  lemma InsertAtMultiset(t: seq<Record>, k: nat, x: Record)
    requires k <= |t|
    ensures multiset(InsertAt(t, k, x)) == multiset(t) + multiset{x}
  {
    assert t == t[..k] + t[k..];
    assert multiset(t) == multiset(t[..k]) + multiset(t[k..]);
    assert multiset(InsertAt(t, k, x)) == multiset(t[..k]) + multiset{x} + multiset(t[k..]);
  }

  lemma InsertAtSorted(t: seq<Record>, k: nat, x: Record)
    requires k == InsertPos(Starts(t), x.start) && SortedByStart(t)
    ensures SortedByStart(InsertAt(t, k, x))
  {
    var ys := Starts(t);
    var r := InsertAt(t, k, x);
    InsertKeepsSorted(ys, x.start);
    var zs := InsertAt(ys, k, x.start);
    forall i | 0 <= i < |r| ensures r[i].start == zs[i] {
      if i < k {
        assert r[i] == t[i] && zs[i] == ys[i];
      } else if i > k {
        assert r[i] == t[i - 1] && zs[i] == ys[i - 1];
      }
    }
  }

  /** The table after `insertIntoTable` of each record of `recs` in turn. */
  function InsertEach(table: seq<Record>, recs: seq<Record>): seq<Record>
    decreases |recs|
  {
    if recs == [] then table
    else InsertEach(InsertAt(table, InsertPos(Starts(table), recs[0].start), recs[0]), recs[1..])
  }

  /** Inserting two batches one after the other is inserting their concatenation. */
  lemma {:induction false} InsertEachAppend(table: seq<Record>, a: seq<Record>, b: seq<Record>)
    ensures InsertEach(table, a + b) == InsertEach(InsertEach(table, a), b)
    decreases |a|
  {
    if a != [] {
      assert (a + b)[0] == a[0] && (a + b)[1..] == a[1..] + b;
      InsertEachAppend(InsertAt(table, InsertPos(Starts(table), a[0].start), a[0]), a[1..], b);
    } else {
      assert a + b == b;
    }
  }

  /** Inserting a batch adds exactly its records and keeps an ordered table ordered. */
  lemma {:induction false} InsertEachProperties(table: seq<Record>, recs: seq<Record>)
    ensures multiset(InsertEach(table, recs)) == multiset(table) + multiset(recs)
    ensures SortedByStart(table) ==> SortedByStart(InsertEach(table, recs))
    decreases |recs|
  {
    if recs != [] {
      var k := InsertPos(Starts(table), recs[0].start);
      var next := InsertAt(table, k, recs[0]);
      assert InsertEach(table, recs) == InsertEach(next, recs[1..]);
      InsertAtMultiset(table, k, recs[0]);
      if SortedByStart(table) {
        InsertAtSorted(table, k, recs[0]);
      }
      InsertEachProperties(next, recs[1..]);
      assert recs == [recs[0]] + recs[1..];
      assert multiset(recs) == multiset{recs[0]} + multiset(recs[1..]);
    }
  }

  /** Inserts the records of `recs` one after the other, as consecutive `insertIntoTable` calls do. */
  method InsertAll(table: seq<Record>, recs: seq<Record>) returns (r: seq<Record>)
    ensures r == InsertEach(table, recs)
    ensures multiset(r) == multiset(table) + multiset(recs)
    ensures SortedByStart(table) ==> SortedByStart(r)
  {
    r := table;
    var i := 0;
    while i < |recs|
      invariant i <= |recs|
      invariant InsertEach(r, recs[i..]) == InsertEach(table, recs)
    {
      assert recs[i..][0] == recs[i] && recs[i..][1..] == recs[i + 1..];
      r := InsertIntoTable(recs[i], r);
      i := i + 1;
    }
    assert recs[i..] == [];
    InsertEachProperties(table, recs);
  }

  // ---------------------------------------------------------------------
  // deleteAvoidsBiggerThan

  /**
   * What `deleteAvoidsBiggerThan` leaves: wide records are dropped, but the
   * loop index is not stepped back after a removal, so the record that slides
   * into the freed slot is never examined and stays.
   */
  function DeleteWide(t: seq<Record>, limit: real): (r: seq<Record>)
  {
    if t == [] then []
    else if Wide(t[0], limit) then (if |t| == 1 then [] else [t[1]] + DeleteWide(t[2..], limit))
    else [t[0]] + DeleteWide(t[1..], limit)
  }

  /**
   * `deleteAvoidsBiggerThan`, as written: removal at index i followed by i++.
   */
  method DeleteAvoidsBiggerThan(table: seq<Record>, limit: real) returns (r: seq<Record>)
    ensures r == DeleteWide(table, limit)
    ensures |r| <= |table|
    ensures multiset(r) <= multiset(table)
    ensures forall x :: x in multiset(table) - multiset(r) ==> Wide(x, limit)
    ensures SortedByStart(table) ==> SortedByStart(r)
  {
    r := table;
    var i := 0;
    while i < |r|
      invariant i <= |r| + 1
      invariant DeleteDone(r, i, limit) == DeleteWide(table, limit)
      decreases |r| - i + 1
    {
      if Wide(r[i], limit) {
        DeleteStepWide(r, i, limit);
        r := r[..i] + r[i + 1..];
      } else {
        DeleteStepKeep(r, i, limit);
      }
      i := i + 1;
    }
    if i <= |r| {
      assert r[i..] == [];
      assert r[..i] == r;
    }
    DeleteWideProperties(table, limit);
  }

  /** The outcome of the pass when indices below `i` have been dealt with. */
  function DeleteDone(r: seq<Record>, i: nat, limit: real): seq<Record> {
    if i <= |r| then r[..i] + DeleteWide(r[i..], limit) else r
  }

  /** Removing a wide record at `i` and stepping past its follower leaves the outcome unchanged. */
  lemma DeleteStepWide(r: seq<Record>, i: nat, limit: real)
    requires i < |r| && Wide(r[i], limit)
    ensures DeleteDone(r[..i] + r[i + 1..], i + 1, limit) == DeleteDone(r, i, limit)
  {
    var r' := r[..i] + r[i + 1..];
    var tail := r[i..];
    assert tail[0] == r[i];
    if i + 1 < |r| {
      assert tail[1] == r[i + 1] && tail[2..] == r[i + 2..];
      assert DeleteWide(tail, limit) == [r[i + 1]] + DeleteWide(r[i + 2..], limit);
      assert r'[..i + 1] == r[..i] + [r[i + 1]];
      assert r'[i + 1..] == r[i + 2..];
    } else {
      assert tail == [r[i]];
      assert r' == r[..i];
    }
  }

  /** Stepping past a record that is not wide leaves the outcome unchanged. */
  lemma DeleteStepKeep(r: seq<Record>, i: nat, limit: real)
    requires i < |r| && !Wide(r[i], limit)
    ensures DeleteDone(r, i + 1, limit) == DeleteDone(r, i, limit)
  {
    var tail := r[i..];
    assert tail[0] == r[i] && tail[1..] == r[i + 1..];
    assert DeleteWide(tail, limit) == [r[i]] + DeleteWide(r[i + 1..], limit);
    assert r[..i + 1] == r[..i] + [r[i]];
  }

  lemma {:induction false} DeleteWideProperties(t: seq<Record>, limit: real)
    ensures |DeleteWide(t, limit)| <= |t|
    ensures multiset(DeleteWide(t, limit)) <= multiset(t)
    ensures forall x :: x in multiset(t) - multiset(DeleteWide(t, limit)) ==> Wide(x, limit)
    ensures SortedByStart(t) ==> SortedByStart(DeleteWide(t, limit))
  {
    DeleteWideMultiset(t, limit);
    if SortedByStart(t) {
      DeleteWideSorted(t, limit);
    }
  }

  /** The records the pass drops. */
  ghost function Dropped(t: seq<Record>, limit: real): multiset<Record> {
    if t == [] then multiset{}
    else if Wide(t[0], limit) then (if |t| == 1 then multiset{t[0]} else multiset{t[0]} + Dropped(t[2..], limit))
    else Dropped(t[1..], limit)
  }

  /** Only wide records are dropped, and nothing is added. */
  lemma {:induction false} DeleteWideMultiset(t: seq<Record>, limit: real)
    ensures |DeleteWide(t, limit)| <= |t|
    ensures multiset(DeleteWide(t, limit)) <= multiset(t)
    ensures forall x :: x in multiset(t) - multiset(DeleteWide(t, limit)) ==> Wide(x, limit)
  {
    DeleteWideSplit(t, limit);
    DroppedWide(t, limit);
    assert multiset(t) - multiset(DeleteWide(t, limit)) == Dropped(t, limit);
    assert |multiset(t)| == |multiset(DeleteWide(t, limit))| + |Dropped(t, limit)|;
  }

  lemma {:induction false} DroppedWide(t: seq<Record>, limit: real)
    ensures forall x :: x in Dropped(t, limit) ==> Wide(x, limit)
  {
    if t == [] {
    } else if Wide(t[0], limit) {
      if |t| > 1 {
        DroppedWide(t[2..], limit);
      }
    } else {
      DroppedWide(t[1..], limit);
    }
  }

  /** Dropping the head of a sequence moves it from the kept part to the dropped part. */
  lemma MultisetDropHead<T>(t: seq<T>, kept: seq<T>, dropped: multiset<T>)
    requires t != [] && multiset(t[1..]) == multiset(kept) + dropped
    ensures multiset(t) == multiset(kept) + (multiset{t[0]} + dropped)
  {
    assert t == [t[0]] + t[1..];
  }

  /** Keeping the head of a sequence adds it to the kept part. */
  lemma MultisetKeepHead<T>(t: seq<T>, kept: seq<T>, dropped: multiset<T>)
    requires t != [] && multiset(t[1..]) == multiset(kept) + dropped
    ensures multiset(t) == multiset([t[0]] + kept) + dropped
  {
    assert t == [t[0]] + t[1..];
  }

  lemma {:induction false} DeleteWideSplit(t: seq<Record>, limit: real)
    ensures multiset(t) == multiset(DeleteWide(t, limit)) + Dropped(t, limit)
  {
    if t == [] {
    } else if Wide(t[0], limit) {
      if |t| > 1 {
        var rest := DeleteWide(t[2..], limit);
        DeleteWideSplit(t[2..], limit);
        assert t[1..][1..] == t[2..];
        MultisetKeepHead(t[1..], rest, Dropped(t[2..], limit));
        MultisetDropHead(t, [t[1]] + rest, Dropped(t[2..], limit));
      } else {
        assert t == [t[0]];
      }
    } else {
      DeleteWideSplit(t[1..], limit);
      MultisetKeepHead(t, DeleteWide(t[1..], limit), Dropped(t[1..], limit));
    }
  }

  /** The pass keeps the table in start order. */
  lemma {:induction false} DeleteWideSorted(t: seq<Record>, limit: real)
    requires SortedByStart(t)
    ensures SortedByStart(DeleteWide(t, limit))
    ensures forall x :: x in DeleteWide(t, limit) ==> x in t
  {
    if t == [] {
    } else if Wide(t[0], limit) {
      if |t| > 1 {
        var rest := DeleteWide(t[2..], limit);
        assert SortedByStart(t[2..]);
        DeleteWideSorted(t[2..], limit);
        forall j | 0 < j < |[t[1]] + rest| ensures ([t[1]] + rest)[0].start <= ([t[1]] + rest)[j].start {
          assert ([t[1]] + rest)[j] in t[2..];
        }
        assert forall x :: x in t[2..] ==> x in t;
      }
    } else {
      var rest := DeleteWide(t[1..], limit);
      assert SortedByStart(t[1..]);
      DeleteWideSorted(t[1..], limit);
      forall j | 0 < j < |[t[0]] + rest| ensures ([t[0]] + rest)[0].start <= ([t[0]] + rest)[j].start {
        assert ([t[0]] + rest)[j] in t[1..];
      }
      assert forall x :: x in t[1..] ==> x in t;
    }
  }

  /** A wide record right after a removed one survives the pass. */
  lemma {:induction false} DeleteSkipsFollower(t: seq<Record>, limit: real)
    requires |t| >= 2 && Wide(t[0], limit)
    ensures DeleteWide(t, limit)[0] == t[1]
  {
  }

  // ---------------------------------------------------------------------
  // mergeAvoids

  /**
   * What `last` becomes when the overlapping record `next` follows it: `next`
   * is dropped when the combined span would exceed `limit`, and otherwise
   * absorbed, extending the end of `last` to cover it.
   */
  function Absorb(last: Record, next: Record, limit: real): (r: Record)
    ensures r.start == last.start && r.breakPoint == last.breakPoint
    ensures r.end == last.end || (r.end == next.end && last.end < next.end && next.end - last.start <= limit)
  {
    if next.end - last.start > limit then last
    else last.(end := if last.end < next.end then next.end else last.end)
  }

  /**
   * `mergeAvoids` from the record `last` on: a following record that starts
   * inside `last` is absorbed into it (extending its end) when the combined
   * span stays within `limit`, and otherwise dropped; a record that does not
   * overlap becomes the new `last`.
   */
  function MergeRun(last: Record, rest: seq<Record>, limit: real): (r: seq<Record>)
    decreases |rest|
  {
    if rest == [] then [last]
    else if last.end > rest[0].start then MergeRun(Absorb(last, rest[0], limit), rest[1..], limit)
    else [last] + MergeRun(rest[0], rest[1..], limit)
  }

  function Merge(t: seq<Record>, limit: real): seq<Record> {
    if t == [] then [] else MergeRun(t[0], t[1..], limit)
  }

  /** `mergeAvoids`, as written: index loop from 1 with i-- after each removal. */
  method MergeAvoids(table: seq<Record>, limit: real) returns (r: seq<Record>)
    ensures r == Merge(table, limit)
    ensures |r| <= |table|
    ensures forall i :: 0 < i < |r| ==> r[i - 1].end <= r[i].start
    ensures SortedByStart(table) ==> SortedByStart(r)
    ensures (forall x :: x in table ==> !Wide(x, limit)) ==> forall x :: x in r ==> !Wide(x, limit)
  {
    r := table;
    if r == [] {
      return;
    }
    var i := 1;
    while i < |r|
      invariant 1 <= i <= |r|
      invariant MergeDone(r, i, limit) == Merge(table, limit)
      decreases |r| - i
    {
      MergeStep(r, i, limit);
      var prev, cur := r[i - 1], r[i];
      if prev.end > cur.start {
        // an overlapping record is merged into its predecessor when the
        // combined span fits the limit and dropped otherwise; the source's
        // `remove(i); i--;` followed by `i++` stays on index i
        if prev.end < cur.end && cur.end - prev.start <= limit {
          r := r[i - 1 := prev.(end := cur.end)];
        }
        r := r[..i] + r[i + 1..];
      } else {
        i := i + 1;
      }
    }
    assert r[i..] == [];
    assert r[..i - 1] + [r[i - 1]] == r;
    MergeProperties(table, limit);
  }

  /** The outcome of `mergeAvoids` once the records before index `i` are settled. */
  function MergeDone(r: seq<Record>, i: nat, limit: real): seq<Record>
    requires 1 <= i <= |r|
  {
    r[..i - 1] + MergeRun(r[i - 1], r[i..], limit)
  }

  /** One iteration of the `mergeAvoids` loop leaves its outcome unchanged. */
  lemma MergeStep(r: seq<Record>, i: nat, limit: real)
    requires 1 <= i < |r|
    ensures r[i - 1].end > r[i].start && r[i].end - r[i - 1].start > limit ==>
              MergeDone(r[..i] + r[i + 1..], i, limit) == MergeDone(r, i, limit)
    ensures r[i - 1].end > r[i].start && !(r[i].end - r[i - 1].start > limit) ==>
              var m := if r[i - 1].end < r[i].end then r[i - 1 := r[i - 1].(end := r[i].end)] else r;
              MergeDone(m[..i] + m[i + 1..], i, limit) == MergeDone(r, i, limit)
    ensures !(r[i - 1].end > r[i].start) ==> MergeDone(r, i + 1, limit) == MergeDone(r, i, limit)
  {
    assert r[i..] == [r[i]] + r[i + 1..];
    if r[i - 1].end > r[i].start {
      var m := if r[i - 1].end < r[i].end then r[i - 1 := r[i - 1].(end := r[i].end)] else r;
      var r' := m[..i] + m[i + 1..];
      assert r'[..i - 1] == r[..i - 1];
      assert r'[i..] == r[i + 1..];
      var r2 := r[..i] + r[i + 1..];
      assert r2[..i - 1] == r[..i - 1];
      assert r2[i..] == r[i + 1..];
    } else {
      assert r[..i] == r[..i - 1] + [r[i - 1]];
    }
  }

  lemma {:induction false} MergeRunShape(last: Record, rest: seq<Record>, limit: real)
    ensures 1 <= |MergeRun(last, rest, limit)| <= |rest| + 1
    ensures MergeRun(last, rest, limit)[0].start == last.start
    decreases |rest|
  {
    if rest == [] {
    } else if last.end > rest[0].start {
      MergeRunShape(Absorb(last, rest[0], limit), rest[1..], limit);
    } else {
      MergeRunShape(rest[0], rest[1..], limit);
    }
  }

  /** Consecutive records of the merged run do not overlap. */
  lemma {:induction false} MergeRunGaps(last: Record, rest: seq<Record>, limit: real)
    ensures forall i :: 0 < i < |MergeRun(last, rest, limit)| ==>
              MergeRun(last, rest, limit)[i - 1].end <= MergeRun(last, rest, limit)[i].start
    decreases |rest|
  {
    if rest == [] {
    } else if last.end > rest[0].start {
      MergeRunGaps(Absorb(last, rest[0], limit), rest[1..], limit);
    } else {
      var tail := MergeRun(rest[0], rest[1..], limit);
      MergeRunGaps(rest[0], rest[1..], limit);
      MergeRunShape(rest[0], rest[1..], limit);
      assert MergeRun(last, rest, limit) == [last] + tail;
    }
  }

  /** Merging a table ordered by start keeps it ordered by start. */
  lemma {:induction false} MergeRunSorted(last: Record, rest: seq<Record>, limit: real)
    requires SortedByStart([last] + rest)
    ensures SortedByStart(MergeRun(last, rest, limit))
    decreases |rest|
  {
    var all := [last] + rest;
    if rest == [] {
    } else if last.end > rest[0].start {
      var next := Absorb(last, rest[0], limit);
      var more := [next] + rest[1..];
      forall i, j | 0 <= i < j < |more| ensures more[i].start <= more[j].start {
        assert more[j] == all[j + 1];
        if i > 0 {
          assert more[i] == all[i + 1];
        } else {
          assert more[0].start == all[0].start;
        }
      }
      MergeRunSorted(next, rest[1..], limit);
    } else {
      var tail := MergeRun(rest[0], rest[1..], limit);
      assert rest == [rest[0]] + rest[1..];
      assert SortedByStart(rest) by {
        forall i, j | 0 <= i < j < |rest| ensures rest[i].start <= rest[j].start {
          assert rest[i] == all[i + 1] && rest[j] == all[j + 1];
        }
      }
      MergeRunSorted(rest[0], rest[1..], limit);
      MergeRunShape(rest[0], rest[1..], limit);
      assert MergeRun(last, rest, limit) == [last] + tail;
      forall j | 0 < j < |[last] + tail| ensures ([last] + tail)[0].start <= ([last] + tail)[j].start {
        assert ([last] + tail)[j] == tail[j - 1];
        assert all[0] == last && all[1] == rest[0];
        assert last.start <= tail[0].start;
        if j > 1 { assert tail[0].start <= tail[j - 1].start; }
      }
    }
  }

  /** Merging never produces a record wider than the limit out of records that are not. */
  lemma {:induction false} MergeRunNarrow(last: Record, rest: seq<Record>, limit: real)
    requires forall x :: x in [last] + rest ==> !Wide(x, limit)
    ensures forall x :: x in MergeRun(last, rest, limit) ==> !Wide(x, limit)
    decreases |rest|
  {
    var all := [last] + rest;
    if rest == [] {
    } else {
      assert all[0] == last && all[1] == rest[0];
      assert forall x :: x in rest ==> x in all;
      if last.end > rest[0].start {
        MergeRunNarrow(Absorb(last, rest[0], limit), rest[1..], limit);
      } else {
        MergeRunNarrow(rest[0], rest[1..], limit);
      }
    }
  }

  lemma MergeProperties(t: seq<Record>, limit: real)
    ensures |Merge(t, limit)| <= |t|
    ensures forall i :: 0 < i < |Merge(t, limit)| ==> Merge(t, limit)[i - 1].end <= Merge(t, limit)[i].start
    ensures SortedByStart(t) ==> SortedByStart(Merge(t, limit))
    ensures (forall x :: x in t ==> !Wide(x, limit)) ==> forall x :: x in Merge(t, limit) ==> !Wide(x, limit)
  {
    if t != [] {
      assert t == [t[0]] + t[1..];
      MergeRunShape(t[0], t[1..], limit);
      MergeRunGaps(t[0], t[1..], limit);
      if SortedByStart(t) {
        MergeRunSorted(t[0], t[1..], limit);
      }
      if forall x :: x in t ==> !Wide(x, limit) {
        MergeRunNarrow(t[0], t[1..], limit);
      }
    }
  }

  // ---------------------------------------------------------------------
  // updateTables

  function Shift(r: Record, d: real): Record {
    Record(r.start + d, r.end + d, r.breakPoint + d)
  }

  /** `r` is the table `t` with every record moved down by `d`. */
  predicate ShiftedBy(r: seq<Record>, t: seq<Record>, d: real) {
    |r| == |t| && forall i :: 0 <= i < |t| ==> r[i] == Shift(t[i], d)
  }

  /** Two shifts in a row are one shift by their sum. */
  lemma ShiftedTwice(t0: seq<Record>, t1: seq<Record>, t2: seq<Record>, d1: real, d2: real)
    requires ShiftedBy(t1, t0, d1) && ShiftedBy(t2, t1, d2)
    ensures ShiftedBy(t2, t0, d1 + d2)
  {
  }

  /** One table's half of `updateTables`: every field of every record moves by `d`. */
  method ShiftTable(table: seq<Record>, d: real) returns (r: seq<Record>)
    ensures |r| == |table|
    ensures forall i :: 0 <= i < |r| ==>
              r[i].start == table[i].start + d && r[i].end == table[i].end + d && r[i].breakPoint == table[i].breakPoint + d
  {
    r := table;
    var i := 0;
    while i < |r|
      invariant |r| == |table| && i <= |r|
      invariant forall j :: 0 <= j < i ==> r[j] == Shift(table[j], d)
      invariant forall j :: i <= j < |r| ==> r[j] == table[j]
    {
      r := r[i := Shift(r[i], d)];
      i := i + 1;
    }
  }

  /** Shifting keeps order, widths and adjacent gaps, and undoing it restores the table. */
  lemma {:induction false} ShiftPreserves(t: seq<Record>, r: seq<Record>, d: real)
    requires |r| == |t| && forall i :: 0 <= i < |t| ==> r[i] == Shift(t[i], d)
    ensures SortedByStart(t) <==> SortedByStart(r)
    ensures forall i :: 0 <= i < |t| ==> Width(r[i]) == Width(t[i])
    ensures forall i :: 0 < i < |t| ==> (t[i - 1].end <= t[i].start <==> r[i - 1].end <= r[i].start)
    ensures forall i :: 0 <= i < |t| ==> Shift(r[i], -d) == t[i]
  {
  }
}
