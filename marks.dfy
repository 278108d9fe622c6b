/**
 * `groupByWeekIndex`: marks bucketed by their week, each bucket in input
 * order. The JavaScript `Map` becomes a Dafny `map`; the order in which the
 * `Map` lists its keys (first appearance) is `WeekOrder`.
 */
module Marks {

  import opened StoreApi
  import opened Sequences

  /** The weeks some mark of `marks` is placed in. */
  function WeekIndices(marks: seq<LifeMark>): set<int> {
    set i | 0 <= i < |marks| :: marks[i].weekIndex
  }

  /** `marks.filter(m => m.weekIndex === k)`. */
  function WithWeek(marks: seq<LifeMark>, k: int): (r: seq<LifeMark>)
    ensures forall i :: 0 <= i < |r| ==> r[i].weekIndex == k
    ensures IsSubsequence(r, marks)
    ensures forall m :: m in marks && m.weekIndex == k ==> m in r
    ensures r == [] <==> k !in WeekIndices(marks)
    decreases |marks|
  {
    if marks == [] then []
    else
      var init, m := marks[..|marks| - 1], marks[|marks| - 1];
      var r0 := WithWeek(init, k);
      assert marks == init + [m];
      assert forall x :: x in marks <==> x in init || x == m;
      WeekIndicesSnoc(init, m);
      if m.weekIndex == k then
        SubsequenceKeep(r0, init, m);
        assert (r0 + [m])[|r0|] == m;
        r0 + [m]
      else
        SubsequenceSkip(r0, init, m);
        r0
  }

  lemma WithWeekSnoc(init: seq<LifeMark>, m: LifeMark, k: int)
    ensures WithWeek(init + [m], k) == if m.weekIndex == k then WithWeek(init, k) + [m] else WithWeek(init, k)
  {
    assert (init + [m])[..|init|] == init;
  }

  /**
   * `groupByWeekIndex(marks)`: one bucket for each week some mark has, and
   * the bucket of week `k` is exactly the marks of week `k`, in input order.
   */
  method GroupByWeekIndex(marks: seq<LifeMark>) returns (groups: map<int, seq<LifeMark>>)
    ensures groups.Keys == WeekIndices(marks)
    ensures forall k :: k in groups ==> groups[k] == WithWeek(marks, k)
  {
    groups := map[];
    var i := 0;
    while i < |marks|
      invariant 0 <= i <= |marks|
      invariant groups.Keys == WeekIndices(marks[..i])
      invariant forall k :: k in groups ==> groups[k] == WithWeek(marks[..i], k)
    {
      var m, prefix := marks[i], marks[..i];
      assert marks[..i + 1] == prefix + [m];
      WeekIndicesSnoc(prefix, m);
      var bucket := if m.weekIndex in groups then groups[m.weekIndex] else [];
      assert bucket == WithWeek(prefix, m.weekIndex);
      var next := groups[m.weekIndex := bucket + [m]];
      assert next.Keys == groups.Keys + {m.weekIndex};
      forall k | k in next
        ensures next[k] == WithWeek(prefix + [m], k)
      {
        WithWeekSnoc(prefix, m, k);
      }
      groups := next;
      i := i + 1;
    }
    assert marks[..i] == marks;
  }

  /** Every mark lands in the bucket of its own week. */
  lemma MarkInOwnBucket(marks: seq<LifeMark>, m: LifeMark)
    requires m in marks
    ensures m.weekIndex in WeekIndices(marks)
    ensures m in WithWeek(marks, m.weekIndex)
  {
    var i :| 0 <= i < |marks| && marks[i] == m;
  }

  /** No mark is grouped twice: marks of different weeks share no bucket. */
  lemma BucketsDisjoint(marks: seq<LifeMark>, j: int, k: int)
    requires j != k
    ensures forall m :: m in WithWeek(marks, j) ==> m !in WithWeek(marks, k)
  {
    forall m | m in WithWeek(marks, j) ensures m !in WithWeek(marks, k) {
      var r := WithWeek(marks, j);
      var i :| 0 <= i < |r| && r[i] == m;
    }
  }

  /** The weeks in order of first appearance: the key order of the `Map`. */
  function WeekOrder(marks: seq<LifeMark>): (ks: seq<int>)
    ensures forall i, j :: 0 <= i < j < |ks| ==> ks[i] != ks[j]
    ensures forall k :: k in ks <==> k in WeekIndices(marks)
    decreases |marks|
  {
    if marks == [] then []
    else
      var init, m := marks[..|marks| - 1], marks[|marks| - 1];
      var ks0 := WeekOrder(init);
      WeekIndicesSnoc(init, m);
      assert marks == init + [m];
      if m.weekIndex in ks0 then ks0 else ks0 + [m.weekIndex]
  }

  lemma WeekIndicesSnoc(init: seq<LifeMark>, m: LifeMark)
    ensures WeekIndices(init + [m]) == WeekIndices(init) + {m.weekIndex}
  {
    var marks := init + [m];
    forall w | w in WeekIndices(marks) ensures w in WeekIndices(init) + {m.weekIndex} {
      var i :| 0 <= i < |marks| && marks[i].weekIndex == w;
      if i < |init| { assert init[i] == marks[i]; }
    }
    forall w | w in WeekIndices(init) ensures w in WeekIndices(marks) {
      var i :| 0 <= i < |init| && init[i].weekIndex == w;
      assert marks[i] == init[i];
    }
    assert marks[|init|] == m;
  }

  /** Week `a` shows up in `marks` before week `b` first does. */
  predicate OccursBefore(marks: seq<LifeMark>, a: int, b: int) {
    exists p :: 0 <= p < |marks| && marks[p].weekIndex == a && forall q :: 0 <= q <= p ==> marks[q].weekIndex != b
  }

  lemma OccursBeforeSnoc(init: seq<LifeMark>, m: LifeMark, a: int, b: int)
    requires OccursBefore(init, a, b)
    ensures OccursBefore(init + [m], a, b)
  {
    var marks := init + [m];
    var p :| 0 <= p < |init| && init[p].weekIndex == a && forall q :: 0 <= q <= p ==> init[q].weekIndex != b;
    assert marks[p] == init[p];
    assert forall q :: 0 <= q <= p ==> marks[q] == init[q];
  }

  lemma OccursBeforeNew(init: seq<LifeMark>, m: LifeMark, a: int)
    requires a in WeekIndices(init) && m.weekIndex !in WeekIndices(init)
    ensures OccursBefore(init + [m], a, m.weekIndex)
  {
    var marks := init + [m];
    var p :| 0 <= p < |init| && init[p].weekIndex == a;
    assert marks[p] == init[p];
    forall q | 0 <= q <= p ensures marks[q].weekIndex != m.weekIndex {
      assert marks[q] == init[q];
    }
  }

  /** The key order is the order of first appearance: an earlier key shows up before a later one ever does. */
  lemma {:induction false} WeekOrderFirstAppearance(marks: seq<LifeMark>)
    ensures forall i, j :: 0 <= i < j < |WeekOrder(marks)| ==> OccursBefore(marks, WeekOrder(marks)[i], WeekOrder(marks)[j])
    decreases |marks|
  {
    if marks != [] {
      var init, m := marks[..|marks| - 1], marks[|marks| - 1];
      assert marks == init + [m];
      var ks0 := WeekOrder(init);
      var ks := WeekOrder(marks);
      WeekOrderFirstAppearance(init);
      forall i, j | 0 <= i < j < |ks| ensures OccursBefore(marks, ks[i], ks[j]) {
        if j < |ks0| {
          assert ks[i] == ks0[i] && ks[j] == ks0[j];
          OccursBeforeSnoc(init, m, ks0[i], ks0[j]);
        } else {
          assert ks[i] == ks0[i] && ks[j] == m.weekIndex;
          assert ks0[i] in ks0;
          OccursBeforeNew(init, m, ks0[i]);
        }
      }
    }
  }

  /** The sizes of the buckets of the weeks `ks`. */
  function BucketTotal(marks: seq<LifeMark>, ks: seq<int>): nat {
    if ks == [] then 0 else |WithWeek(marks, ks[0])| + BucketTotal(marks, ks[1..])
  }

  lemma {:induction false} BucketTotalAppend(marks: seq<LifeMark>, ks: seq<int>, k: int)
    ensures BucketTotal(marks, ks + [k]) == BucketTotal(marks, ks) + |WithWeek(marks, k)|
  {
    if ks != [] {
      assert (ks + [k])[1..] == ks[1..] + [k];
      BucketTotalAppend(marks, ks[1..], k);
    }
  }

  /** One more mark adds one to its own week's bucket among distinct weeks `ks`, and nothing to the others. */
  lemma {:induction false} BucketTotalSnoc(init: seq<LifeMark>, m: LifeMark, ks: seq<int>)
    requires forall i, j :: 0 <= i < j < |ks| ==> ks[i] != ks[j]
    ensures BucketTotal(init + [m], ks) == BucketTotal(init, ks) + (if m.weekIndex in ks then 1 else 0)
  {
    var marks := init + [m];
    assert marks[..|marks| - 1] == init;
    if ks != [] {
      BucketTotalSnoc(init, m, ks[1..]);
      assert m.weekIndex in ks <==> m.weekIndex == ks[0] || m.weekIndex in ks[1..];
    }
  }

  /** The bucket sizes add up to the number of marks: nothing is lost or counted twice. */
  lemma {:induction false} BucketSizesSum(marks: seq<LifeMark>)
    ensures BucketTotal(marks, WeekOrder(marks)) == |marks|
    decreases |marks|
  {
    if marks != [] {
      var init, m := marks[..|marks| - 1], marks[|marks| - 1];
      assert marks == init + [m];
      var ks0 := WeekOrder(init);
      BucketSizesSum(init);
      BucketTotalSnoc(init, m, ks0);
      if m.weekIndex !in ks0 {
        BucketTotalAppend(marks, ks0, m.weekIndex);
        assert WithWeek(init, m.weekIndex) == [];
        assert |WithWeek(marks, m.weekIndex)| == 1;
      }
    }
  }
}
