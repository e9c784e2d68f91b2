/** One polling pass of the bus thread (src/meter485/meters_poll485.c, and
    the older copy of the same loop in src/meter485/meters_call.c): the
    registered meters are visited in index order, a meter whose type has no
    read function is skipped, and the first read that returns non-zero ends
    the thread. What each read function does to the context is not part of
    this pass; its result is an input. */
module Scheduler {
  import opened Wire
  import opened MeterTypes

  /** The sleep after a pass in which every read returned 0. */
  const PassPauseMs: nat := 1000

  /** How a pass ends: the thread sleeps and starts the next pass from index
      0, or it leaves its loop after the read of meter `index` returned
      `code`. */
  datatype PassEnd = Sleep(ms: nat) | Stopped(index: nat, code: int)

  /** The indices of `table` whose type has a read function, in ascending
      order (ReadersAreReaders, ReadersComplete). */
  function Readers(table: seq<Parameters>, hasRead: u32 -> bool): (r: seq<nat>)
    ensures forall k :: 0 <= k < |r| ==> r[k] < |table|
  {
    if |table| == 0 then []
    else
      var n := |table| - 1;
      Readers(table[..n], hasRead) + (if hasRead(table[n].meterType) then [n] else [])
  }

  /** Every index listed has a read function, and the list ascends. */
  lemma {:induction false} ReadersAreReaders(table: seq<Parameters>, hasRead: u32 -> bool)
    ensures forall k :: 0 <= k < |Readers(table, hasRead)| ==>
      hasRead(table[Readers(table, hasRead)[k]].meterType)
    ensures forall j, k :: 0 <= j < k < |Readers(table, hasRead)| ==>
      Readers(table, hasRead)[j] < Readers(table, hasRead)[k]
  {
    if |table| > 0 {
      var n := |table| - 1;
      var front := Readers(table[..n], hasRead);
      ReadersAreReaders(table[..n], hasRead);
      forall k | 0 <= k < |front|
        ensures table[..n][front[k]] == table[front[k]]
      {
      }
    }
  }

  /** Every index with a read function is listed. */
  lemma {:induction false} ReadersComplete(table: seq<Parameters>, hasRead: u32 -> bool, i: nat)
    requires i < |table| && hasRead(table[i].meterType)
    ensures i in Readers(table, hasRead)
  {
    var n := |table| - 1;
    if i < n {
      assert table[..n][i] == table[i];
      ReadersComplete(table[..n], hasRead, i);
    }
  }

  /** The read functions called in a pass over `readers`, where the read of
      meter `i` returns `results[i]`, and how the pass ended: the calls are
      the readers up to the first non-zero result, which stops the pass, or
      all of them when every result is 0. */
  predicate IsPass(readers: seq<nat>, results: seq<int>, calls: seq<nat>, end: PassEnd)
    requires forall k :: 0 <= k < |readers| ==> readers[k] < |results|
  {
    |calls| <= |readers| && calls == readers[..|calls|] &&
    match end
    case Sleep(ms) =>
      ms == PassPauseMs && calls == readers &&
      forall k :: 0 <= k < |calls| ==> results[calls[k]] == 0
    case Stopped(i, code) =>
      |calls| > 0 && calls[|calls| - 1] == i && code == results[i] && code != 0 &&
      forall k :: 0 <= k < |calls| - 1 ==> results[calls[k]] == 0
  }

  /** The readers of a prefix of the table are a prefix of its readers. */
  lemma {:induction false} ReadersOfPrefix(table: seq<Parameters>, hasRead: u32 -> bool, m: nat)
    requires m <= |table|
    ensures |Readers(table[..m], hasRead)| <= |Readers(table, hasRead)|
    ensures Readers(table[..m], hasRead) == Readers(table, hasRead)[..|Readers(table[..m], hasRead)|]
    decreases |table|
  {
    if m < |table| {
      var n := |table| - 1;
      assert table[..n][..m] == table[..m];
      ReadersOfPrefix(table[..n], hasRead, m);
    } else {
      assert table[..m] == table;
    }
  }

  /** One pass of `meters_poll_bus485_Thread`: for each registered meter in
      turn, look up the read function of its type and, when there is one,
      call it; a non-zero result ends the thread. The pass reads the context
      and changes none of it, so the meter count it loops over stays fixed. */
  method PollPass(ctx: Context, hasRead: u32 -> bool, results: seq<int>) returns (calls: seq<nat>, end: PassEnd)
    requires ctx.Valid() && ctx.itemCount <= |results|
    ensures IsPass(Readers(ctx.parameters[..ctx.itemCount], hasRead), results, calls, end)
  {
    ghost var table := ctx.parameters[..ctx.itemCount];
    calls := [];
    for i := 0 to ctx.itemCount
      invariant calls == Readers(table[..i], hasRead)
      invariant forall k :: 0 <= k < |calls| ==> results[calls[k]] == 0
    {
      assert table[..i + 1][..i] == table[..i];
      assert table[..i + 1][i] == ctx.parameters[i];
      if hasRead(ctx.parameters[i].meterType) {
        calls := calls + [i];
        if results[i] != 0 {
          ReadersOfPrefix(table, hasRead, i + 1);
          end := Stopped(i, results[i]);
          return;
        }
      }
    }
    assert table[..ctx.itemCount] == table;
    end := Sleep(PassPauseMs);
  }

  // ---------------------------------------------------------------------
  // Properties

  /** A pass is determined by the readers and their results: two runs over
      the same readers with the same results call the same functions and end
      the same way. */
  lemma PassIsUnique(readers: seq<nat>, results: seq<int>, calls1: seq<nat>, end1: PassEnd, calls2: seq<nat>, end2: PassEnd)
    requires forall k :: 0 <= k < |readers| ==> readers[k] < |results|
    requires IsPass(readers, results, calls1, end1) && IsPass(readers, results, calls2, end2)
    ensures calls1 == calls2 && end1 == end2
  {
    if |calls1| < |calls2| {
      assert false;
    } else if |calls2| < |calls1| {
      assert false;
    }
  }

  /** Meters are visited in ascending index order, each at most once, and
      only registered meters whose type has a read function are visited. */
  lemma VisitsInOrder(table: seq<Parameters>, hasRead: u32 -> bool, results: seq<int>, calls: seq<nat>, end: PassEnd)
    requires |table| <= |results| && IsPass(Readers(table, hasRead), results, calls, end)
    ensures forall j, k :: 0 <= j < k < |calls| ==> calls[j] < calls[k]
    ensures forall k :: 0 <= k < |calls| ==> calls[k] < |table| && hasRead(table[calls[k]].meterType)
  {
    var r := Readers(table, hasRead);
    ReadersAreReaders(table, hasRead);
    forall j, k | 0 <= j < k < |calls|
      ensures calls[j] < calls[k]
    {
      assert calls[j] == r[j] && calls[k] == r[k];
    }
    forall k | 0 <= k < |calls|
      ensures calls[k] < |table| && hasRead(table[calls[k]].meterType)
    {
      assert calls[k] == r[k];
    }
  }

  /** In a pass over ascending readers that stops, the calls are exactly the
      readers up to the one that stopped it, and all of them but the last
      returned 0. */
  lemma StoppedPrefix(readers: seq<nat>, results: seq<int>, calls: seq<nat>, end: PassEnd)
    requires forall k :: 0 <= k < |readers| ==> readers[k] < |results|
    requires forall j, k :: 0 <= j < k < |readers| ==> readers[j] < readers[k]
    requires IsPass(readers, results, calls, end) && end.Stopped?
    ensures forall k :: 0 <= k < |calls| ==> calls[k] <= end.index
    ensures forall m :: 0 <= m < |readers| && readers[m] < end.index ==>
      m < |calls| - 1 && results[readers[m]] == 0 && readers[m] in calls
  {
    var n := |calls|;
    assert end.index == readers[n - 1];
    forall m | 0 <= m < |readers| && readers[m] < end.index
      ensures m < n - 1 && results[readers[m]] == 0 && readers[m] in calls
    {
      assert calls[m] == readers[m];
    }
  }

  /** A non-zero result ends the pass at the first meter that returns one:
      every meter with a read function before it returned 0 and was read, no
      meter after it is read, and the thread leaves its loop, so no later
      pass runs. */
  lemma FirstFailureStops(table: seq<Parameters>, hasRead: u32 -> bool, results: seq<int>, calls: seq<nat>, end: PassEnd)
    requires |table| <= |results| && IsPass(Readers(table, hasRead), results, calls, end)
    requires end.Stopped?
    ensures end.code != 0 && end.code == results[end.index]
    ensures forall k :: 0 <= k < |calls| ==> calls[k] <= end.index
    ensures forall j :: 0 <= j < end.index && hasRead(table[j].meterType) ==> results[j] == 0 && j in calls
  {
    var r := Readers(table, hasRead);
    ReadersAreReaders(table, hasRead);
    StoppedPrefix(r, results, calls, end);
    forall j | 0 <= j < end.index && hasRead(table[j].meterType)
      ensures results[j] == 0 && j in calls
    {
      ReadersComplete(table, hasRead, j);
      var m :| 0 <= m < |r| && r[m] == j;
    }
  }

  /** A multiset of an ascending sequence holds each of its elements once. */
  lemma {:induction false} AscendingOnce(s: seq<nat>, x: nat)
    requires forall j, k :: 0 <= j < k < |s| ==> s[j] < s[k]
    ensures multiset(s)[x] == if x in s then 1 else 0
  {
    if |s| > 0 {
      var n := |s| - 1;
      assert s == s[..n] + [s[n]];
      AscendingOnce(s[..n], x);
      assert x == s[n] ==> x !in s[..n];
      assert x in s <==> x in s[..n] || x == s[n];
    }
  }

  /** A pass ends in the sleep exactly when every meter with a read function
      returns 0, and then each of those meters is read exactly once and no
      other meter is. */
  lemma AllZeroPass(table: seq<Parameters>, hasRead: u32 -> bool, results: seq<int>, calls: seq<nat>, end: PassEnd)
    requires |table| <= |results| && IsPass(Readers(table, hasRead), results, calls, end)
    ensures end.Sleep? <==> forall j :: 0 <= j < |table| && hasRead(table[j].meterType) ==> results[j] == 0
    ensures end.Sleep? ==> end.ms == PassPauseMs
    ensures end.Sleep? ==>
      forall j :: 0 <= j < |table| ==> multiset(calls)[j] == if hasRead(table[j].meterType) then 1 else 0
  {
    var r := Readers(table, hasRead);
    ReadersAreReaders(table, hasRead);
    if end.Sleep? {
      forall j | 0 <= j < |table| && hasRead(table[j].meterType)
        ensures results[j] == 0
      {
        ReadersComplete(table, hasRead, j);
        var k :| 0 <= k < |r| && r[k] == j;
        assert results[calls[k]] == 0;
      }
      forall j | 0 <= j < |table|
        ensures multiset(calls)[j] == if hasRead(table[j].meterType) then 1 else 0
      {
        AscendingOnce(calls, j);
        if hasRead(table[j].meterType) {
          ReadersComplete(table, hasRead, j);
        }
      }
    } else {
      assert r[|calls| - 1] == end.index;
      assert end.index < |table| && hasRead(table[end.index].meterType);
    }
  }

  /** With no registered meters a pass reads nothing and goes to sleep. */
  lemma EmptyRegistry(table: seq<Parameters>, hasRead: u32 -> bool, results: seq<int>, calls: seq<nat>, end: PassEnd)
    requires |table| == 0 && IsPass(Readers(table, hasRead), results, calls, end)
    ensures calls == [] && end == Sleep(PassPauseMs)
  {
  }
}
