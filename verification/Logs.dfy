/**
 The writer of one source's daily log files. The clock and the outcome of
 opening a file and appending to it come with the record.
 */
module Logs {
  import opened Wrappers

  /** A record as it is written, the day it is received on, whether the file of
      that day can be opened then, and whether the record can be encoded and appended. */
  datatype Received = Received(line: Bytes, day: int, opens: bool, appends: bool)

  /** Lines by day. */
  type DayFiles = map<int, seq<Bytes>>

  function Lines(files: DayFiles, day: int): seq<Bytes> {
    if day in files then files[day] else []
  }

  /** `current` is the day of the last file opened; `file` the file held open. */
  datatype Writer = Writer(files: DayFiles, current: Option<int>, file: Option<int>)

  function Rotate(w: Writer, r: Received): Writer {
    if w.current == Some(r.day) then w
    else if r.opens then Writer(w.files[r.day := Lines(w.files, r.day)], Some(r.day), Some(r.day))
    else w.(file := None)
  }

  function Receive(w: Writer, r: Received): Writer {
    var w' := Rotate(w, r);
    if w'.file.None? || !r.appends then w'
    else w'.(files := w'.files[w'.file.value := Lines(w'.files, w'.file.value) + [r.line]])
  }

  function ReceiveAll(w: Writer, rs: seq<Received>): Writer {
    if rs == [] then w else Receive(ReceiveAll(w, rs[..|rs| - 1]), rs[|rs| - 1])
  }

  function Start(files: DayFiles): Writer { Writer(files, None, None) }

  class LogWriter {
    var files: DayFiles

    /** `writer_loop`, over everything the channel delivers. */
    method Run(rs: seq<Received>)
      modifies this
      ensures files == ReceiveAll(Start(old(files)), rs).files
    {
      var current: Option<int>, file: Option<int> := None, None;
      for i := 0 to |rs|
        invariant Writer(files, current, file) == ReceiveAll(Start(old(files)), rs[..i])
      {
        var today := rs[i].day;
        assert rs[..i + 1][..i] == rs[..i];
        if current != Some(today) {
          file := None;
          if !rs[i].opens {
            continue;
          }
          files := files[today := Lines(files, today)];
          file, current := Some(today), Some(today);
        }
        if file.Some? && rs[i].appends {
          files := files[file.value := Lines(files, file.value) + [rs[i].line]];
        }
      }
      assert rs[..|rs|] == rs;
    }
  }

  // ------------------------------------------------------- what happens to a record

  /** The record hit a failed open. */
  predicate Missed(w: Writer, r: Received) { w.current != Some(r.day) && !r.opens }

  /** The record is dropped although no open failed for it: its day is the
      current one, but the file was given up on another day. */
  predicate Dropped(w: Writer, r: Received) { w.current == Some(r.day) && w.file.None? }

  /** The writer's memory before record `k`. */
  function Before(rs: seq<Received>, k: nat): Writer
    requires k <= |rs|
  {
    ReceiveAll(Start(map[]), rs[..k])
  }

  ghost predicate Sound(w: Writer) { w.file.Some? ==> w.file == w.current }

  lemma ReceiveOne(w: Writer, r: Received, day: int)
    requires Sound(w)
    ensures Sound(Receive(w, r))
    ensures Lines(Receive(w, r).files, day) ==
            if day == r.day && r.appends && !Missed(w, r) && !Dropped(w, r) then Lines(w.files, day) + [r.line]
            else Lines(w.files, day)
  {
  }

  /** Days and handles do not depend on what the files hold. */
  lemma {:induction false} MemoryAlike(files: DayFiles, rs: seq<Received>)
    ensures var w, v := ReceiveAll(Start(files), rs), ReceiveAll(Start(map[]), rs);
            w.current == v.current && w.file == v.file && Sound(w) && Sound(v)
  {
    if rs != [] {
      MemoryAlike(files, rs[..|rs| - 1]);
    }
  }

  /** The lines of one day whose open and append did not fail. */
  function Expected(rs: seq<Received>, day: int): seq<Bytes> {
    if rs == [] then []
    else
      var n := |rs| - 1;
      var before := Expected(rs[..n], day);
      if rs[n].day == day && rs[n].appends && !Missed(ReceiveAll(Start(map[]), rs[..n]), rs[n]) then
        before + [rs[n].line]
      else
        before
  }

  function Appended(rs: seq<Received>, day: int): seq<Bytes> {
    if rs == [] then []
    else
      var n := |rs| - 1;
      var before, w := Appended(rs[..n], day), ReceiveAll(Start(map[]), rs[..n]);
      if rs[n].day == day && rs[n].appends && !Missed(w, rs[n]) && !Dropped(w, rs[n]) then before + [rs[n].line]
      else before
  }

  lemma {:induction false} AppendedIs(files: DayFiles, rs: seq<Received>, day: int)
    ensures Lines(ReceiveAll(Start(files), rs).files, day) == Lines(files, day) + Appended(rs, day)
  {
    if rs != [] {
      var n := |rs| - 1;
      AppendedIs(files, rs[..n], day);
      MemoryAlike(files, rs[..n]);
      ReceiveOne(ReceiveAll(Start(files), rs[..n]), rs[n], day);
    }
  }

  /** Record `k` makes the writer open the file of its day. */
  ghost predicate Opens(rs: seq<Received>, k: nat, day: int) {
    0 <= k < |rs| && rs[k].day == day && rs[k].opens && Before(rs, k).current != Some(day)
  }

  /** A day has a file exactly if it had one or the writer opened it, also if nothing could be appended. */
  lemma {:induction false} FileExistsExactlyWhen(files: DayFiles, rs: seq<Received>, day: int)
    ensures day in ReceiveAll(Start(files), rs).files <==> day in files || exists k: nat :: Opens(rs, k, day)
  {
    if rs != [] {
      var n := |rs| - 1;
      FileExistsExactlyWhen(files, rs[..n], day);
      MemoryAlike(files, rs[..n]);
      FileHeldExists(files, rs[..n]);
      forall k: nat | k < n ensures Opens(rs[..n], k, day) <==> Opens(rs, k, day) {
        assert rs[..n][..k] == rs[..k];
      }
      if k: nat :| Opens(rs, k, day) {
        assert k < n ==> Opens(rs[..n], k, day);
      }
      if k: nat :| Opens(rs[..n], k, day) {
        assert Opens(rs, k, day);
      }
      assert Opens(rs, n, day) <==>
             rs[n].day == day && rs[n].opens && ReceiveAll(Start(files), rs[..n]).current != Some(day);
    }
  }

  lemma {:induction false} FileHeldExists(files: DayFiles, rs: seq<Received>)
    ensures var w := ReceiveAll(Start(files), rs); w.file.Some? ==> w.file.value in w.files
  {
    if rs != [] {
      FileHeldExists(files, rs[..|rs| - 1]);
    }
  }

  ghost predicate Silent(rs: seq<Received>, k: nat) {
    k < |rs| && rs[k].appends && Dropped(Before(rs, k), rs[k])
  }

  lemma SilentPrefix(rs: seq<Received>, n: nat, k: nat)
    requires k < n <= |rs|
    ensures Silent(rs[..n], k) <==> Silent(rs, k)
  {
    assert rs[..n][..k] == rs[..k];
  }

  lemma {:induction false} NoneSilent(rs: seq<Received>, day: int)
    requires forall k :: 0 <= k < |rs| ==> !Silent(rs, k)
    ensures Appended(rs, day) == Expected(rs, day)
  {
    if rs != [] {
      var n := |rs| - 1;
      forall k | 0 <= k < n ensures !Silent(rs[..n], k) {
        SilentPrefix(rs, n, k);
      }
      NoneSilent(rs[..n], day);
      assert !Silent(rs, n);
    }
  }

  lemma {:induction false} SomeSilent(rs: seq<Received>, day: int, k: nat)
    ensures |Appended(rs, day)| <= |Expected(rs, day)|
    ensures Silent(rs, k) && rs[k].day == day ==> |Appended(rs, day)| < |Expected(rs, day)|
  {
    if rs != [] {
      var n := |rs| - 1;
      SomeSilent(rs[..n], day, k);
      if k < n {
        SilentPrefix(rs, n, k);
      }
    }
  }

  // ------------------------------------------------------- when the clock returns

  /** Day `rs[o].day`, whose file can be opened at `o`, is left at `i` and found
      again at `j` with a record that could be appended, and no other day's file
      can be opened in between. */
  predicate Returns(rs: seq<Received>, o: nat, i: nat, j: nat) {
    && o < i < j < |rs| && rs[o].opens && rs[j].appends
    && rs[o].day == rs[j].day != rs[i].day
    && forall k :: o < k < j && rs[k].day != rs[o].day ==> !rs[k].opens
  }

  ghost predicate NeverReturns(rs: seq<Received>) {
    forall o, i, j :: !Returns(rs, o, i, j)
  }

  lemma BeforeNext(rs: seq<Received>, k: nat)
    requires k < |rs|
    ensures Before(rs, k + 1) == Receive(Before(rs, k), rs[k])
  {
    assert rs[..k + 1][..k] == rs[..k];
  }

  /** Where the current day comes from, and why its file is not held open. */
  lemma {:induction false} Origin(rs: seq<Received>, n: nat) returns (o: nat, i: nat)
    requires n <= |rs| && Before(rs, n).current.Some?
    ensures o < n && rs[o].opens && Before(rs, n).current == Some(rs[o].day)
    ensures forall k :: o < k < n && rs[k].day != rs[o].day ==> !rs[k].opens
    ensures Before(rs, n).file.None? ==> o < i < n && rs[i].day != rs[o].day
  {
    assert n > 0;
    BeforeNext(rs, n - 1);
    var w, r := Before(rs, n - 1), rs[n - 1];
    if w.current != Some(r.day) && r.opens {
      o, i := n - 1, 0;
    } else {
      o, i := Origin(rs, n - 1);
      if w.current != Some(r.day) && w.file.Some? {
        i := n - 1;
      }
    }
  }

  /** After a file was opened at `o`, while no other can be. */
  lemma {:induction false} Stays(rs: seq<Received>, o: nat, n: nat)
    requires o < n <= |rs| && rs[o].opens
    requires forall k :: o < k < n && rs[k].day != rs[o].day ==> !rs[k].opens
    ensures Before(rs, n).current == Some(rs[o].day)
    ensures (exists i :: o < i < n && rs[i].day != rs[o].day) ==> Before(rs, n).file.None?
  {
    BeforeNext(rs, n - 1);
    if n - 1 > o {
      Stays(rs, o, n - 1);
      if i :| o < i < n && rs[i].day != rs[o].day {
        assert i < n - 1 ==> exists i' :: o < i' < n - 1 && rs[i'].day != rs[o].day;
      }
    }
  }

  lemma SilentExactlyWhen(rs: seq<Received>)
    ensures (exists k :: Silent(rs, k)) <==> !NeverReturns(rs)
  {
    if k :| Silent(rs, k) {
      var o, i := Origin(rs, k);
      assert Returns(rs, o, i, k);
    }
    if o, i, j :| Returns(rs, o, i, j) {
      Stays(rs, o, j);
      assert Silent(rs, j);
    }
  }

  /** Each day's file grows by exactly the records of that day whose open and
      append did not fail, in order, if and only if the clock never returns to a day whose
      file was closed for a day that could not be opened. */
  lemma RotationExactlyWhen(files: DayFiles, rs: seq<Received>)
    ensures (forall day :: Lines(ReceiveAll(Start(files), rs).files, day) == Lines(files, day) + Expected(rs, day))
            <==> NeverReturns(rs)
  {
    SilentExactlyWhen(rs);
    if NeverReturns(rs) {
      forall day ensures Lines(ReceiveAll(Start(files), rs).files, day) == Lines(files, day) + Expected(rs, day) {
        AppendedIs(files, rs, day);
        NoneSilent(rs, day);
      }
    } else {
      var k: nat :| Silent(rs, k);
      var day := rs[k].day;
      AppendedIs(files, rs, day);
      SomeSilent(rs, day, k);
      assert |Lines(ReceiveAll(Start(files), rs).files, day)| < |Lines(files, day) + Expected(rs, day)|;
    }
  }

  /** The clock goes back over a day that could not be opened: the third record
      belongs to a day whose file was opened, and is lost. */
  lemma ClockGoesBack(a: Bytes, b: Bytes, c: Bytes)
    ensures var rs := [Received(a, 1, true, true), Received(b, 0, false, true), Received(c, 1, true, true)];
            && Lines(ReceiveAll(Start(map[]), rs).files, 1) == [a]
            && Expected(rs, 1) == [a, c]
  {
    var rs := [Received(a, 1, true, true), Received(b, 0, false, true), Received(c, 1, true, true)];
    assert rs[..0] == [] && rs[..3] == rs;
    BeforeNext(rs, 0);
    BeforeNext(rs, 1);
    BeforeNext(rs, 2);
    ExpectedNext(rs, 0, 1);
    ExpectedNext(rs, 1, 1);
    ExpectedNext(rs, 2, 1);
  }

  lemma ExpectedNext(rs: seq<Received>, k: nat, day: int)
    requires k < |rs|
    ensures Expected(rs[..k + 1], day) ==
            if rs[k].day == day && rs[k].appends && !Missed(Before(rs, k), rs[k]) then
              Expected(rs[..k], day) + [rs[k].line]
            else Expected(rs[..k], day)
  {
    assert rs[..k + 1][..k] == rs[..k];
  }

  // ------------------------------------------------------- a clock that never goes back

  predicate Forward(rs: seq<Received>) {
    forall i, j :: 0 <= i < j < |rs| ==> rs[i].day <= rs[j].day
  }

  /** The writer's invariant: the current day's file is held open whenever the next record is of that day. */
  lemma ForwardHoldsOpen(rs: seq<Received>, k: nat)
    requires Forward(rs) && k < |rs|
    ensures Before(rs, k).current == Some(rs[k].day) ==> Before(rs, k).file == Some(rs[k].day)
  {
    MemoryAlike(map[], rs[..k]);
    if Before(rs, k).current == Some(rs[k].day) {
      var o, i := Origin(rs, k);
      assert rs[o].day == rs[k].day;
    }
  }

  /** With such a clock a record misses exactly when its day's file could not be opened up to then. */
  lemma ForwardMisses(rs: seq<Received>, k: nat)
    requires Forward(rs) && k < |rs|
    ensures Missed(Before(rs, k), rs[k]) <==> forall i :: 0 <= i <= k && rs[i].day == rs[k].day ==> !rs[i].opens
  {
    if Before(rs, k).current == Some(rs[k].day) {
      var o, _ := Origin(rs, k);
      assert rs[o].day == rs[k].day && rs[o].opens;
    } else if i :| 0 <= i < k && rs[i].day == rs[k].day && rs[i].opens {
      SilentExactlyWhen(rs);
      Stays(rs, i, k);
    }
  }

  function Kept(rs: seq<Received>): seq<Bytes> {
    if rs == [] then []
    else
      var n := |rs| - 1;
      if Missed(ReceiveAll(Start(map[]), rs[..n]), rs[n]) || !rs[n].appends then Kept(rs[..n])
      else Kept(rs[..n]) + [rs[n].line]
  }

  /** The days of the records, each once, in order of receipt. */
  function Days(rs: seq<Received>): seq<int> {
    if rs == [] then []
    else
      var before, day := Days(rs[..|rs| - 1]), rs[|rs| - 1].day;
      if day in before then before else before + [day]
  }

  function DayByDay(rs: seq<Received>, days: seq<int>): seq<Bytes> {
    if days == [] then [] else DayByDay(rs, days[..|days| - 1]) + Expected(rs, days[|days| - 1])
  }

  predicate Rising(days: seq<int>) {
    forall i, j :: 0 <= i < j < |days| ==> days[i] < days[j]
  }

  lemma {:induction false} DaysRise(rs: seq<Received>)
    requires Forward(rs)
    ensures Rising(Days(rs)) && forall d :: d in Days(rs) <==> exists k :: 0 <= k < |rs| && rs[k].day == d
    ensures rs != [] ==> Days(rs) != [] && Days(rs)[|Days(rs)| - 1] == rs[|rs| - 1].day
  {
    if rs != [] {
      var n := |rs| - 1;
      DaysRise(rs[..n]);
      var before, day := Days(rs[..n]), rs[n].day;
      forall d | d in before ensures d <= day {
        var k :| 0 <= k < |rs[..n]| && rs[..n][k].day == d;
        assert rs[k].day <= rs[n].day;
      }
      forall d ensures d in Days(rs) <==> exists k :: 0 <= k < |rs| && rs[k].day == d {
        if k :| 0 <= k < |rs| && rs[k].day == d {
          assert k < n ==> rs[..n][k].day == d;
        }
        if d in before {
          var k :| 0 <= k < |rs[..n]| && rs[..n][k].day == d;
          assert rs[k].day == d;
        }
        assert rs[n].day == day;
      }
    }
  }

  lemma {:induction false} OtherDaysAlike(rs: seq<Received>, days: seq<int>)
    requires rs != [] && rs[|rs| - 1].day !in days
    ensures DayByDay(rs, days) == DayByDay(rs[..|rs| - 1], days)
  {
    if days != [] {
      assert days[|days| - 1] in days;
      OtherDaysAlike(rs, days[..|days| - 1]);
    }
  }

  lemma {:induction false} NothingExpected(rs: seq<Received>, day: int)
    requires forall k :: 0 <= k < |rs| ==> rs[k].day != day
    ensures Expected(rs, day) == []
  {
    if rs != [] {
      NothingExpected(rs[..|rs| - 1], day);
    }
  }

  /** Read in the order of their days, the files hold the records whose open and
      append did not fail, in the order they were received. */
  lemma {:induction false} DayByDayIsArrival(rs: seq<Received>)
    requires Forward(rs)
    ensures DayByDay(rs, Days(rs)) == Kept(rs)
  {
    if rs != [] {
      var n := |rs| - 1;
      var before, day := Days(rs[..n]), rs[n].day;
      DayByDayIsArrival(rs[..n]);
      DaysRise(rs);
      DaysRise(rs[..n]);
      var days := Days(rs);
      var m := |days| - 1;
      assert days[m] == day;
      OtherDaysAlike(rs, days[..m]);
      if day !in before {
        NothingExpected(rs[..n], day);
        assert days[..m] == before;
      }
    }
  }

  /** Log rotation with a clock that never goes back: every day's file grows by
      exactly the records of that day whose open and append did not fail, in order,
      and what was added, in date order, is all of them in order of receipt. */
  lemma ForwardRotation(files: DayFiles, rs: seq<Received>)
    requires Forward(rs)
    ensures forall day :: Lines(ReceiveAll(Start(files), rs).files, day) == Lines(files, day) + Expected(rs, day)
    ensures Rising(Days(rs)) && DayByDay(rs, Days(rs)) == Kept(rs)
  {
    assert NeverReturns(rs);
    RotationExactlyWhen(files, rs);
    DaysRise(rs);
    DayByDayIsArrival(rs);
  }
}
