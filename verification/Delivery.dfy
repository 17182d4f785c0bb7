/**
 Any number of workers, one after another or at the same time, that share a
 queue directory. Every file operation and every reply is one event, and a
 process may be killed between any two of them. A listing may miss files that
 appear while it is made, so it may be any part of the directory.

 What a worker hands over is left open here; `Worker` says what it is.
 */
module Delivery {
  import opened Wrappers
  import opened Listing
  import opened Spool

  datatype Env = Env(codec: Codec, source: nat -> Bytes)

  datatype Phase =
    | Locking
    | Listing
    | Draining(todo: seq<string>)
    | Resending(path: string, request: Request, todo: seq<string>)
    | Removing(path: string, request: Request, todo: seq<string>)
    | Running
    | Exporting(request: Request)
    | Spooling(request: Request)

  /** `handed`, `acked` and `lost` are the requests handed over, acknowledged,
      and given up, all in order. */
  datatype State = State(
    files: Dir,
    lock: Option<nat>,
    workers: map<nat, Phase>,
    handed: seq<Request>,
    acked: seq<Request>,
    lost: seq<Request>)

  datatype Event =
    | Start(w: nat)
    | Acquire(w: nat) | Refuse(w: nat)
    | List(w: nat, paths: seq<string>) | Unlisted(w: nat)
    | Read(w: nat, ok: bool)
    | Reply(w: nat, ok: bool)
    | Remove(w: nat, ok: bool)
    | Release(w: nat)
    | Hand(w: nat, records: seq<LogRecord>)
    | Write(w: nat, uuid: Option<string>)
    | Exit(w: nat)
    | Kill(w: nat)

  ghost predicate Enabled(env: Env, s: State, e: Event) {
    match e
    case Start(w) => w !in s.workers
    case Acquire(w) => w in s.workers && s.workers[w].Locking? && s.lock.None?
    case Refuse(w) => w in s.workers && s.workers[w].Locking?
    case List(w, paths) =>
      w in s.workers && s.workers[w].Listing? && Ascending(paths) && forall p :: p in paths ==> p in Pending(s.files)
    case Unlisted(w) => w in s.workers && s.workers[w].Listing?
    case Read(w, _) => w in s.workers && s.workers[w].Draining? && s.workers[w].todo != []
    case Reply(w, _) => w in s.workers && (s.workers[w].Resending? || s.workers[w].Exporting?)
    case Remove(w, _) => w in s.workers && s.workers[w].Removing?
    case Release(w) => w in s.workers && s.workers[w] == Draining([])
    case Hand(w, records) => w in s.workers && s.workers[w].Running? && records != []
    case Write(w, uuid) =>
      w in s.workers && s.workers[w].Spooling? && (uuid.Some? ==> BatchName(uuid.value) !in s.files)
    case Exit(w) => w in s.workers && s.workers[w].Running?
    case Kill(w) => w in s.workers
  }

  function To(s: State, w: nat, phase: Phase): State {
    s.(workers := s.workers[w := phase])
  }

  function Unlock(s: State, w: nat): State {
    if s.lock == Some(w) then s.(lock := None) else s
  }

  /** What a read of `path` hands to the resend, if it succeeds. */
  function Decoded(env: Env, files: Dir, path: string): Option<Request> {
    if path in files then env.codec.decode(files[path]) else None
  }

  ghost function Apply(env: Env, s: State, e: Event): State
    requires Enabled(env, s, e)
  {
    match e
    case Start(w) => To(s, w, Locking)
    case Acquire(w) => To(s, w, Listing).(lock := Some(w))
    case Refuse(w) => To(s, w, Running)
    case List(w, paths) => To(s, w, Draining(paths))
    case Unlisted(w) => Unlock(To(s, w, Running), w)
    case Read(w, ok) =>
      var path, todo := s.workers[w].todo[0], s.workers[w].todo[1..];
      var request := Decoded(env, s.files, path);
      To(s, w, if ok && request.Some? then Resending(path, request.value, todo) else Draining(todo))
    case Reply(w, ok) =>
      var phase := s.workers[w];
      var acked := if ok then s.acked + [phase.request] else s.acked;
      var next := if phase.Resending? then
                    if ok then Removing(phase.path, phase.request, phase.todo) else Draining(phase.todo)
                  else if ok then Running else Spooling(phase.request);
      To(s, w, next).(acked := acked)
    case Remove(w, ok) =>
      To(s, w, Draining(s.workers[w].todo)).(files := if ok then s.files - {s.workers[w].path} else s.files)
    case Release(w) => Unlock(To(s, w, Running), w)
    case Hand(w, records) =>
      var request := Request(env.source(w), records);
      To(s, w, Exporting(request)).(handed := s.handed + [request])
    case Write(w, uuid) =>
      var request := s.workers[w].request;
      match uuid {
        case Some(id) => To(s, w, Running).(files := s.files[BatchName(id) := env.codec.encode(request)])
        case None => To(s, w, Running).(lost := s.lost + [request])
      }
    case Exit(w) => s.(workers := s.workers - {w})
    case Kill(w) =>
      var phase := s.workers[w];
      var lost := if phase.Exporting? || phase.Spooling? then s.lost + [phase.request] else s.lost;
      Unlock(s, w).(workers := s.workers - {w}, lost := lost)
  }

  ghost function Run(env: Env, s: State, es: seq<Event>): Option<State> {
    if es == [] then Some(s)
    else
      var before :- Run(env, s, es[..|es| - 1]);
      if Enabled(env, before, es[|es| - 1]) then Some(Apply(env, before, es[|es| - 1])) else None
  }

  // ------------------------------------------------------------- invariants

  predicate Replays(phase: Phase) {
    phase.Listing? || phase.Draining? || phase.Resending? || phase.Removing?
  }

  /** The batch files a replay has still to deal with. */
  function Ahead(phase: Phase): seq<string> {
    match phase
    case Draining(todo) => todo
    case Resending(path, _, todo) => [path] + todo
    case Removing(path, _, todo) => [path] + todo
    case _ => []
  }

  ghost predicate OrderlyAt(env: Env, s: State, w: nat)
    requires w in s.workers
  {
    var phase := s.workers[w];
    && (Replays(phase) ==> s.lock == Some(w))
    && (phase.Resending? || phase.Removing? ==> Decoded(env, s.files, phase.path) == Some(phase.request))
    && (phase.Removing? ==> phase.request in s.acked)
    && (forall p :: p in Ahead(phase) ==> IsBatch(p))
  }

  /** Only the holder of the lock replays, only batch files, and what it is about
      to remove is what it sent and what was acknowledged. */
  ghost predicate Orderly(env: Env, s: State) {
    forall w :: w in s.workers ==> OrderlyAt(env, s, w)
  }

  lemma StepOrderly(env: Env, s: State, e: Event)
    requires Orderly(env, s) && Enabled(env, s, e)
    ensures Orderly(env, Apply(env, s, e))
  {
    var s' := Apply(env, s, e);
    forall w | w in s'.workers ensures OrderlyAt(env, s', w) {
      if w in s.workers {
        assert OrderlyAt(env, s, w);
      }
      if e.w in s.workers {
        assert OrderlyAt(env, s, e.w);
      }
    }
  }

  lemma StepAcked(env: Env, s: State, e: Event)
    requires Enabled(env, s, e)
    ensures s.acked <= Apply(env, s, e).acked && s.lost <= Apply(env, s, e).lost
  {
  }

  /** A file disappears in one way only: its request was acknowledged. In
      particular a file that does not decode never does. */
  lemma StepKeepsFile(env: Env, s: State, e: Event, n: string)
    requires Orderly(env, s) && Enabled(env, s, e) && n in s.files
    ensures var s' := Apply(env, s, e);
            || (n in s'.files && s'.files[n] == s.files[n])
            || (&& e.Remove? && s.workers[e.w].path == n
                && Decoded(env, s.files, n).Some? && Decoded(env, s.files, n).value in s.acked)
  {
  }

  lemma {:induction false} RunOrderly(env: Env, s: State, es: seq<Event>)
    requires Orderly(env, s) && Run(env, s, es).Some?
    ensures Orderly(env, Run(env, s, es).value)
  {
    if es != [] {
      RunOrderly(env, s, es[..|es| - 1]);
      StepOrderly(env, Run(env, s, es[..|es| - 1]).value, es[|es| - 1]);
    }
  }

  /** The lock is held by a worker that is alive and replaying. */
  ghost predicate LockAlive(s: State) {
    s.lock.Some? ==> s.lock.value in s.workers && Replays(s.workers[s.lock.value])
  }

  lemma StepLockAlive(env: Env, s: State, e: Event)
    requires Orderly(env, s) && LockAlive(s) && Enabled(env, s, e)
    ensures LockAlive(Apply(env, s, e))
  {
    if e.w in s.workers {
      assert OrderlyAt(env, s, e.w);
    }
  }

  /** No worker that ended, was killed, or is done with its replay keeps the directory locked. */
  lemma {:induction false} LockIsReleased(env: Env, s: State, es: seq<Event>)
    requires Orderly(env, s) && LockAlive(s) && Run(env, s, es).Some?
    ensures LockAlive(Run(env, s, es).value)
  {
    if es != [] {
      var n := |es| - 1;
      LockIsReleased(env, s, es[..n]);
      RunOrderly(env, s, es[..n]);
      StepLockAlive(env, Run(env, s, es[..n]).value, es[n]);
    }
  }

  /** Event `i` acknowledges the very file `n`, sent as `request`. */
  ghost predicate AcknowledgedAt(env: Env, s: State, es: seq<Event>, i: nat, n: string, request: Request) {
    && i < |es| && es[i].Reply? && es[i].ok
    && var before := Run(env, s, es[..i]);
       && before.Some? && es[i].w in before.value.workers
       && var phase := before.value.workers[es[i].w];
          phase.Resending? && phase.path == n && phase.request == request
  }

  lemma AcknowledgedEarlier(env: Env, s: State, es: seq<Event>, k: nat, i: nat, n: string, request: Request)
    requires k <= |es| && AcknowledgedAt(env, s, es[..k], i, n, request)
    ensures AcknowledgedAt(env, s, es, i, n, request)
  {
    assert es[..k][..i] == es[..i];
  }

  ghost predicate NoneRemoving(s: State) {
    forall w :: w in s.workers ==> !s.workers[w].Removing?
  }

  lemma {:induction false} RemovalAcknowledged(env: Env, s: State, es: seq<Event>, w: nat) returns (i: nat)
    requires NoneRemoving(s) && Run(env, s, es).Some?
    requires w in Run(env, s, es).value.workers && Run(env, s, es).value.workers[w].Removing?
    ensures var phase := Run(env, s, es).value.workers[w];
            AcknowledgedAt(env, s, es, i, phase.path, phase.request)
  {
    var last := |es| - 1;
    var t := Run(env, s, es[..last]).value;
    var phase := Run(env, s, es).value.workers[w];
    if w in t.workers && t.workers[w] == phase {
      i := RemovalAcknowledged(env, s, es[..last], w);
      AcknowledgedEarlier(env, s, es, last, i, phase.path, phase.request);
    } else {
      i := last;
    }
  }

  /** Over every run, each file is still there unchanged, or it decoded and the
      very request read from it was acknowledged. */
  lemma {:induction false} FilesLeaveAcknowledged(env: Env, s: State, es: seq<Event>, n: string)
    requires Orderly(env, s) && NoneRemoving(s) && Run(env, s, es).Some? && n in s.files
    ensures var s' := Run(env, s, es).value;
            || (n in s'.files && s'.files[n] == s.files[n])
            || (&& Decoded(env, s.files, n).Some?
                && exists i :: AcknowledgedAt(env, s, es, i, n, Decoded(env, s.files, n).value))
  {
    if es != [] {
      var before, e, last := es[..|es| - 1], es[|es| - 1], |es| - 1;
      FilesLeaveAcknowledged(env, s, before, n);
      RunOrderly(env, s, before);
      var t := Run(env, s, before).value;
      if n in t.files && t.files[n] == s.files[n] {
        StepKeepsFile(env, t, e, n);
        if e.Remove? && t.workers[e.w].path == n {
          assert OrderlyAt(env, t, e.w);
          assert Decoded(env, s.files, n) == Decoded(env, t.files, n) == Some(t.workers[e.w].request);
          var i := RemovalAcknowledged(env, s, before, e.w);
          AcknowledgedEarlier(env, s, es, last, i, n, t.workers[e.w].request);
          assert AcknowledgedAt(env, s, es, i, n, Decoded(env, s.files, n).value);
        }
      } else {
        var i :| AcknowledgedAt(env, s, before, i, n, Decoded(env, s.files, n).value);
        AcknowledgedEarlier(env, s, es, last, i, n, Decoded(env, s.files, n).value);
      }
    }
  }

  /** The two ways to give a request up: the export and the write both failed,
      or the process died holding it. */
  predicate Mishap(s: State, e: Event) {
    || (e.Write? && e.uuid.None?)
    || (e.Kill? && e.w in s.workers && (s.workers[e.w].Exporting? || s.workers[e.w].Spooling?))
  }

  lemma StepLoses(env: Env, s: State, e: Event)
    requires Enabled(env, s, e)
    ensures Apply(env, s, e).lost != s.lost <==> Mishap(s, e)
  {
  }

  ghost predicate Faultless(env: Env, s: State, es: seq<Event>) {
    es == [] ||
    (var before := Run(env, s, es[..|es| - 1]);
     Faultless(env, s, es[..|es| - 1]) && (before.Some? ==> !Mishap(before.value, es[|es| - 1])))
  }

  lemma {:induction false} NothingLostExactlyWhen(env: Env, s: State, es: seq<Event>)
    requires Run(env, s, es).Some?
    ensures s.lost <= Run(env, s, es).value.lost
    ensures Run(env, s, es).value.lost == s.lost <==> Faultless(env, s, es)
  {
    if es != [] {
      var before, e := es[..|es| - 1], es[|es| - 1];
      NothingLostExactlyWhen(env, s, before);
      var t := Run(env, s, before).value;
      StepAcked(env, t, e);
      StepLoses(env, t, e);
    }
  }

  // ------------------------------------------------------------- the ledger

  /** The worker has `r` in hand, or, for `removing`, is about to remove the file it was sent from. */
  predicate Busy(phase: Phase, r: Request, removing: bool) {
    if removing then phase.Removing? && phase.request == r else phase == Exporting(r) || phase == Spooling(r)
  }

  function Who(workers: map<nat, Phase>, r: Request, removing: bool): set<nat> {
    set w | w in workers && Busy(workers[w], r, removing)
  }

  function Tally(workers: map<nat, Phase>, r: Request, removing: bool): nat {
    |Who(workers, r, removing)|
  }

  predicate Holds(env: Env, n: string, bytes: Bytes, r: Request) {
    IsBatch(n) && env.codec.decode(bytes) == Some(r)
  }

  /** The files a replay looks at that hold `r`. */
  function Where(env: Env, files: Dir, r: Request): set<string> {
    set n | n in files && Holds(env, n, files[n], r)
  }

  function Copies(env: Env, files: Dir, r: Request): nat {
    |Where(env, files, r)|
  }

  lemma WhoWith(workers: map<nat, Phase>, w: nat, phase: Phase, r: Request, removing: bool, v: nat)
    requires w !in workers
    ensures v in Who(workers[w := phase], r, removing) <==>
            if v == w then Busy(phase, r, removing) else v in Who(workers, r, removing)
  {
  }

  lemma SizeWith<T>(before: set<T>, after: set<T>, x: T, more: bool)
    requires x !in before
    requires forall y :: y in after <==> if y == x then more else y in before
    ensures |after| == |before| + if more then 1 else 0
  {
    if more {
      assert after == before + {x};
    } else {
      assert after == before;
    }
  }

  lemma TallyWith(workers: map<nat, Phase>, w: nat, phase: Phase, r: Request, removing: bool)
    requires w !in workers
    ensures Tally(workers[w := phase], r, removing) ==
            Tally(workers, r, removing) + if Busy(phase, r, removing) then 1 else 0
  {
    var before, after := Who(workers, r, removing), Who(workers[w := phase], r, removing);
    forall v ensures v in after <==> if v == w then Busy(phase, r, removing) else v in before {
      WhoWith(workers, w, phase, r, removing, v);
    }
    SizeWith(before, after, w, Busy(phase, r, removing));
  }

  lemma TallyMoves(workers: map<nat, Phase>, w: nat, phase: Phase, r: Request, removing: bool)
    requires w in workers
    ensures Tally(workers, r, removing) ==
            Tally(workers - {w}, r, removing) + if Busy(workers[w], r, removing) then 1 else 0
    ensures Tally(workers[w := phase], r, removing) ==
            Tally(workers - {w}, r, removing) + if Busy(phase, r, removing) then 1 else 0
  {
    TallyWith(workers - {w}, w, workers[w], r, removing);
    TallyWith(workers - {w}, w, phase, r, removing);
    assert (workers - {w})[w := workers[w]] == workers;
    assert (workers - {w})[w := phase] == workers[w := phase];
  }

  lemma CopiesWith(env: Env, files: Dir, n: string, bytes: Bytes, r: Request)
    requires n !in files
    ensures Copies(env, files[n := bytes], r) == Copies(env, files, r) + if Holds(env, n, bytes, r) then 1 else 0
  {
    SizeWith(Where(env, files, r), Where(env, files[n := bytes], r), n, Holds(env, n, bytes, r));
  }

  /** What is accounted for in excess of what was handed over. */
  function Balance(env: Env, s: State, r: Request): int {
    multiset(s.acked)[r] + Copies(env, s.files, r) + Tally(s.workers, r, false) + multiset(s.lost)[r]
    - multiset(s.handed)[r] - Tally(s.workers, r, true)
  }

  /** An acknowledged file stays, and will be sent again: it could not be removed, or the process died first. */
  predicate Repeat(s: State, e: Event, r: Request) {
    ((e.Remove? && !e.ok) || e.Kill?) && e.w in s.workers && Busy(s.workers[e.w], r, true)
  }

  lemma WorkersBalance(env: Env, s: State, e: Event, r: Request, removing: bool)
    requires Enabled(env, s, e)
    ensures var workers' := Apply(env, s, e).workers;
            Tally(workers', r, removing) - Tally(s.workers, r, removing) ==
            (if e.w in workers' && Busy(workers'[e.w], r, removing) then 1 else 0)
            - (if e.w in s.workers && Busy(s.workers[e.w], r, removing) then 1 else 0)
  {
    var workers' := Apply(env, s, e).workers;
    if e.Start? {
      TallyWith(s.workers, e.w, Locking, r, removing);
    } else if e.w in workers' {
      TallyMoves(s.workers, e.w, workers'[e.w], r, removing);
    } else {
      TallyMoves(s.workers, e.w, Running, r, removing);
    }
  }

  lemma FilesBalance(env: Env, s: State, e: Event, r: Request)
    requires RoundTrips(env.codec) && Orderly(env, s) && Enabled(env, s, e)
    ensures Copies(env, Apply(env, s, e).files, r) - Copies(env, s.files, r) ==
            (if e.Write? && e.uuid.Some? && s.workers[e.w].request == r then 1 else 0)
            - (if e.Remove? && e.ok && s.workers[e.w].request == r then 1 else 0)
  {
    if e.Write? && e.uuid.Some? {
      BatchIsPending(e.uuid.value);
      CopiesWith(env, s.files, BatchName(e.uuid.value), env.codec.encode(s.workers[e.w].request), r);
    } else if e.Remove? && e.ok {
      assert OrderlyAt(env, s, e.w);
      var n := s.workers[e.w].path;
      assert n in Ahead(s.workers[e.w]);
      CopiesWith(env, s.files - {n}, n, s.files[n], r);
      assert (s.files - {n})[n := s.files[n]] == s.files;
    }
  }

  lemma OneMore(rs: seq<Request>, x: Request, r: Request)
    ensures multiset(rs + [x])[r] == multiset(rs)[r] + if x == r then 1 else 0
  {
  }

  lemma AckedBalance(env: Env, s: State, e: Event, r: Request)
    requires Enabled(env, s, e)
    ensures multiset(Apply(env, s, e).acked)[r] - multiset(s.acked)[r] ==
            if e.Reply? && e.ok && s.workers[e.w].request == r then 1 else 0
  {
    if e.Reply? {
      OneMore(s.acked, s.workers[e.w].request, r);
    } else {
      assert Apply(env, s, e).acked == s.acked;
    }
  }

  lemma HandedBalance(env: Env, s: State, e: Event, r: Request)
    requires Enabled(env, s, e)
    ensures multiset(Apply(env, s, e).handed)[r] - multiset(s.handed)[r] ==
            if e.Hand? && Request(env.source(e.w), e.records) == r then 1 else 0
  {
    if e.Hand? {
      OneMore(s.handed, Request(env.source(e.w), e.records), r);
    } else {
      assert Apply(env, s, e).handed == s.handed;
    }
  }

  lemma LostBalance(env: Env, s: State, e: Event, r: Request)
    requires Enabled(env, s, e)
    ensures multiset(Apply(env, s, e).lost)[r] - multiset(s.lost)[r] ==
            if Mishap(s, e) && s.workers[e.w].request == r then 1 else 0
  {
    if Mishap(s, e) {
      OneMore(s.lost, s.workers[e.w].request, r);
    } else {
      assert Apply(env, s, e).lost == s.lost;
    }
  }

  lemma StepBalance(env: Env, s: State, e: Event, r: Request)
    requires RoundTrips(env.codec) && Orderly(env, s) && Enabled(env, s, e)
    ensures Balance(env, Apply(env, s, e), r) == Balance(env, s, r) + if Repeat(s, e, r) then 1 else 0
  {
    WorkersBalance(env, s, e, r, false);
    WorkersBalance(env, s, e, r, true);
    FilesBalance(env, s, e, r);
    AckedBalance(env, s, e, r);
    HandedBalance(env, s, e, r);
    LostBalance(env, s, e, r);
  }

  /** How often an acknowledged file of `r` stayed. */
  ghost function Repeats(env: Env, s: State, es: seq<Event>, r: Request): nat {
    if es == [] then 0
    else
      var before := Run(env, s, es[..|es| - 1]);
      Repeats(env, s, es[..|es| - 1], r) + if before.Some? && Repeat(before.value, es[|es| - 1], r) then 1 else 0
  }

  /** The delivery ledger. Over every run of any number of workers, occurrence by
      occurrence: acknowledgements, copies in the directory, copies in some
      worker's hands and copies given up grow by exactly the hand-overs, plus one
      for every acknowledged file that stayed or is still to be removed. */
  lemma {:induction false} DeliveryLedger(env: Env, s: State, es: seq<Event>, r: Request)
    requires RoundTrips(env.codec) && Orderly(env, s) && Run(env, s, es).Some?
    ensures Balance(env, Run(env, s, es).value, r) == Balance(env, s, r) + Repeats(env, s, es, r)
  {
    if es != [] {
      var before := es[..|es| - 1];
      DeliveryLedger(env, s, before, r);
      RunOrderly(env, s, before);
      StepBalance(env, Run(env, s, before).value, es[|es| - 1], r);
    }
  }

  /** Delivery at least once: from an idle directory, through any number of
      worker lifetimes without a mishap, once no worker holds a request, every
      hand-over and every file there was at first has an acknowledgement or a
      file of its own; and there are more of those only for files that were
      acknowledged and stayed. */
  lemma DeliveredOrWaiting(env: Env, s: State, es: seq<Event>, r: Request)
    requires RoundTrips(env.codec) && s.workers == map[] && s.handed == s.acked == s.lost == []
    requires Run(env, s, es).Some? && Faultless(env, s, es)
    requires forall w :: w in Run(env, s, es).value.workers ==> !Busy(Run(env, s, es).value.workers[w], r, false)
    ensures var s' := Run(env, s, es).value;
            multiset(s'.acked)[r] + Copies(env, s'.files, r) ==
            multiset(s'.handed)[r] + Copies(env, s.files, r) + Tally(s'.workers, r, true) + Repeats(env, s, es, r)
  {
    DeliveryLedger(env, s, es, r);
    NothingLostExactlyWhen(env, s, es);
    var s' := Run(env, s, es).value;
    assert Who(s'.workers, r, false) == Who(s.workers, r, false) == Who(s.workers, r, true) == {};
  }
}
