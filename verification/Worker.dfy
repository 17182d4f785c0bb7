/**
 The batching worker behind the tracing layer, one lifetime at a time. What the
 network, the disk and the clock answer is part of the input: every event that
 may hand a batch over carries the outcome that hand-over would have.
 */
module Worker {
  import opened Wrappers
  import opened Listing
  import opened Spool

  /** `batchSize` is at least one: the builder raises zero to one. */
  datatype Config = Config(source: Bytes, batchSize: nat, sampleRate: real, codec: Codec) {
    predicate Valid() { batchSize >= 1 }
  }

  /** Whether the export was acknowledged in time and, for the batch it would
      otherwise have to spool, the identifier drawn or `None` if the write fails. */
  datatype Outcome = Outcome(acked: bool, uuid: Option<string>)

  datatype Event =
    | Record(record: LogRecord, outcome: Outcome)
    | Flush(outcome: Outcome)
    | Tick(outcome: Outcome)

  predicate Samples(rate: real, record: LogRecord) {
    if rate >= 1.0 then true
    else if rate <= 0.0 then false
    else (record.time % 10000) as real / 10000.0 < rate
  }

  // ------------------------------------------------------------ batches

  datatype Handed = Handed(records: seq<LogRecord>, outcome: Outcome)

  datatype Held = Held(batch: seq<LogRecord>, handed: seq<Handed>)

  /** Gives up the batch; an empty one is not exported. */
  function HandOver(s: Held, outcome: Outcome): Held {
    if s.batch == [] then s else Held([], s.handed + [Handed(s.batch, outcome)])
  }

  function Handle(config: Config, s: Held, e: Event): Held {
    match e
    case Record(record, outcome) =>
      var s' := if Samples(config.sampleRate, record) then s.(batch := s.batch + [record]) else s;
      if |s'.batch| >= config.batchSize then HandOver(s', outcome) else s'
    case Flush(outcome) => HandOver(s, outcome)
    case Tick(outcome) => HandOver(s, outcome)
  }

  function After(config: Config, events: seq<Event>): Held {
    if events == [] then Held([], [])
    else Handle(config, After(config, events[..|events| - 1]), events[|events| - 1])
  }

  /** Everything handed over in a lifetime that ends by closing the channel. */
  function Handovers(config: Config, events: seq<Event>, closing: Outcome): seq<Handed> {
    HandOver(After(config, events), closing).handed
  }

  function Flat(handed: seq<Handed>): seq<LogRecord> {
    if handed == [] then [] else Flat(handed[..|handed| - 1]) + handed[|handed| - 1].records
  }

  /** The sampled records in order of arrival. */
  function Sampled(rate: real, events: seq<Event>): seq<LogRecord> {
    if events == [] then []
    else
      var e := events[|events| - 1];
      var before := Sampled(rate, events[..|events| - 1]);
      if e.Record? && Samples(rate, e.record) then before + [e.record] else before
  }

  ghost predicate Sized(config: Config, handed: seq<Handed>) {
    forall h :: h in handed ==> 1 <= |h.records| <= config.batchSize
  }

  lemma HandOverKeeps(config: Config, s: Held, outcome: Outcome)
    requires Sized(config, s.handed) && |s.batch| <= config.batchSize
    ensures var s' := HandOver(s, outcome);
            && Flat(s'.handed) + s'.batch == Flat(s.handed) + s.batch
            && s'.batch == [] && Sized(config, s'.handed)
  {
    if s.batch != [] {
      assert (s.handed + [Handed(s.batch, outcome)])[..|s.handed|] == s.handed;
    }
  }

  /** At every moment of every run, what was handed over followed by what is
      held are the sampled records in order of arrival; hand-overs are never
      empty nor too large, and a full batch is never held back. */
  lemma {:induction false} Conserved(config: Config, events: seq<Event>)
    requires config.Valid()
    ensures var s := After(config, events);
            && Flat(s.handed) + s.batch == Sampled(config.sampleRate, events)
            && Sized(config, s.handed) && |s.batch| < config.batchSize
  {
    if events != [] {
      var before, e := events[..|events| - 1], events[|events| - 1];
      Conserved(config, before);
      var s := After(config, before);
      if e.Record? && Samples(config.sampleRate, e.record) {
        var s' := s.(batch := s.batch + [e.record]);
        assert Flat(s'.handed) + s'.batch == Flat(s.handed) + s.batch + [e.record];
        HandOverKeeps(config, s', e.outcome);
      } else {
        HandOverKeeps(config, s, e.outcome);
      }
    }
  }

  /** A worker whose channel was closed holds nothing. */
  lemma NothingHeldBack(config: Config, events: seq<Event>, closing: Outcome)
    requires config.Valid()
    ensures Flat(Handovers(config, events, closing)) == Sampled(config.sampleRate, events)
    ensures Sized(config, Handovers(config, events, closing))
  {
    Conserved(config, events);
    HandOverKeeps(config, After(config, events), closing);
  }

  /** A flush, or a tick of the clock, leaves nothing behind. */
  lemma FlushHandsOver(config: Config, events: seq<Event>, e: Event)
    requires config.Valid() && (e.Flush? || e.Tick?)
    ensures var s := After(config, events + [e]);
            s.batch == [] && Flat(s.handed) == Sampled(config.sampleRate, events + [e])
  {
    assert (events + [e])[..|events|] == events;
    Conserved(config, events + [e]);
  }

  /** Each event hands over nothing, or one batch with the outcome that came with the event. */
  lemma HandedWithItsOutcome(config: Config, events: seq<Event>, e: Event)
    ensures var s, s' := After(config, events), After(config, events + [e]);
            s'.handed == s.handed || exists records :: s'.handed == s.handed + [Handed(records, e.outcome)]
  {
    assert (events + [e])[..|events|] == events;
    var s, s' := After(config, events), After(config, events + [e]);
    if s'.handed != s.handed {
      assert s'.handed == s.handed + [Handed(s'.handed[|s.handed|].records, e.outcome)];
    }
  }

  // ------------------------------------------------------- what is sampled

  /** All records that arrive, in order. */
  function Arrived(events: seq<Event>): seq<LogRecord> {
    if events == [] then []
    else
      var before, e := Arrived(events[..|events| - 1]), events[|events| - 1];
      if e.Record? then before + [e.record] else before
  }

  /** At a rate of one or more, as by default, every record that arrives is handed
      over, in order; at zero or less none is. */
  lemma {:induction false} RateExtremes(rate: real, events: seq<Event>)
    ensures rate >= 1.0 ==> Sampled(rate, events) == Arrived(events)
    ensures rate <= 0.0 ==> Sampled(rate, events) == []
  {
    if events != [] {
      RateExtremes(rate, events[..|events| - 1]);
    }
  }

  lemma EverythingHandedOver(config: Config, events: seq<Event>, closing: Outcome)
    requires config.Valid()
    ensures config.sampleRate >= 1.0 ==> Flat(Handovers(config, events, closing)) == Arrived(events)
    ensures config.sampleRate <= 0.0 ==> Flat(Handovers(config, events, closing)) == []
  {
    NothingHeldBack(config, events, closing);
    RateExtremes(config.sampleRate, events);
  }

  /** How many residues of 10000 are sampled. */
  ghost function Share(rate: real): (k: nat)
    requires 0.0 <= rate <= 1.0
    ensures k <= 10000 && k as real - 1.0 < 10000.0 * rate <= k as real
  {
    var whole := (10000.0 * rate).Floor;
    if whole as real == 10000.0 * rate then whole else whole + 1
  }

  /** A record is sampled exactly if the residue of its time lies in the first
      `rate` share of the residues. */
  lemma SampledExactlyWhen(rate: real, record: LogRecord)
    requires 0.0 <= rate <= 1.0
    ensures Samples(rate, record) <==> record.time % 10000 < Share(rate)
  {
    var residue := record.time % 10000;
    assert residue as real / 10000.0 < rate <==> residue as real < 10000.0 * rate;
  }

  /** A larger rate keeps every record that a smaller one keeps. */
  lemma LargerRateKeepsMore(rate: real, larger: real, record: LogRecord)
    requires rate <= larger && Samples(rate, record)
    ensures Samples(larger, record)
  {
  }

  /** How many of the records that arrive at `start` and the `n - 1` times after it are sampled. */
  ghost function SampledOf(rate: real, start: nat, n: nat): nat {
    if n == 0 then 0
    else SampledOf(rate, start, n - 1) + if Samples(rate, LogRecord(start + n - 1, "")) then 1 else 0
  }

  lemma {:induction false} SampledFromZero(rate: real, n: nat)
    requires 0.0 <= rate <= 1.0 && n <= 10000
    ensures SampledOf(rate, 0, n) == if n <= Share(rate) then n else Share(rate)
  {
    if n > 0 {
      SampledFromZero(rate, n - 1);
      SampledExactlyWhen(rate, LogRecord(n - 1, ""));
    }
  }

  lemma {:induction false} SampledShifts(rate: real, start: nat, n: nat)
    ensures SampledOf(rate, start, n + 1) ==
            SampledOf(rate, start + 1, n) + if Samples(rate, LogRecord(start, "")) then 1 else 0
  {
    if n > 0 {
      SampledShifts(rate, start, n - 1);
    }
  }

  lemma SamplesPeriodic(rate: real, start: nat)
    ensures Samples(rate, LogRecord(start, "")) == Samples(rate, LogRecord(start + 10000, ""))
  {
    assert (start + 10000) % 10000 == start % 10000;
  }

  /** Of any 10000 consecutive times the same number is sampled, the `rate` share rounded up. */
  lemma {:induction false} SampledShare(rate: real, start: nat)
    requires 0.0 <= rate <= 1.0
    ensures SampledOf(rate, start, 10000) == Share(rate)
  {
    if start == 0 {
      SampledFromZero(rate, 10000);
    } else {
      SampledShare(rate, start - 1);
      SampledShifts(rate, start - 1, 10000);
      SamplesPeriodic(rate, start - 1);
      assert SampledOf(rate, start - 1, 10001) ==
             SampledOf(rate, start - 1, 10000) + if Samples(rate, LogRecord(start - 1 + 10000, "")) then 1 else 0;
    }
  }

  // ------------------------------------------------- where batches end up

  /** The queue directory, the acknowledged requests and the ones given up. */
  datatype World = World(files: Dir, acked: seq<Request>, lost: seq<Request>)

  function Settle(config: Config, w: World, h: Handed): World {
    var request := Request(config.source, h.records);
    if h.outcome.acked then w.(acked := w.acked + [request])
    else match h.outcome.uuid
      case Some(uuid) => w.(files := w.files[BatchName(uuid) := config.codec.encode(request)])
      case None => w.(lost := w.lost + [request])
  }

  function SettleAll(config: Config, w: World, handed: seq<Handed>): World {
    if handed == [] then w
    else Settle(config, SettleAll(config, w, handed[..|handed| - 1]), handed[|handed| - 1])
  }

  /** What a replay of the queue directory meets with. */
  datatype Replay = Replay(locked: bool, listed: bool, readable: string -> bool, acks: string -> bool,
                           removes: string -> bool)

  function Resend(config: Config, w: World, replay: Replay, path: string): World {
    if path in w.files && replay.readable(path) && config.codec.decode(w.files[path]).Some? && replay.acks(path) then
      World(if replay.removes(path) then w.files - {path} else w.files,
            w.acked + [config.codec.decode(w.files[path]).value], w.lost)
    else w
  }

  function ResendAll(config: Config, w: World, replay: Replay, paths: seq<string>): World {
    if paths == [] then w
    else Resend(config, ResendAll(config, w, replay, paths[..|paths| - 1]), replay, paths[|paths| - 1])
  }

  predicate Delivered(h: Handed) { h.outcome.acked }

  /** Both failed: the export was not acknowledged and the write did not succeed. */
  predicate GivenUp(h: Handed) { !h.outcome.acked && h.outcome.uuid.None? }

  function Those(config: Config, handed: seq<Handed>, which: Handed -> bool): seq<Request> {
    if handed == [] then []
    else
      var h := handed[|handed| - 1];
      var before := Those(config, handed[..|handed| - 1], which);
      if which(h) then before + [Request(config.source, h.records)] else before
  }

  /** The acknowledged requests are exactly those whose export succeeded and the
      lost ones exactly those where the export and the write both failed, in order. */
  lemma {:induction false} SettledExactly(config: Config, w: World, handed: seq<Handed>)
    ensures var w' := SettleAll(config, w, handed);
            && w'.acked == w.acked + Those(config, handed, Delivered)
            && w'.lost == w.lost + Those(config, handed, GivenUp)
  {
    if handed != [] {
      SettledExactly(config, w, handed[..|handed| - 1]);
    }
  }

  /** The export was not acknowledged, and the batch was written to the queue directory. */
  predicate Spooled(h: Handed) { !h.outcome.acked && h.outcome.uuid.Some? }

  function Records(requests: seq<Request>): seq<LogRecord> {
    if requests == [] then [] else Records(requests[..|requests| - 1]) + requests[|requests| - 1].records
  }

  lemma RecordsOfMore(requests: seq<Request>, request: Request)
    ensures Records(requests + [request]) == Records(requests) + request.records
  {
    assert (requests + [request])[..|requests|] == requests;
  }

  lemma {:induction false} EveryFate(config: Config, handed: seq<Handed>)
    ensures multiset(Flat(handed)) ==
            multiset(Records(Those(config, handed, Delivered))) + multiset(Records(Those(config, handed, Spooled)))
            + multiset(Records(Those(config, handed, GivenUp)))
  {
    if handed != [] {
      var before, h := handed[..|handed| - 1], handed[|handed| - 1];
      EveryFate(config, before);
      var request := Request(config.source, h.records);
      RecordsOfMore(Those(config, before, Delivered), request);
      RecordsOfMore(Those(config, before, Spooled), request);
      RecordsOfMore(Those(config, before, GivenUp), request);
    }
  }

  /** Each record of `sampled`, occurrence by occurrence, was acknowledged, spooled
      or given up on the way from `w` to `w'`, or is still held. */
  ghost predicate FatesKnown(config: Config, sampled: seq<LogRecord>, w: World, s: Held, w': World) {
    var acked, spooled, lost :=
      Those(config, s.handed, Delivered), Those(config, s.handed, Spooled), Those(config, s.handed, GivenUp);
    && w'.acked == w.acked + acked && w'.lost == w.lost + lost
    && multiset(sampled) ==
       multiset(Records(acked)) + multiset(Records(spooled)) + multiset(Records(lost)) + multiset(s.batch)
  }

  /** So it is at every moment of a lifetime, and less than a batch is held. */
  lemma SampledAccount(config: Config, w: World, events: seq<Event>)
    requires config.Valid()
    ensures var s := After(config, events);
            && FatesKnown(config, Sampled(config.sampleRate, events), w, s, SettleAll(config, w, s.handed))
            && |s.batch| < config.batchSize
  {
    Conserved(config, events);
    EveryFate(config, After(config, events).handed);
    SettledExactly(config, w, After(config, events).handed);
  }

  /** A replay takes the file at `path` away. */
  predicate TakenAway(config: Config, w: World, replay: Replay, path: string) {
    && path in w.files && config.codec.decode(w.files[path]).Some?
    && replay.readable(path) && replay.acks(path) && replay.removes(path)
  }

  /** A replay removes exactly the files that could be read and decoded, were
      acknowledged, and could be removed; it changes no other file. */
  lemma {:induction false} ResentExactly(config: Config, w: World, replay: Replay, paths: seq<string>, n: string)
    ensures var w' := ResendAll(config, w, replay, paths);
            && (n in w'.files <==> n in w.files && !(n in paths && TakenAway(config, w, replay, n)))
            && (n in w'.files ==> w'.files[n] == w.files[n])
            && (n in paths && TakenAway(config, w, replay, n) ==> config.codec.decode(w.files[n]).value in w'.acked)
            && w'.lost == w.lost
  {
    if paths != [] {
      var before := paths[..|paths| - 1];
      ResentExactly(config, w, replay, before, n);
      assert paths == before + [paths[|paths| - 1]];
    }
  }

  class Worker {
    const config: Config
    var files: Dir
    ghost var acked: seq<Request>
    ghost var lost: seq<Request>

    ghost function Contents(): World
      reads this
    {
      World(files, acked, lost)
    }

    /** `export_records`: an error either way when the export failed, also after
        a successful write to the queue directory. */
    method ExportRecords(records: seq<LogRecord>, outcome: Outcome) returns (ok: bool)
      modifies this
      ensures Contents() ==
              if records == [] then old(Contents()) else Settle(config, old(Contents()), Handed(records, outcome))
      ensures ok <==> records == [] || outcome.acked
    {
      if records == [] {
        return true;
      }
      var request := Request(config.source, records);
      if outcome.acked {
        acked := acked + [request];
        return true;
      }
      if outcome.uuid.Some? {
        files := files[BatchName(outcome.uuid.value) := config.codec.encode(request)];
      } else {
        lost := lost + [request];
      }
      return false;
    }

    /** `drain_spooled`. */
    method DrainSpooled(replay: Replay) returns (ghost paths: seq<string>)
      modifies this
      ensures if replay.locked && replay.listed then
                Lists(paths, Pending(old(files))) && Contents() == ResendAll(config, old(Contents()), replay, paths)
              else
                paths == [] && Contents() == old(Contents())
    {
      paths := [];
      if !replay.locked || !replay.listed {
        return;
      }
      var found := Sorted(Pending(files));
      paths := found;
      for i := 0 to |found|
        invariant Contents() == ResendAll(config, old(Contents()), replay, found[..i])
      {
        var path := found[i];
        assert found[..i + 1][..i] == found[..i];
        if path in files && replay.readable(path) {
          var request := config.codec.decode(files[path]);
          if request.Some? && replay.acks(path) {
            acked := acked + [request.value];
            if replay.removes(path) {
              files := files - {path};
            }
          }
        }
      }
      assert found[..|found|] == found;
    }

    /** `run`, from the replay at the start to the close of the channel. */
    method Run(replay: Replay, events: seq<Event>, closing: Outcome) returns (ghost paths: seq<string>)
      requires config.Valid()
      modifies this
      ensures if replay.locked && replay.listed then Lists(paths, Pending(old(files))) else paths == []
      ensures Contents() ==
              SettleAll(config, ResendAll(config, old(Contents()), replay, paths), Handovers(config, events, closing))
    {
      paths := DrainSpooled(replay);
      ghost var start := Contents();
      var batch := [];
      for i := 0 to |events|
        invariant batch == After(config, events[..i]).batch
        invariant Contents() == SettleAll(config, start, After(config, events[..i]).handed)
      {
        assert events[..i + 1][..i] == events[..i];
        ghost var s := After(config, events[..i]);
        match events[i] {
          case Record(record, outcome) =>
            if Samples(config.sampleRate, record) {
              batch := batch + [record];
            }
            if |batch| >= config.batchSize {
              HandedOneMore(config, start, s.(batch := batch), outcome);
              var _ := ExportRecords(batch, outcome);
              batch := [];
            }
          case Flush(outcome) =>
            HandedOneMore(config, start, s, outcome);
            var _ := ExportRecords(batch, outcome);
            batch := [];
          case Tick(outcome) =>
            HandedOneMore(config, start, s, outcome);
            var _ := ExportRecords(batch, outcome);
            batch := [];
        }
      }
      assert events[..|events|] == events;
      HandedOneMore(config, start, After(config, events), closing);
      var _ := ExportRecords(batch, closing);
    }
  }

  lemma HandedOneMore(config: Config, start: World, s: Held, outcome: Outcome)
    ensures HandOver(s, outcome).batch == []
    ensures SettleAll(config, start, HandOver(s, outcome).handed) ==
            if s.batch == [] then SettleAll(config, start, s.handed)
            else Settle(config, SettleAll(config, start, s.handed), Handed(s.batch, outcome))
  {
    if s.batch != [] {
      assert (s.handed + [Handed(s.batch, outcome)])[..|s.handed|] == s.handed;
    }
  }
}
