/**
 A whole lifetime of one `Worker`, as a run of the shared queue directory of
 `Delivery`. What holds of every run there therefore holds of every sequence of
 worker lifetimes.
 */
module Lifetime {
  import opened Wrappers
  import opened Listing
  import opened Spool
  import opened Worker
  import D = Delivery

  function Requests(config: Config, handed: seq<Handed>): seq<Request> {
    if handed == [] then []
    else Requests(config, handed[..|handed| - 1]) + [Request(config.source, handed[|handed| - 1].records)]
  }

  /** Worker `w` has done its work so far with result `world`, and is in `phase`. */
  function At(s: D.State, w: nat, world: World, handed: seq<Request>, phase: D.Phase): D.State {
    s.(files := world.files, acked := world.acked, lost := world.lost, handed := handed,
       workers := s.workers[w := phase])
  }

  lemma {:induction false} RunThen(env: D.Env, s: D.State, es: seq<D.Event>, es': seq<D.Event>)
    requires D.Run(env, s, es).Some?
    ensures D.Run(env, s, es + es') == D.Run(env, D.Run(env, s, es).value, es')
  {
    if es' == [] {
      assert es + es' == es;
    } else {
      var n := |es'| - 1;
      RunThen(env, s, es, es'[..n]);
      assert (es + es')[..|es| + n] == es + es'[..n];
    }
  }

  lemma RunOne(env: D.Env, s: D.State, e: D.Event)
    requires D.Enabled(env, s, e)
    ensures D.Run(env, s, [e]) == Some(D.Apply(env, s, e))
  {
    assert [e][..0] == [];
  }

  lemma Then(env: D.Env, s: D.State, es: seq<D.Event>, t: D.State, e: D.Event)
    requires D.Run(env, s, es) == Some(t) && D.Enabled(env, t, e)
    ensures D.Run(env, s, es + [e]) == Some(D.Apply(env, t, e))
  {
    assert (es + [e])[..|es|] == es;
  }

  lemma Twice(m: map<nat, D.Phase>, w: nat)
    ensures forall a, b {:trigger m[w := a][w := b]} :: m[w := a][w := b] == m[w := b]
  {
  }

  lemma SoloResend(env: D.Env, s: D.State, w: nat, config: Config, world: World, replay: Replay, handed: seq<Request>,
                   todo: seq<string>) returns (es: seq<D.Event>)
    requires config.codec == env.codec && todo != []
    ensures D.Run(env, At(s, w, world, handed, D.Draining(todo)), es) ==
            Some(At(s, w, Resend(config, world, replay, todo[0]), handed, D.Draining(todo[1..])))
  {
    Twice(s.workers, w);
    var path := todo[0];
    var s0 := At(s, w, world, handed, D.Draining(todo));
    RunOne(env, s0, D.Read(w, replay.readable(path)));
    es := [D.Read(w, replay.readable(path))];
    var s1 := D.Run(env, s0, es).value;
    if replay.readable(path) && path in world.files && config.codec.decode(world.files[path]).Some? {
      Then(env, s0, es, s1, D.Reply(w, replay.acks(path)));
      es := es + [D.Reply(w, replay.acks(path))];
      var s2 := D.Run(env, s0, es).value;
      if replay.acks(path) {
        Then(env, s0, es, s2, D.Remove(w, replay.removes(path)));
        es := es + [D.Remove(w, replay.removes(path))];
      }
    }
  }

  lemma {:induction false} SoloDrain(env: D.Env, s: D.State, w: nat, config: Config, world: World, replay: Replay,
                                     handed: seq<Request>, paths: seq<string>, i: nat) returns (es: seq<D.Event>)
    requires config.codec == env.codec && i <= |paths|
    ensures D.Run(env, At(s, w, world, handed, D.Draining(paths)), es) ==
            Some(At(s, w, ResendAll(config, world, replay, paths[..i]), handed, D.Draining(paths[i..])))
  {
    if i == 0 {
      es := [];
    } else {
      var es0 := SoloDrain(env, s, w, config, world, replay, handed, paths, i - 1);
      var world' := ResendAll(config, world, replay, paths[..i - 1]);
      var es1 := SoloResend(env, s, w, config, world', replay, handed, paths[i - 1..]);
      RunThen(env, At(s, w, world, handed, D.Draining(paths)), es0, es1);
      assert paths[..i][..i - 1] == paths[..i - 1];
      assert paths[i - 1..][1..] == paths[i..];
      es := es0 + es1;
    }
  }

  /** The identifier drawn for a batch that has to be spooled is a new one. */
  predicate NewName(world: World, h: Handed) {
    !h.outcome.acked && h.outcome.uuid.Some? ==> BatchName(h.outcome.uuid.value) !in world.files
  }

  predicate NewNames(config: Config, world: World, handed: seq<Handed>) {
    handed == [] ||
    (NewNames(config, world, handed[..|handed| - 1])
     && NewName(SettleAll(config, world, handed[..|handed| - 1]), handed[|handed| - 1]))
  }

  lemma SoloSettle(env: D.Env, s: D.State, w: nat, config: Config, world: World, handed: seq<Request>, h: Handed)
    returns (es: seq<D.Event>)
    requires config.codec == env.codec && config.source == env.source(w)
    requires h.records != [] && NewName(world, h)
    ensures D.Run(env, At(s, w, world, handed, D.Running), es) ==
            Some(At(s, w, Settle(config, world, h), handed + [Request(config.source, h.records)], D.Running))
  {
    Twice(s.workers, w);
    var s0 := At(s, w, world, handed, D.Running);
    RunOne(env, s0, D.Hand(w, h.records));
    es := [D.Hand(w, h.records)];
    var s1 := D.Run(env, s0, es).value;
    Then(env, s0, es, s1, D.Reply(w, h.outcome.acked));
    es := es + [D.Reply(w, h.outcome.acked)];
    var s2 := D.Run(env, s0, es).value;
    if !h.outcome.acked {
      Then(env, s0, es, s2, D.Write(w, h.outcome.uuid));
      es := es + [D.Write(w, h.outcome.uuid)];
    }
  }

  lemma {:induction false} SoloHandovers(env: D.Env, s: D.State, w: nat, config: Config, world: World,
                                         before: seq<Request>, handed: seq<Handed>) returns (es: seq<D.Event>)
    requires config.codec == env.codec && config.source == env.source(w)
    requires NewNames(config, world, handed) && Sized(config, handed)
    ensures D.Run(env, At(s, w, world, before, D.Running), es) ==
            Some(At(s, w, SettleAll(config, world, handed), before + Requests(config, handed), D.Running))
  {
    if handed == [] {
      es := [];
      assert before + [] == before;
    } else {
      var n := |handed| - 1;
      var es0 := SoloHandovers(env, s, w, config, world, before, handed[..n]);
      assert handed[n] in handed;
      var done := before + Requests(config, handed[..n]);
      var es1 := SoloSettle(env, s, w, config, SettleAll(config, world, handed[..n]), done, handed[n]);
      RunThen(env, At(s, w, world, before, D.Running), es0, es1);
      assert before + Requests(config, handed) == done + [Request(config.source, handed[n].records)];
      es := es0 + es1;
    }
  }

  /** From the start of a worker to the moment its replay is over. */
  lemma SoloStart(env: D.Env, s: D.State, w: nat, config: Config, replay: Replay, paths: seq<string>)
    returns (es: seq<D.Event>)
    requires config.codec == env.codec && w !in s.workers && s.lock.None?
    requires if replay.locked && replay.listed then Lists(paths, Pending(s.files)) else paths == []
    ensures D.Run(env, s, es) ==
            Some(At(s, w, ResendAll(config, World(s.files, s.acked, s.lost), replay, paths), s.handed, D.Running))
  {
    Twice(s.workers, w);
    var world := World(s.files, s.acked, s.lost);
    RunOne(env, s, D.Start(w));
    es := [D.Start(w)];
    var s1 := D.Run(env, s, es).value;
    if !replay.locked {
      Then(env, s, es, s1, D.Refuse(w));
      es := es + [D.Refuse(w)];
      return;
    }
    Then(env, s, es, s1, D.Acquire(w));
    es := es + [D.Acquire(w)];
    var s2 := D.Run(env, s, es).value;
    if !replay.listed {
      Then(env, s, es, s2, D.Unlisted(w));
      es := es + [D.Unlisted(w)];
      return;
    }
    Then(env, s, es, s2, D.List(w, paths));
    es := es + [D.List(w, paths)];
    var locked := s.(lock := Some(w));
    assert D.Run(env, s, es) == Some(At(locked, w, world, s.handed, D.Draining(paths)));
    var es' := SoloDrain(env, locked, w, config, world, replay, s.handed, paths, |paths|);
    RunThen(env, s, es, es');
    es := es + es';
    assert paths[..|paths|] == paths && paths[|paths|..] == [];
    var s3 := D.Run(env, s, es).value;
    Then(env, s, es, s3, D.Release(w));
    es := es + [D.Release(w)];
  }

  /** A worker that starts, hands over `handed`, and then exits or is killed. */
  lemma SoloEnds(env: D.Env, s: D.State, w: nat, config: Config, replay: Replay, paths: seq<string>,
                 handed: seq<Handed>, e: D.Event) returns (es: seq<D.Event>)
    requires config.codec == env.codec && config.source == env.source(w) && (e == D.Exit(w) || e == D.Kill(w))
    requires w !in s.workers && s.lock.None? && Sized(config, handed)
    requires if replay.locked && replay.listed then Lists(paths, Pending(s.files)) else paths == []
    requires NewNames(config, ResendAll(config, World(s.files, s.acked, s.lost), replay, paths), handed)
    ensures var world := SettleAll(config, ResendAll(config, World(s.files, s.acked, s.lost), replay, paths), handed);
            D.Run(env, s, es) == Some(s.(files := world.files, acked := world.acked, lost := world.lost,
                                         handed := s.handed + Requests(config, handed)))
    ensures es != [] && es[|es| - 1] == e
  {
    var start := ResendAll(config, World(s.files, s.acked, s.lost), replay, paths);
    var es0 := SoloStart(env, s, w, config, replay, paths);
    var es1 := SoloHandovers(env, s, w, config, start, s.handed, handed);
    RunThen(env, s, es0, es1);
    es := es0 + es1;
    Then(env, s, es, D.Run(env, s, es).value, e);
    es := es + [e];
    assert s.workers[w := D.Running] - {w} == s.workers;
  }

  /** What `Worker.Run` does to the queue directory is a run of `Delivery`. */
  lemma SoloLifetimeIsARun(env: D.Env, s: D.State, w: nat, config: Config, replay: Replay, paths: seq<string>,
                           events: seq<Event>, closing: Outcome) returns (es: seq<D.Event>)
    requires config.Valid() && config.codec == env.codec && config.source == env.source(w)
    requires w !in s.workers && s.lock.None?
    requires if replay.locked && replay.listed then Lists(paths, Pending(s.files)) else paths == []
    requires NewNames(config, ResendAll(config, World(s.files, s.acked, s.lost), replay, paths),
                      Handovers(config, events, closing))
    ensures var handed := Handovers(config, events, closing);
            var world := SettleAll(config, ResendAll(config, World(s.files, s.acked, s.lost), replay, paths), handed);
            D.Run(env, s, es) == Some(s.(files := world.files, acked := world.acked, lost := world.lost,
                                         handed := s.handed + Requests(config, handed)))
  {
    var handed := Handovers(config, events, closing);
    NothingHeldBack(config, events, closing);
    es := SoloEnds(env, s, w, config, replay, paths, handed, D.Exit(w));
  }

  /** Every batch that was spooled has a file of its own, which holds its request. */
  ghost predicate FilesHold(config: Config, world: World, handed: seq<Handed>, files: Dir) {
    && (forall i :: 0 <= i < |handed| && Spooled(handed[i]) ==>
          var name := BatchName(handed[i].outcome.uuid.value);
          && name !in world.files && name in files
          && files[name] == config.codec.encode(Request(config.source, handed[i].records)))
    && (forall i, j :: 0 <= i < j < |handed| && Spooled(handed[i]) && Spooled(handed[j]) ==>
          BatchName(handed[i].outcome.uuid.value) != BatchName(handed[j].outcome.uuid.value))
    && (forall name :: name in world.files ==> name in files && files[name] == world.files[name])
  }

  lemma {:induction false} SpooledHaveFiles(config: Config, world: World, handed: seq<Handed>)
    requires NewNames(config, world, handed)
    ensures FilesHold(config, world, handed, SettleAll(config, world, handed).files)
  {
    if handed != [] {
      SpooledHaveFiles(config, world, handed[..|handed| - 1]);
    }
  }

  /** A worker killed while it waits for the next event leaves a run too, and every
      record it sampled was acknowledged, is in a file of its own batch, was given
      up, or is among the fewer than a batch that it held and that are gone with it. */
  lemma KilledLifetimeIsARun(env: D.Env, s: D.State, w: nat, config: Config, replay: Replay, paths: seq<string>,
                             events: seq<Event>) returns (es: seq<D.Event>)
    requires config.Valid() && config.codec == env.codec && config.source == env.source(w)
    requires w !in s.workers && s.lock.None?
    requires if replay.locked && replay.listed then Lists(paths, Pending(s.files)) else paths == []
    requires NewNames(config, ResendAll(config, World(s.files, s.acked, s.lost), replay, paths),
                      After(config, events).handed)
    ensures var held := After(config, events);
            var start := ResendAll(config, World(s.files, s.acked, s.lost), replay, paths);
            var world := SettleAll(config, start, held.handed);
            && FatesKnown(config, Sampled(config.sampleRate, events), start, held, world)
            && FilesHold(config, start, held.handed, world.files) && |held.batch| < config.batchSize
            && D.Run(env, s, es) == Some(s.(files := world.files, acked := world.acked, lost := world.lost,
                                            handed := s.handed + Requests(config, held.handed)))
    ensures es != [] && es[|es| - 1] == D.Kill(w)
  {
    var handed := After(config, events).handed;
    Conserved(config, events);
    var start := ResendAll(config, World(s.files, s.acked, s.lost), replay, paths);
    SampledAccount(config, start, events);
    SpooledHaveFiles(config, start, handed);
    es := SoloEnds(env, s, w, config, replay, paths, handed, D.Kill(w));
  }
}
