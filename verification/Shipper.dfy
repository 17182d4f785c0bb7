/**
 Moving crash entries from `pending` to `sent`. The clock, the answers of the
 server and the outcome of the file operations of one run are its input.
 */
module Shipper {
  import opened Wrappers
  import opened Listing
  import opened Protocol

  /** The files of one entry. */
  type Files = map<string, Bytes>

  datatype Entry = Entry(files: Files, mtime: int)

  type Entries = map<string, Entry>

  datatype Spools = Spools(pending: Entries, sent: Entries)

  /** The retention part of a usable `sdk-config.json`. */
  datatype Stored = Stored(endpoint: Bytes, retentionDays: nat)

  /** `config` also parses the endpoint, so it fails where either fails. */
  datatype Client = Client(json: Json, config: Bytes -> Option<Stored>)

  const DEFAULT_SENT_RETENTION_DAYS: nat := 90

  // ------------------------------------------------------- reading an entry

  /** The attachments a manifest names, in manifest order; entries without a file name are skipped. */
  function ReadAttachments(files: Files, manifests: seq<AttachmentManifest>): Option<seq<CrashAttachment>> {
    if manifests == [] then Some([])
    else
      var m := manifests[0];
      var rest :- ReadAttachments(files, manifests[1..]);
      if m.filename.None? then Some(rest)
      else if m.filename.value !in files then None
      else Some([CrashAttachment(m.key, m.contentType, files[m.filename.value])] + rest)
  }

  function ReadEnvelope(json: Json, files: Files): Option<CrashEnvelope> {
    if "metadata.json" !in files then None
    else
      var metadata :- json.decode(files["metadata.json"]);
      if "dump.bin" !in files then None
      else
        var attachments :- ReadAttachments(files, metadata.attachments);
        Some(CrashEnvelope(metadata, files["dump.bin"], attachments))
  }

  /** The entries of a manifest that name a file. */
  function WithFile(manifests: seq<AttachmentManifest>): seq<AttachmentManifest> {
    if manifests == [] then []
    else (if manifests[0].filename.Some? then [manifests[0]] else []) + WithFile(manifests[1..])
  }

  /** `attachments` are the files that these manifest entries name. */
  ghost predicate ReadAs(files: Files, manifests: seq<AttachmentManifest>, attachments: seq<CrashAttachment>) {
    && |attachments| == |manifests|
    && forall i :: 0 <= i < |manifests| ==>
         && manifests[i].filename.Some? && manifests[i].filename.value in files
         && attachments[i].key == manifests[i].key && attachments[i].contentType == manifests[i].contentType
         && attachments[i].bytes == files[manifests[i].filename.value]
  }

  ghost predicate SomeMissing(files: Files, listed: seq<AttachmentManifest>) {
    exists i :: 0 <= i < |listed| && MissingAt(files, listed, i)
  }

  predicate MissingAt(files: Files, listed: seq<AttachmentManifest>, i: nat)
    requires i < |listed|
  {
    listed[i].filename.Some? && listed[i].filename.value !in files
  }

  lemma MissingLater(files: Files, m: AttachmentManifest, listed: seq<AttachmentManifest>)
    requires SomeMissing(files, listed)
    ensures SomeMissing(files, [m] + listed)
  {
    var i :| 0 <= i < |listed| && MissingAt(files, listed, i);
    assert MissingAt(files, [m] + listed, i + 1);
  }

  lemma ReadOneMore(files: Files, m: AttachmentManifest, listed: seq<AttachmentManifest>, rest: seq<CrashAttachment>)
    requires ReadAs(files, listed, rest) && m.filename.Some? && m.filename.value in files
    ensures ReadAs(files, [m] + listed, [CrashAttachment(m.key, m.contentType, files[m.filename.value])] + rest)
  {
  }

  lemma {:induction false} ReadOrMissing(files: Files, manifests: seq<AttachmentManifest>)
    ensures var r, listed := ReadAttachments(files, manifests), WithFile(manifests);
            if r.Some? then ReadAs(files, listed, r.value) else SomeMissing(files, listed)
  {
    if manifests != [] {
      ReadOrMissing(files, manifests[1..]);
      var m, rest, listed := manifests[0], ReadAttachments(files, manifests[1..]), WithFile(manifests[1..]);
      if m.filename.None? {
        assert [] + listed == listed;
      } else if rest.None? {
        MissingLater(files, m, listed);
      } else if m.filename.value in files {
        ReadOneMore(files, m, listed, rest.value);
      } else {
        assert MissingAt(files, [m] + listed, 0);
      }
    }
  }

  lemma ReadOnce(files: Files, manifests: seq<AttachmentManifest>, a: seq<CrashAttachment>, b: seq<CrashAttachment>)
    requires ReadAs(files, manifests, a) && ReadAs(files, manifests, b)
    ensures a == b
  {
  }

  lemma AttachmentsReadExactlyWhen(files: Files, manifests: seq<AttachmentManifest>, attachments: seq<CrashAttachment>)
    ensures ReadAttachments(files, manifests) == Some(attachments) <==>
            ReadAs(files, WithFile(manifests), attachments)
  {
    var r, listed := ReadAttachments(files, manifests), WithFile(manifests);
    ReadOrMissing(files, manifests);
    if ReadAs(files, listed, attachments) && r.Some? {
      ReadOnce(files, listed, attachments, r.value);
    }
  }

  /** An entry reads as `e` exactly when its metadata decodes, its dump is there, and
      so is every file the manifest names; those are the attachments, in order. */
  lemma ReadsExactlyWhen(json: Json, files: Files, e: CrashEnvelope)
    ensures ReadEnvelope(json, files) == Some(e) <==>
            && "metadata.json" in files && json.decode(files["metadata.json"]) == Some(e.metadata)
            && "dump.bin" in files && files["dump.bin"] == e.dump
            && ReadAs(files, WithFile(e.metadata.attachments), e.attachments)
  {
    AttachmentsReadExactlyWhen(files, e.metadata.attachments, e.attachments);
  }

  function StoredConfig(client: Client, files: Files): Option<Stored> {
    if "sdk-config.json" in files then client.config(files["sdk-config.json"]) else None
  }

  // ---------------------------------------------------------------- one run

  /** For one entry: the upload got a success response, a previous copy in `sent`
      could be removed, the directory could be renamed. */
  datatype Answer = Answer(posted: bool, cleared: bool, renamed: bool)

  type Answers = string -> Answer

  /** The server confirmed the upload of this entry. With stored settings the
      upload is not even tried unless the entry has a usable configuration. */
  predicate Confirmed(client: Client, stored: bool, entry: Entry, answer: Answer) {
    && (stored ==> StoredConfig(client, entry.files).Some?)
    && ReadEnvelope(client.json, entry.files).Some? && answer.posted
  }

  predicate Cleared(client: Client, stored: bool, st: Spools, n: string, answer: Answer)
    requires n in st.pending
  {
    Confirmed(client, stored, st.pending[n], answer) && (n in st.sent ==> answer.cleared)
  }

  predicate Ships(client: Client, stored: bool, st: Spools, n: string, answer: Answer)
    requires n in st.pending
  {
    Cleared(client, stored, st, n, answer) && answer.renamed
  }

  function Move(st: Spools, n: string): Spools
    requires n in st.pending
  {
    Spools(st.pending - {n}, st.sent[n := st.pending[n]])
  }

  /** One entry: moved, or left in place with an error. */
  function ShipOne(client: Client, stored: bool, st: Spools, n: string, answer: Answer): (Spools, bool)
    requires n in st.pending
  {
    if Ships(client, stored, st, n, answer) then (Move(st, n), true)
    else if Cleared(client, stored, st, n, answer) then (st.(sent := st.sent - {n}), false)
    else (st, false)
  }

  /** The entries `names` in order, until one fails. */
  function ShipAll(client: Client, stored: bool, st: Spools, names: seq<string>, answers: Answers): (Spools, bool)
    decreases |names|
  {
    if names == [] || names[0] !in st.pending then (st, names == [])
    else
      var (st', ok) := ShipOne(client, stored, st, names[0], answers(names[0]));
      if ok then ShipAll(client, stored, st', names[1..], answers) else (st', false)
  }

  lemma ShipAllNext(client: Client, stored: bool, st: Spools, names: seq<string>, i: nat, answers: Answers)
    requires i < |names| && names[i] in st.pending
    ensures var (st', ok) := ShipOne(client, stored, st, names[i], answers(names[i]));
            ShipAll(client, stored, st, names[i..], answers) ==
            if ok then ShipAll(client, stored, st', names[i + 1..], answers) else (st', false)
  {
    assert names[i..][0] == names[i] && names[i..][1..] == names[i + 1..];
  }

  // -------------------------------------------------------------- retention

  const MAX_U64: nat := 0xFFFF_FFFF_FFFF_FFFF
  const MIN_I64: int := -0x8000_0000_0000_0000

  /** Seconds are counted from the epoch. The product saturates, and a time
      before the smallest one representable becomes the epoch. */
  function Cutoff(now: int, days: nat): int {
    var seconds := if days * 86400 <= MAX_U64 then days * 86400 else MAX_U64;
    if now - seconds < MIN_I64 then 0 else now - seconds
  }

  function Recent(sent: Entries, cutoff: int): Entries {
    map n | n in sent && sent[n].mtime >= cutoff :: sent[n]
  }

  /** A cleanup over `names`, until a removal fails. */
  function CleanAll(sent: Entries, names: seq<string>, cutoff: int, removes: string -> bool): (Entries, bool)
    decreases |names|
  {
    if names == [] then (sent, true)
    else if names[0] !in sent || sent[names[0]].mtime >= cutoff then CleanAll(sent, names[1..], cutoff, removes)
    else if removes(names[0]) then CleanAll(sent - {names[0]}, names[1..], cutoff, removes)
    else (sent, false)
  }

  predicate Stale(sent: Entries, cutoff: int, n: string) { n in sent && sent[n].mtime < cutoff }

  /** Only stale entries go, and of those that are listed all do unless a removal fails. */
  lemma {:induction false} CleanedExactly(sent: Entries, names: seq<string>, cutoff: int, removes: string -> bool,
                                          n: string)
    requires Ascending(names)
    ensures var (left, ok) := CleanAll(sent, names, cutoff, removes);
            && (n in left ==> n in sent && left[n] == sent[n])
            && (n in sent && n !in left ==> n in names && Stale(sent, cutoff, n) && removes(n))
            && (ok && n in names && Stale(sent, cutoff, n) ==> n !in left && removes(n))
            && (!ok ==> exists m :: m in names && Stale(sent, cutoff, m) && !removes(m))
    decreases |names|
  {
    if names != [] {
      var first, rest := names[0], names[1..];
      assert names == [first] + rest;
      var gone := Stale(sent, cutoff, first) && removes(first);
      CleanedExactly(if gone then sent - {first} else sent, rest, cutoff, removes, n);
      if Stale(sent, cutoff, first) && !removes(first) {
        assert first in names;
      } else if !CleanAll(sent, names, cutoff, removes).1 {
        var m :| m in rest && Stale(if gone then sent - {first} else sent, cutoff, m) && !removes(m);
        assert m in names;
      }
    }
  }

  /** A cleanup succeeds exactly when every stale entry can be removed, and then leaves exactly the recent ones. */
  lemma CleanupExactlyWhen(sent: Entries, names: seq<string>, cutoff: int, removes: string -> bool)
    requires Lists(names, sent.Keys)
    ensures var (left, ok) := CleanAll(sent, names, cutoff, removes);
            && (ok <==> forall n :: Stale(sent, cutoff, n) ==> removes(n))
            && (ok ==> left == Recent(sent, cutoff))
            && (forall n :: n in Recent(sent, cutoff) ==> n in left && left[n] == sent[n])
  {
    var (left, ok) := CleanAll(sent, names, cutoff, removes);
    forall n
      ensures n in left ==> n in sent && left[n] == sent[n]
      ensures n in Recent(sent, cutoff) ==> n in left
      ensures ok && Stale(sent, cutoff, n) ==> n !in left && removes(n)
    {
      CleanedExactly(sent, names, cutoff, removes, n);
      assert n in sent ==> n in names;
    }
    CleanedExactly(sent, names, cutoff, removes, "");
  }

  function Retention(client: Client, pending: Entries, n: string): Option<nat> {
    if n !in pending then None
    else
      var config :- StoredConfig(client, pending[n].files);
      Some(config.retentionDays)
  }

  /** The largest retention among some entries. */
  function MaxRetention(client: Client, pending: Entries, names: seq<string>): Option<nat> {
    if names == [] then None
    else
      var before := MaxRetention(client, pending, names[..|names| - 1]);
      var days := Retention(client, pending, names[|names| - 1]);
      if days.None? then before else RecordRetention(before, days.value)
  }

  lemma MaxRetentionNext(client: Client, before: Entries, pending: Entries, names: seq<string>, i: nat)
    requires i < |names| && Untouched(before, pending, names, i)
    ensures Retention(client, pending, names[i]).Some? ==>
              MaxRetention(client, before, names[..i + 1]) ==
              RecordRetention(MaxRetention(client, before, names[..i]), Retention(client, pending, names[i]).value)
  {
    assert names[..i + 1][..i] == names[..i];
  }

  function RetentionOrDefault(days: Option<nat>): nat {
    if days.Some? then days.value else DEFAULT_SENT_RETENTION_DAYS
  }

  /** A run with one endpoint: clean up, then ship. */
  function PendingRun(client: Client, st: Spools, cleaned: seq<string>, now: int, removes: string -> bool,
                      names: seq<string>, answers: Answers): (Spools, bool)
  {
    var (sent, ok) := CleanAll(st.sent, cleaned, Cutoff(now, DEFAULT_SENT_RETENTION_DAYS), removes);
    if ok then ShipAll(client, false, st.(sent := sent), names, answers) else (st.(sent := sent), false)
  }

  /** A run with stored endpoints: ship, then clean up with the largest retention
      shipped. It may have shipped everything and yet end with an error. */
  function StoredRun(client: Client, st: Spools, cleaned: seq<string>, now: int, removes: string -> bool,
                     names: seq<string>, answers: Answers): (Spools, bool)
  {
    var (after, ok) := ShipAll(client, true, st, names, answers);
    if !ok then (after, false)
    else
      var days := RetentionOrDefault(MaxRetention(client, st.pending, names));
      var (sent, cleared) := CleanAll(after.sent, cleaned, Cutoff(now, days), removes);
      (after.(sent := sent), cleared)
  }

  lemma StaysListed(names: seq<string>, i: nat, sent: Entries)
    requires Ascending(names) && i < |names| && forall j :: i <= j < |names| ==> names[j] in sent
    ensures forall j :: i < j < |names| ==> names[j] in sent - {names[i]}
  {
    forall j | i < j < |names| ensures names[j] != names[i] {
      assert Less(names[i], names[j]);
      LessTrichotomy(names[i], names[j]);
    }
  }

  class CrashSpool {
    var pending: Entries
    var sent: Entries

    ghost function Contents(): Spools
      reads this
    {
      Spools(pending, sent)
    }

    /** `cleanup_sent`: stops with an error at the first removal that fails. */
    method CleanupSent(now: int, days: nat, removes: string -> bool) returns (ok: bool, ghost names: seq<string>)
      modifies this`sent
      ensures Lists(names, old(sent).Keys)
      ensures (sent, ok) == CleanAll(old(sent), names, Cutoff(now, days), removes)
    {
      var cutoff := Cutoff(now, days);
      var entries := Sorted(sent.Keys);
      names := entries;
      for i := 0 to |entries|
        invariant CleanAll(old(sent), entries, cutoff, removes) == CleanAll(sent, entries[i..], cutoff, removes)
        invariant forall j :: i <= j < |entries| ==> entries[j] in sent
      {
        assert entries[i..][0] == entries[i] && entries[i..][1..] == entries[i + 1..];
        StaysListed(entries, i, sent);
        if sent[entries[i]].mtime < cutoff {
          if !removes(entries[i]) {
            return false, entries;
          }
          sent := sent - {entries[i]};
        }
      }
      ok := true;
    }

    method ShipEntry(client: Client, ghost stored: bool, n: string, answer: Answer) returns (ok: bool)
      requires n in pending && (stored ==> StoredConfig(client, pending[n].files).Some?)
      modifies this
      ensures (Contents(), ok) == ShipOne(client, stored, old(Contents()), n, answer)
    {
      if ReadEnvelope(client.json, pending[n].files).None? || !answer.posted {
        return false;
      }
      if n in sent {
        if !answer.cleared {
          return false;
        }
        sent := sent - {n};
      }
      if !answer.renamed {
        assert sent == old(sent) - {n};
        return false;
      }
      sent := sent[n := pending[n]];
      pending := pending - {n};
      assert sent == old(sent)[n := old(pending)[n]];
      return true;
    }

    /** `ship_pending_with_client`: clean up, then ship everything to one endpoint. */
    method ShipPending(client: Client, locked: bool, now: int, removes: string -> bool, answers: Answers)
      returns (r: Option<nat>, ghost cleaned: seq<string>, ghost names: seq<string>)
      modifies this
      ensures !locked ==> r.None? && Contents() == old(Contents())
      ensures locked ==>
                && Lists(cleaned, old(sent).Keys) && Lists(names, old(pending).Keys)
                && PendingRun(client, old(Contents()), cleaned, now, removes, names, answers) ==
                   (Contents(), r.Some?) && (r.Some? ==> r.value == |names|)
    {
      cleaned, names := [], [];
      if !locked {
        return None, cleaned, names;
      }
      var ok;
      ok, cleaned := CleanupSent(now, DEFAULT_SENT_RETENTION_DAYS, removes);
      var entries := Sorted(pending.Keys);
      names := entries;
      if !ok {
        return None, cleaned, entries;
      }
      ghost var start := Contents();
      var shipped := 0;
      for i := 0 to |entries|
        invariant shipped == i
        invariant Untouched(start.pending, pending, entries, i)
        invariant ShipAll(client, false, start, entries, answers) ==
                  ShipAll(client, false, Contents(), entries[i..], answers)
      {
        UntouchedNext(start.pending, pending, entries, i);
        ShipAllNext(client, false, Contents(), entries, i, answers);
        ok := ShipEntry(client, false, entries[i], answers(entries[i]));
        if !ok {
          return None, cleaned, entries;
        }
        shipped := shipped + 1;
      }
      r := Some(shipped);
    }

    /** The body of the loop of `ShipStored`: the retention of the entry, if it was shipped. */
    method ShipStoredEntry(client: Client, n: string, answer: Answer) returns (days: Option<nat>)
      requires n in pending
      modifies this
      ensures (Contents(), days.Some?) == ShipOne(client, true, old(Contents()), n, answer)
      ensures days.Some? ==> days == Retention(client, old(pending), n)
    {
      var config :- StoredConfig(client, pending[n].files);
      var ok := ShipEntry(client, true, n, answer);
      days := if ok then Some(config.retentionDays) else None;
    }

    /** `ship_stored_with_client`: ship every entry to its own endpoint, then
        clean up with the largest retention among what was shipped. */
    method ShipStored(client: Client, locked: bool, now: int, removes: string -> bool, answers: Answers)
      returns (r: Option<nat>, ghost cleaned: seq<string>, ghost names: seq<string>)
      modifies this
      ensures !locked ==> r.None? && Contents() == old(Contents())
      ensures locked ==>
                && Lists(names, old(pending).Keys)
                && Lists(cleaned, ShipAll(client, true, old(Contents()), names, answers).0.sent.Keys)
                && StoredRun(client, old(Contents()), cleaned, now, removes, names, answers) ==
                   (Contents(), r.Some?) && (r.Some? ==> r.value == |names|)
    {
      cleaned, names := [], [];
      if !locked {
        return None, cleaned, names;
      }
      var entries := Sorted(pending.Keys);
      names := entries;
      var result := ShipStoredEntries(client, entries, answers);
      if result.None? {
        cleaned := ListingOf(sent.Keys);
        return None, cleaned, entries;
      }
      var ok;
      ok, cleaned := CleanupSent(now, RetentionOrDefault(result.value.1), removes);
      r := if ok then Some(result.value.0) else None;
    }

    /** The loop of `ShipStored`: how many were shipped and the largest retention. */
    method ShipStoredEntries(client: Client, entries: seq<string>, answers: Answers)
      returns (r: Option<(nat, Option<nat>)>)
      requires Ascending(entries) && Untouched(pending, pending, entries, 0)
      modifies this
      ensures (Contents(), r.Some?) == ShipAll(client, true, old(Contents()), entries, answers)
      ensures r.Some? ==> r.value == (|entries|, MaxRetention(client, old(pending), entries))
    {
      var shipped, maxDays := 0, None;
      for i := 0 to |entries|
        invariant shipped == i
        invariant Untouched(old(pending), pending, entries, i)
        invariant ShipAll(client, true, old(Contents()), entries, answers) ==
                  ShipAll(client, true, Contents(), entries[i..], answers)
        invariant maxDays == MaxRetention(client, old(pending), entries[..i])
      {
        UntouchedNext(old(pending), pending, entries, i);
        ShipAllNext(client, true, Contents(), entries, i, answers);
        MaxRetentionNext(client, old(pending), pending, entries, i);
        var days := ShipStoredEntry(client, entries[i], answers(entries[i]));
        if days.None? {
          return None;
        }
        maxDays := RecordRetention(maxDays, days.value);
        shipped := shipped + 1;
      }
      assert entries[..|entries|] == entries;
      r := Some((shipped, maxDays));
    }
  }

  /** The entries from the `i`-th on are as they were. */
  ghost predicate Untouched(before: Entries, pending: Entries, names: seq<string>, i: nat) {
    forall j :: i <= j < |names| ==> names[j] in before && names[j] in pending && pending[names[j]] == before[names[j]]
  }

  lemma UntouchedNext(before: Entries, pending: Entries, names: seq<string>, i: nat)
    requires Ascending(names) && i < |names| && Untouched(before, pending, names, i)
    ensures names[i] in pending && names[i] in before && pending[names[i]] == before[names[i]]
    ensures Untouched(before, pending - {names[i]}, names, i + 1)
  {
    forall j | i < j < |names| ensures names[j] != names[i] {
      assert Less(names[i], names[j]);
      LessTrichotomy(names[i], names[j]);
    }
  }

  function RecordRetention(maxDays: Option<nat>, days: nat): Option<nat> {
    if maxDays.Some? && maxDays.value >= days then maxDays else Some(days)
  }

  lemma AscendingFresh(names: seq<string>, i: nat)
    requires Ascending(names) && i < |names|
    ensures names[i] !in names[..i]
  {
    LessTrichotomy(names[i], names[i]);
    forall k | 0 <= k < i ensures names[k] != names[i] {
      assert Less(names[k], names[i]);
    }
  }

  // ------------------------------------------------------- what a run does

  /** The first `k` of `names` were moved as they were. All else is unchanged,
      but that a failed rename may have cost the old copy of the next one. */
  ghost predicate MovedPrefix(st: Spools, after: Spools, names: seq<string>, k: nat, n: string)
    requires k <= |names|
  {
    if n in names[..k] then
      n in st.pending && n !in after.pending && n in after.sent && after.sent[n] == st.pending[n]
    else
      && (n in after.pending <==> n in st.pending) && (n in st.pending ==> after.pending[n] == st.pending[n])
      && (n in after.sent ==> n in st.sent && after.sent[n] == st.sent[n])
      && (n in st.sent && n !in after.sent ==> k < |names| && n == names[k])
  }

  /** Nothing stands in the way of entry `n`: with stored settings it has a usable
      configuration, it reads, its upload got a success response, a previous copy
      could be removed, and the directory could be renamed. */
  ghost predicate Movable(client: Client, stored: bool, st: Spools, n: string, answer: Answer) {
    && n in st.pending
    && var files := st.pending[n].files;
       && (stored ==> "sdk-config.json" in files && client.config(files["sdk-config.json"]).Some?)
       && ReadEnvelope(client.json, files).Some?
       && answer.posted && (n in st.sent ==> answer.cleared) && answer.renamed
  }

  lemma TailApart(names: seq<string>, i: nat)
    requires Ascending(names) && 0 < i < |names|
    ensures names[i] != names[0] && names[1..][i - 1] == names[i]
  {
    assert Less(names[0], names[i]);
    LessTrichotomy(names[0], names[i]);
  }

  lemma PrefixGrows(st: Spools, after: Spools, names: seq<string>, k: nat, n: string)
    requires Ascending(names) && k < |names| && names[0] in st.pending
    requires MovedPrefix(Move(st, names[0]), after, names[1..], k, n)
    ensures MovedPrefix(st, after, names, k + 1, n)
  {
    assert names[..k + 1] == [names[0]] + names[1..][..k];
    AscendingFresh(names, 0);
    if n == names[0] {
      forall i | 0 <= i < k ensures names[1..][i] != n {
        TailApart(names, i + 1);
      }
    }
    if k + 1 < |names| {
      TailApart(names, k + 1);
    }
  }

  lemma FailsAtOnce(client: Client, stored: bool, st: Spools, names: seq<string>, answers: Answers, n: string)
    requires names != [] && names[0] in st.pending && !Ships(client, stored, st, names[0], answers(names[0]))
    ensures MovedPrefix(st, ShipAll(client, stored, st, names, answers).0, names, 0, n)
  {
  }

  /** A run ships in order and stops at the first entry it cannot ship; what it
      shipped has moved, and the rest is where it was. */
  lemma {:induction false} StopsAtFirstFailure(client: Client, stored: bool, st: Spools, names: seq<string>,
                                               answers: Answers)
    returns (k: nat)
    requires Ascending(names) && forall n :: n in names ==> n in st.pending
    ensures k <= |names| && (ShipAll(client, stored, st, names, answers).1 <==> k == |names|)
    ensures forall i :: 0 <= i < k ==> Movable(client, stored, st, names[i], answers(names[i]))
    ensures k < |names| ==> !Movable(client, stored, st, names[k], answers(names[k]))
    ensures k < |names| && names[k] in st.sent ==>
              (names[k] !in ShipAll(client, stored, st, names, answers).0.sent <==>
               Movable(client, stored, st, names[k], answers(names[k]).(renamed := true)))
    ensures forall n :: MovedPrefix(st, ShipAll(client, stored, st, names, answers).0, names, k, n)
    decreases |names|
  {
    k := 0;
    if names != [] {
      assert names[0] in names;
      if Ships(client, stored, st, names[0], answers(names[0])) {
        var st', rest := Move(st, names[0]), names[1..];
        TailPending(st, names);
        var k' := StopsAtFirstFailure(client, stored, st', rest, answers);
        k := k' + 1;
        forall i | 0 < i < |names|
          ensures Movable(client, stored, st', rest[i - 1], answers(rest[i - 1])) <==>
                  Movable(client, stored, st, names[i], answers(names[i]))
        {
          TailApart(names, i);
        }
        forall n ensures MovedPrefix(st, ShipAll(client, stored, st, names, answers).0, names, k, n) {
          PrefixGrows(st, ShipAll(client, stored, st, names, answers).0, names, k', n);
        }
      } else {
        forall n ensures MovedPrefix(st, ShipAll(client, stored, st, names, answers).0, names, 0, n) {
          FailsAtOnce(client, stored, st, names, answers, n);
        }
      }
    }
  }

  lemma TailPending(st: Spools, names: seq<string>)
    requires Ascending(names) && names != [] && forall n :: n in names ==> n in st.pending
    ensures names[0] in st.pending
    ensures forall n :: n in names[1..] ==> n in Move(st, names[0]).pending
  {
    assert names[0] in names;
    forall n | n in names[1..] ensures n in Move(st, names[0]).pending {
      var i :| 0 <= i < |names[1..]| && names[1..][i] == n;
      TailApart(names, i + 1);
      assert n in names;
    }
  }

  // ------------------------------------------------------- many runs

  /** One shipping run that got the lock, or the arrival of a new entry. A run
      that does not get the lock changes nothing. */
  datatype Step =
    | Ship(stored: bool, now: int, removes: string -> bool, answers: Answers, cleaned: seq<string>, names: seq<string>)
    | Arrive(name: string, entry: Entry)

  ghost predicate Possible(st: Spools, step: Step) {
    match step
    case Ship(_, _, _, _, _, names) => Lists(names, st.pending.Keys)
    case Arrive(name, _) => name !in st.pending
  }

  /** As `ShipPending` and `ShipStored` say. */
  function After(client: Client, st: Spools, step: Step): Spools {
    match step
    case Arrive(name, entry) => st.(pending := st.pending[name := entry])
    case Ship(false, now, removes, answers, cleaned, names) =>
      PendingRun(client, st, cleaned, now, removes, names, answers).0
    case Ship(true, now, removes, answers, cleaned, names) =>
      StoredRun(client, st, cleaned, now, removes, names, answers).0
  }

  ghost function History(client: Client, st: Spools, steps: seq<Step>): Option<Spools> {
    if steps == [] then Some(st)
    else
      var before :- History(client, st, steps[..|steps| - 1]);
      if Possible(before, steps[|steps| - 1]) then Some(After(client, before, steps[|steps| - 1])) else None
  }

  /** In this step the upload of this entry, as it could be read, got a success
      response, with stored settings to the endpoint of a usable configuration. */
  ghost predicate ConfirmedBy(client: Client, step: Step, n: string, entry: Entry) {
    && step.Ship? && step.answers(n).posted && ReadEnvelope(client.json, entry.files).Some?
    && (step.stored ==> "sdk-config.json" in entry.files && client.config(entry.files["sdk-config.json"]).Some?)
  }

  /** Where the run of a step begins to ship. */
  function Start(st: Spools, step: Step): Spools
    requires step.Ship?
  {
    if step.stored then st
    else st.(sent := CleanAll(st.sent, step.cleaned, Cutoff(step.now, DEFAULT_SENT_RETENTION_DAYS), step.removes).0)
  }

  /** A run that begins to ship takes an entry out of `pending` if and only if
      nothing stands in the way of it and of any entry listed before it, and
      leaves every other one as it is. */
  lemma LeavesExactlyWhen(client: Client, st: Spools, step: Step, n: string)
    requires Possible(st, step) && step.Ship? && n in st.pending
    requires step.stored || PendingRun(client, st, step.cleaned, step.now, step.removes, [], step.answers).1
    ensures var after, start := After(client, st, step).pending, Start(st, step);
            && (n in after ==> after[n] == st.pending[n])
            && (n !in after <==>
                forall m :: m in st.pending && (m == n || Less(m, n)) ==>
                  Movable(client, step.stored, start, m, step.answers(m)))
  {
    var names, start := step.names, Start(st, step);
    var k := StopsAtFirstFailure(client, step.stored, start, names, step.answers);
    assert MovedPrefix(start, ShipAll(client, step.stored, start, names, step.answers).0, names, k, n);
    var j :| 0 <= j < |names| && names[j] == n;
    if j < k {
      assert n in names[..k];
      forall m | m in st.pending && (m == n || Less(m, n))
        ensures Movable(client, step.stored, start, m, step.answers(m))
      {
        var i :| 0 <= i < |names| && names[i] == m;
        ListedBefore(names, i, j);
      }
    } else {
      NotInPrefix(names, k, j);
      assert names[k] in names && !Movable(client, step.stored, start, names[k], step.answers(names[k]));
    }
  }

  lemma ListedBefore(names: seq<string>, i: nat, j: nat)
    requires Ascending(names) && i < |names| && j < |names| && (names[i] == names[j] || Less(names[i], names[j]))
    ensures i <= j
  {
    if j < i {
      assert Less(names[j], names[i]);
      LessTrichotomy(names[i], names[j]);
    }
  }

  lemma NotInPrefix(names: seq<string>, k: nat, j: nat)
    requires Ascending(names) && k <= j < |names|
    ensures names[j] !in names[..k] && (names[k] == names[j] || Less(names[k], names[j]))
  {
    if names[j] in names[..k] {
      var i :| 0 <= i < k && names[i] == names[j];
      ListedBefore(names, j, i);
    }
  }

  /** Whatever else happens in a step, an entry that got no success response stays as it is. */
  lemma UnpostedStays(client: Client, st: Spools, step: Step, n: string)
    requires Possible(st, step) && n in st.pending && step.Ship? && !step.answers(n).posted
    ensures n in After(client, st, step).pending && After(client, st, step).pending[n] == st.pending[n]
  {
    StepKeepsUnconfirmed(client, st, step, n);
  }

  lemma StepKeepsUnconfirmed(client: Client, st: Spools, step: Step, n: string)
    requires Possible(st, step) && n in st.pending
    ensures var after := After(client, st, step);
            || (n in after.pending && after.pending[n] == st.pending[n])
            || ConfirmedBy(client, step, n, st.pending[n])
  {
    if step.Ship? {
      var start := Start(st, step);
      var k := StopsAtFirstFailure(client, step.stored, start, step.names, step.answers);
      assert MovedPrefix(start, ShipAll(client, step.stored, start, step.names, step.answers).0, step.names, k, n);
      if n in step.names[..k] {
        var i :| 0 <= i < k && step.names[i] == n;
        assert Movable(client, step.stored, start, step.names[i], step.answers(step.names[i]));
      }
    }
  }

  ghost predicate PendingAs(st: Spools, n: string, entry: Entry) {
    n in st.pending && st.pending[n] == entry
  }

  /** Step `i` of a history takes the entry out of `pending`, with the server's confirmation of it. */
  ghost predicate LeavesAt(client: Client, st: Spools, steps: seq<Step>, i: nat, n: string, entry: Entry) {
    && i < |steps| && ConfirmedBy(client, steps[i], n, entry)
    && var before, after := History(client, st, steps[..i]), History(client, st, steps[..i + 1]);
       before.Some? && after.Some? && PendingAs(before.value, n, entry) && !PendingAs(after.value, n, entry)
  }

  lemma LeavesEarlier(client: Client, st: Spools, steps: seq<Step>, k: nat, i: nat, n: string, entry: Entry)
    requires k <= |steps| && LeavesAt(client, st, steps[..k], i, n, entry)
    ensures LeavesAt(client, st, steps, i, n, entry)
  {
    assert steps[..k][..i] == steps[..i] && steps[..k][..i + 1] == steps[..i + 1];
  }

  lemma LeavesLast(client: Client, st: Spools, steps: seq<Step>, n: string, entry: Entry)
    requires steps != [] && History(client, st, steps).Some?
    requires PendingAs(History(client, st, steps[..|steps| - 1]).value, n, entry)
    requires PendingAs(History(client, st, steps).value, n, entry) || ConfirmedBy(client, steps[|steps| - 1], n, entry)
    ensures PendingAs(History(client, st, steps).value, n, entry) || LeavesAt(client, st, steps, |steps| - 1, n, entry)
  {
    assert steps[..|steps| - 1 + 1] == steps;
  }

  /** Over any history of runs and arrivals, an entry is still pending as it
      arrived, or it left in a run that got a success response for it. */
  lemma {:induction false} LeavesOnlyConfirmed(client: Client, st: Spools, steps: seq<Step>, n: string)
    requires History(client, st, steps).Some? && n in st.pending
    ensures || PendingAs(History(client, st, steps).value, n, st.pending[n])
            || exists i :: LeavesAt(client, st, steps, i, n, st.pending[n])
  {
    if steps != [] {
      var before, last, entry := steps[..|steps| - 1], |steps| - 1, st.pending[n];
      LeavesOnlyConfirmed(client, st, before, n);
      var mid := History(client, st, before).value;
      if PendingAs(mid, n, entry) {
        StepKeepsUnconfirmed(client, mid, steps[last], n);
        LeavesLast(client, st, steps, n, entry);
      } else {
        var i: nat :| LeavesAt(client, st, before, i, n, entry);
        LeavesEarlier(client, st, steps, last, i, n, entry);
      }
    }
  }

  // ------------------------------------------------------- retention

  /** `MaxRetention` is the maximum: some entry has it, none has more. */
  lemma {:induction false} MaxRetentionIsMaximum(client: Client, pending: Entries, names: seq<string>)
    ensures var max := MaxRetention(client, pending, names);
            && (forall n :: n in names && Retention(client, pending, n).Some? ==>
                  max.Some? && Retention(client, pending, n).value <= max.value)
            && (max.Some? ==> exists n :: n in names && Retention(client, pending, n) == max)
  {
    if names != [] {
      var before, last := names[..|names| - 1], names[|names| - 1];
      MaxRetentionIsMaximum(client, pending, before);
      assert names == before + [last];
      var max := MaxRetention(client, pending, names);
      if max.Some? && max == MaxRetention(client, pending, before) {
        var n :| n in before && Retention(client, pending, n) == max;
        assert n in names;
      } else if max.Some? {
        assert last in names && Retention(client, pending, last) == max;
      }
    }
  }

  /** An entry no older than the retention stays, however absurd the retention is. */
  lemma RecentSurvive(sent: Entries, now: int, days: nat, n: string)
    requires now <= 0x7FFF_FFFF_FFFF_FFFF
    requires n in sent && sent[n].mtime >= 0 && sent[n].mtime >= now - days * 86400
    ensures n in Recent(sent, Cutoff(now, days))
  {
  }

  /** An entry stays exactly when it is no older than the retention, where that
      goes back no further than time itself. */
  lemma RecentExactlyWhen(sent: Entries, now: int, days: nat, n: string)
    requires n in sent && -0x8000_0000_0000_0000 <= now - days * 24 * 60 * 60 && now <= 0x7FFF_FFFF_FFFF_FFFF
    ensures n in Recent(sent, Cutoff(now, days)) <==> now - sent[n].mtime <= days * 24 * 60 * 60
  {
  }

  lemma AllMoved(client: Client, stored: bool, st: Spools, names: seq<string>, answers: Answers, n: string)
    requires Lists(names, st.pending.Keys) && ShipAll(client, stored, st, names, answers).1
    ensures var after := ShipAll(client, stored, st, names, answers).0;
            && n !in after.pending && (n in after.sent <==> n in st.pending || n in st.sent)
            && (n in after.sent ==> after.sent[n] == if n in st.pending then st.pending[n] else st.sent[n])
  {
    var k := StopsAtFirstFailure(client, stored, st, names, answers);
    var after := ShipAll(client, stored, st, names, answers).0;
    assert names[..k] == names && MovedPrefix(st, after, names, k, n);
  }

  /** What a successful run with one endpoint leaves: nothing pending, everything
      that was pending among the sent, and of the earlier sent what is at most 90 days old. */
  lemma PendingRunLeaves(client: Client, st: Spools, cleaned: seq<string>, now: int, removes: string -> bool,
                         names: seq<string>, answers: Answers, n: string)
    requires Lists(cleaned, st.sent.Keys) && Lists(names, st.pending.Keys)
    requires -0x8000_0000_0000_0000 <= now - 90 * 24 * 60 * 60 && now <= 0x7FFF_FFFF_FFFF_FFFF
    requires PendingRun(client, st, cleaned, now, removes, names, answers).1
    ensures var after := PendingRun(client, st, cleaned, now, removes, names, answers).0;
            && n !in after.pending
            && (n in after.sent <==>
                n in st.pending || (n in st.sent && now - st.sent[n].mtime <= 90 * 24 * 60 * 60))
            && (n in after.sent ==> after.sent[n] == if n in st.pending then st.pending[n] else st.sent[n])
  {
    var cutoff := Cutoff(now, DEFAULT_SENT_RETENTION_DAYS);
    CleanupExactlyWhen(st.sent, cleaned, cutoff, removes);
    if n in st.sent {
      RecentExactlyWhen(st.sent, now, 90, n);
    }
    AllMoved(client, false, st.(sent := Recent(st.sent, cutoff)), names, answers, n);
  }

  /** The entry's configuration asks for this many days. */
  ghost predicate Asks(client: Client, entry: Entry, days: nat) {
    && "sdk-config.json" in entry.files && client.config(entry.files["sdk-config.json"]).Some?
    && client.config(entry.files["sdk-config.json"]).value.retentionDays == days
  }

  /** The most days that a pending entry asks for, or 90 if there is none. */
  ghost predicate Longest(client: Client, pending: Entries, days: nat) {
    if pending == map[] then days == 90
    else
      && (exists n :: n in pending && Asks(client, pending[n], days))
      && (forall n, d: nat :: n in pending && Asks(client, pending[n], d) ==> d <= days)
  }

  lemma LongestIsUsed(client: Client, pending: Entries, names: seq<string>, days: nat)
    requires Lists(names, pending.Keys) && Longest(client, pending, days)
    ensures RetentionOrDefault(MaxRetention(client, pending, names)) == days
  {
    MaxRetentionIsMaximum(client, pending, names);
    assert names != [] ==> names[0] in pending;
    if pending != map[] {
      var n :| n in pending && Asks(client, pending[n], days);
      assert n in names && Retention(client, pending, n) == Some(days);
      var max := MaxRetention(client, pending, names);
      var m :| m in names && Retention(client, pending, m) == max;
      assert Asks(client, pending[m], max.value);
    }
  }

  /** What a successful run with stored endpoints leaves: nothing pending, and of
      all that was pending or sent what is at most as old as the longest retention asked for. */
  lemma StoredRunLeaves(client: Client, st: Spools, cleaned: seq<string>, now: int, removes: string -> bool,
                        names: seq<string>, answers: Answers, days: nat, n: string)
    requires Lists(names, st.pending.Keys) && Longest(client, st.pending, days)
    requires Lists(cleaned, ShipAll(client, true, st, names, answers).0.sent.Keys)
    requires -0x8000_0000_0000_0000 <= now - days * 24 * 60 * 60 && now <= 0x7FFF_FFFF_FFFF_FFFF
    requires StoredRun(client, st, cleaned, now, removes, names, answers).1
    ensures var after := StoredRun(client, st, cleaned, now, removes, names, answers).0;
            && n !in after.pending
            && (n in after.sent <==>
                if n in st.pending then now - st.pending[n].mtime <= days * 24 * 60 * 60
                else n in st.sent && now - st.sent[n].mtime <= days * 24 * 60 * 60)
            && (n in after.sent ==> after.sent[n] == if n in st.pending then st.pending[n] else st.sent[n])
  {
    LongestIsUsed(client, st.pending, names, days);
    AllMoved(client, true, st, names, answers, n);
    var sent := ShipAll(client, true, st, names, answers).0.sent;
    CleanupExactlyWhen(sent, cleaned, Cutoff(now, days), removes);
    if n in sent {
      RecentExactlyWhen(sent, now, days, n);
    }
  }

  /** A run with one endpoint that cannot remove a stale entry ends with an error and ships nothing. */
  lemma FailedCleanupShipsNothing(client: Client, st: Spools, cleaned: seq<string>, now: int, removes: string -> bool,
                                  names: seq<string>, answers: Answers, n: string)
    requires Lists(cleaned, st.sent.Keys) && n in st.sent && !removes(n)
    requires -0x8000_0000_0000_0000 <= now - 90 * 24 * 60 * 60 && now <= 0x7FFF_FFFF_FFFF_FFFF
    requires now - st.sent[n].mtime > 90 * 24 * 60 * 60
    ensures var (after, ok) := PendingRun(client, st, cleaned, now, removes, names, answers);
            !ok && after.pending == st.pending
  {
    var cutoff := Cutoff(now, DEFAULT_SENT_RETENTION_DAYS);
    CleanupExactlyWhen(st.sent, cleaned, cutoff, removes);
    RecentExactlyWhen(st.sent, now, 90, n);
    assert Stale(st.sent, cutoff, n);
  }

  /** A run with stored endpoints that cannot ship an entry ends with an error and
      cleans nothing up: of the sent entries, however old, all that have no
      pending namesake stay as they are. */
  lemma FailedShippingKeepsSent(client: Client, st: Spools, cleaned: seq<string>, now: int, removes: string -> bool,
                                names: seq<string>, answers: Answers, m: string, n: string)
    requires Lists(names, st.pending.Keys) && m in st.pending && !Movable(client, true, st, m, answers(m))
    requires n in st.sent && n !in st.pending
    ensures var (after, ok) := StoredRun(client, st, cleaned, now, removes, names, answers);
            !ok && n in after.sent && after.sent[n] == st.sent[n]
  {
    var k := StopsAtFirstFailure(client, true, st, names, answers);
    var j :| 0 <= j < |names| && names[j] == m;
    assert MovedPrefix(st, ShipAll(client, true, st, names, answers).0, names, k, n);
    assert k < |names| ==> names[k] in names;
  }

  /** A longer retention keeps at least as much. */
  lemma LongerKeepsMore(sent: Entries, now: int, days: nat, longer: nat, n: string)
    requires days <= longer && n in Recent(sent, Cutoff(now, days)) && sent[n].mtime >= 0
    ensures n in Recent(sent, Cutoff(now, longer))
  {
  }
}
