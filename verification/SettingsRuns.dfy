/** What every run of edits, saves, restores, imports and restarts keeps of the undo log. */
module SettingsRuns {
  import opened Wrappers
  import opened SettingsSpec

  /** One field set throughout, and a save's memory of the file is the file. */
  ghost predicate Inv(s: State, fields: set<Field>) {
    && s.values.Keys == fields
    && (s.file.Some? ==> s.file.value.Keys == fields)
    && (s.lastSaved.Some? ==> s.lastSaved == s.file)
  }

  ghost predicate SameFields(e: Event, fields: set<Field>) {
    match e
    case Edit(values) => values.Keys == fields
    case Import(config) => config.Keys == fields
    case Reload(values) => values.Keys == fields
    case Save(_) => true
    case Restore(_, _) => true
  }

  ghost predicate AllSameFields(events: seq<Event>, fields: set<Field>) {
    forall i :: 0 <= i < |events| ==> SameFields(events[i], fields)
  }

  lemma {:induction false} InvAlways(s: State, events: seq<Event>, fields: set<Field>, lineBytes: Entry -> nat)
    requires Inv(s, fields) && AllSameFields(events, fields)
    ensures Inv(Run(s, events, lineBytes), fields)
  {
    if events == [] {
    } else {
      InvAlways(s, events[..|events| - 1], fields, lineBytes);
    }
  }

  // ------------------------------------------------------------------ what gets logged

  predicate Saves(e: Event) { e.Save? || e.Restore? }

  /** The line an event adds to the log, trimming aside: the diff of the file before and after. */
  function Logged(s: State, e: Event, lineBytes: Entry -> nat): Option<Entry> {
    if Saves(e) && s.file.Some? then
      var entry := Diff(s.file.value, Step(s, e, lineBytes).file.value);
      if entry == map[] then None else Some(entry)
    else None
  }

  function Lines(line: Option<Entry>): seq<Entry> {
    if line.Some? then [line.value] else []
  }

  function Journal(s: State, events: seq<Event>, lineBytes: Entry -> nat): seq<Entry> {
    if events == [] then [] else
      Journal(s, events[..|events| - 1], lineBytes)
      + Lines(Logged(Run(s, events[..|events| - 1], lineBytes), events[|events| - 1], lineBytes))
  }

  /** Because the remembered save equals the file, each save logs the difference to the file itself. */
  lemma StepLogs(s: State, e: Event, fields: set<Field>, lineBytes: Entry -> nat)
    requires Inv(s, fields)
    ensures var log := Step(s, e, lineBytes).log;
            match Logged(s, e, lineBytes)
            case None => log == s.log
            case Some(entry) => log == Append(s.log, entry, lineBytes)
  {
  }

  /** `log` is what is left of `all` once old lines are dropped; the newest two hundred never are. */
  predicate IsTail(log: seq<Entry>, all: seq<Entry>, dropped: nat) {
    && dropped <= |all| && log == all[dropped..]
    && (dropped == 0 || |all| - dropped >= 200)
  }

  lemma JournalOfOneMore(s: State, events: seq<Event>, lineBytes: Entry -> nat)
    requires events != []
    ensures var before, e := events[..|events| - 1], events[|events| - 1];
            var mid := Run(s, before, lineBytes);
            && Run(s, events, lineBytes) == Step(mid, e, lineBytes)
            && Journal(s, events, lineBytes) == Journal(s, before, lineBytes) + Lines(Logged(mid, e, lineBytes))
  {
  }

  /** The log file is the tail of the journal, and never drops one of its two hundred newest lines. */
  lemma {:induction false} LogIsTailOfJournal(s: State, events: seq<Event>, fields: set<Field>, lineBytes: Entry -> nat)
    returns (dropped: nat)
    requires Inv(s, fields) && AllSameFields(events, fields)
    ensures IsTail(Run(s, events, lineBytes).log, s.log + Journal(s, events, lineBytes), dropped)
  {
    if events == [] {
      dropped := 0;
      assert s.log + [] == s.log;
    } else {
      var before, e := events[..|events| - 1], events[|events| - 1];
      dropped := LogIsTailOfJournal(s, before, fields, lineBytes);
      InvAlways(s, before, fields, lineBytes);
      JournalOfOneMore(s, events, lineBytes);
      var mid := Run(s, before, lineBytes);
      StepLogs(mid, e, fields, lineBytes);
      var journal, line := Journal(s, before, lineBytes), Logged(mid, e, lineBytes);
      dropped := StepKeepsTail(s.log, journal, mid.log, line, dropped, lineBytes);
    }
  }

  lemma StepKeepsTail(
    first: seq<Entry>, journal: seq<Entry>, log: seq<Entry>, line: Option<Entry>, dropped0: nat,
    lineBytes: Entry -> nat)
    returns (dropped: nat)
    requires IsTail(log, first + journal, dropped0) && line != Some(map[])
    ensures IsTail(match line case None => log case Some(entry) => Append(log, entry, lineBytes),
                   first + (journal + Lines(line)), dropped)
  {
    if line.Some? {
      dropped := AppendKeepsTail(first + journal, dropped0, line.value, lineBytes);
      assert first + journal + [line.value] == first + (journal + [line.value]);
    } else {
      dropped := dropped0;
      assert journal + [] == journal;
    }
  }

  lemma AppendKeepsTail(all: seq<Entry>, dropped0: nat, e: Entry, lineBytes: Entry -> nat) returns (dropped: nat)
    requires dropped0 <= |all| && IsTail(all[dropped0..], all, dropped0) && e != map[]
    ensures IsTail(Append(all[dropped0..], e, lineBytes), all + [e], dropped)
  {
    var longer := all[dropped0..] + [e];
    assert longer == (all + [e])[dropped0..];
    dropped := |all| + 1 - |Append(all[dropped0..], e, lineBytes)|;
  }

  lemma {:induction false} TotalOfMore(log: seq<Entry>, more: seq<Entry>, lineBytes: Entry -> nat)
    ensures TotalBytes(log, lineBytes) <= TotalBytes(log + more, lineBytes)
  {
    if more == [] {
      assert log + more == log;
    } else {
      var longer := log + more;
      assert longer[..|longer| - 1] == log + more[..|more| - 1];
      TotalOfMore(log, more[..|more| - 1], lineBytes);
    }
  }

  /** While everything logged fits into 64 KiB, no line is ever dropped. */
  lemma {:induction false} NothingDroppedWhileSmall(
    s: State, events: seq<Event>, fields: set<Field>, lineBytes: Entry -> nat)
    requires Inv(s, fields) && AllSameFields(events, fields)
    requires TotalBytes(s.log + Journal(s, events, lineBytes), lineBytes) <= 65536
    ensures Run(s, events, lineBytes).log == s.log + Journal(s, events, lineBytes)
  {
    if events == [] {
      assert s.log + [] == s.log;
    } else {
      var before, e := events[..|events| - 1], events[|events| - 1];
      JournalOfOneMore(s, events, lineBytes);
      InvAlways(s, before, fields, lineBytes);
      var mid, journal := Run(s, before, lineBytes), Journal(s, before, lineBytes);
      var line := Logged(mid, e, lineBytes);
      LinesBehind(s.log, journal, Lines(line));
      TotalOfMore(s.log + journal, Lines(line), lineBytes);
      NothingDroppedWhileSmall(s, before, fields, lineBytes);
      StepLogs(mid, e, fields, lineBytes);
      SmallLogGrows(mid.log, line, lineBytes);
    }
  }

  lemma LinesBehind(log: seq<Entry>, journal: seq<Entry>, lines: seq<Entry>)
    ensures log + (journal + lines) == (log + journal) + lines
  {
  }

  lemma SmallLogGrows(log: seq<Entry>, line: Option<Entry>, lineBytes: Entry -> nat)
    requires line != Some(map[]) && TotalBytes(log + Lines(line), lineBytes) <= 65536
    ensures log + Lines(line) == match line case None => log case Some(entry) => Append(log, entry, lineBytes)
  {
    if line.None? {
      assert log + [] == log;
    }
  }

  /** The log file is at most 64 KiB or two hundred lines long. */
  ghost predicate LogIsShort(log: seq<Entry>, lineBytes: Entry -> nat) {
    TotalBytes(log, lineBytes) <= 65536 || |log| <= 200
  }

  lemma {:induction false} LogStaysShort(s: State, events: seq<Event>, lineBytes: Entry -> nat)
    requires LogIsShort(s.log, lineBytes)
    ensures LogIsShort(Run(s, events, lineBytes).log, lineBytes)
  {
    if events == [] {
    } else {
      LogStaysShort(s, events[..|events| - 1], lineBytes);
      StepKeepsLogShort(Run(s, events[..|events| - 1], lineBytes), events[|events| - 1], lineBytes);
    }
  }

  lemma StepKeepsLogShort(s: State, e: Event, lineBytes: Entry -> nat)
    requires LogIsShort(s.log, lineBytes)
    ensures LogIsShort(Step(s, e, lineBytes).log, lineBytes)
  {
    var t := Step(s, e, lineBytes);
    if Saves(e) && DiffBase(s).Some? {
      AppendIsShort(s.log, Diff(DiffBase(s).value, t.file.value), lineBytes);
    }
  }

  lemma AppendIsShort(log: seq<Entry>, e: Entry, lineBytes: Entry -> nat)
    requires LogIsShort(log, lineBytes)
    ensures LogIsShort(Append(log, e, lineBytes), lineBytes)
  {
  }

  // ------------------------------------------------------------------ secrets

  predicate HoldsNoSecret(e: Entry) { "proxy" !in e && "remote_access_token" !in e }

  ghost predicate NoSecrets(log: seq<Entry>) {
    forall i :: 0 <= i < |log| ==> HoldsNoSecret(log[i])
  }

  lemma DiffHoldsNoSecret(before: Config, after: Config)
    ensures HoldsNoSecret(Diff(before, after))
  {
  }

  lemma AppendKeepsNoSecrets(log: seq<Entry>, e: Entry, lineBytes: Entry -> nat)
    requires NoSecrets(log) && HoldsNoSecret(e)
    ensures NoSecrets(Append(log, e, lineBytes))
  {
  }

  /** Neither the proxy settings nor the remote access token ever get into the log. */
  lemma {:induction false} SecretsAreNeverLogged(s: State, events: seq<Event>, lineBytes: Entry -> nat)
    requires NoSecrets(s.log)
    ensures NoSecrets(Run(s, events, lineBytes).log)
  {
    if events == [] {
    } else {
      SecretsAreNeverLogged(s, events[..|events| - 1], lineBytes);
      StepLogsNoSecrets(Run(s, events[..|events| - 1], lineBytes), events[|events| - 1], lineBytes);
    }
  }

  lemma StepLogsNoSecrets(s: State, e: Event, lineBytes: Entry -> nat)
    requires NoSecrets(s.log)
    ensures NoSecrets(Step(s, e, lineBytes).log)
  {
    var t := Step(s, e, lineBytes);
    if Saves(e) && DiffBase(s).Some? {
      DiffHoldsNoSecret(DiffBase(s).value, t.file.value);
      AppendKeepsNoSecrets(s.log, Diff(DiffBase(s).value, t.file.value), lineBytes);
    }
  }

  /** A save writes the secrets as encrypted and everything else as it is, and leaves the settings in memory
      alone. */
  lemma SavedSecretsAreEncrypted(s: State, secrets: Config, lineBytes: Entry -> nat)
    requires secrets.Keys == {"proxy", "remote_access_token"} <= s.values.Keys
    ensures var t := Step(s, Save(secrets), lineBytes);
            && t.values == s.values && t.file.Some?
            && t.file.value ==
               s.values["proxy" := secrets["proxy"]]["remote_access_token" := secrets["remote_access_token"]]
  {
  }

  // ------------------------------------------------------------------ rewinding

  lemma UndoLogged(s: State, e: Event, fields: set<Field>, lineBytes: Entry -> nat)
    requires Inv(s, fields) && SameFields(e, fields) && s.file.Some? && !e.Import?
    ensures var t := Step(s, e, lineBytes);
            t.file.Some? && Agree(Rewind(Lines(Logged(s, e, lineBytes)), t.file.value), s.file.value)
  {
    var t := Step(s, e, lineBytes);
    if Saves(e) {
      var entry := Diff(s.file.value, t.file.value);
      UndoDiff(s.file.value, t.file.value, t.file.value);
      if entry == map[] {
        assert Undo(entry, t.file.value) == t.file.value;
      } else {
        assert [entry][..0] == [];
        assert Rewind([entry], t.file.value) == Undo(entry, t.file.value);
      }
    }
  }

  /** Undoing what a run of saves and restores logged, newest first, gives back the file it started from,
      on every field the log may hold. An import in between starts a new stretch. */
  lemma {:induction false} RewindGoesBack(s: State, events: seq<Event>, fields: set<Field>, lineBytes: Entry -> nat)
    requires Inv(s, fields) && AllSameFields(events, fields) && s.file.Some?
    requires forall i :: 0 <= i < |events| ==> !events[i].Import?
    ensures var t := Run(s, events, lineBytes);
            t.file.Some? && Agree(Rewind(Journal(s, events, lineBytes), t.file.value), s.file.value)
  {
    if events == [] {
    } else {
      var before, e := events[..|events| - 1], events[|events| - 1];
      RewindGoesBack(s, before, fields, lineBytes);
      InvAlways(s, before, fields, lineBytes);
      var mid, t := Run(s, before, lineBytes), Run(s, events, lineBytes);
      UndoLogged(mid, e, fields, lineBytes);
      var journal := Journal(s, before, lineBytes);
      var back := Rewind(Lines(Logged(mid, e, lineBytes)), t.file.value);
      RewindSplits(journal, Lines(Logged(mid, e, lineBytes)), t.file.value);
      RewindAgrees(journal, back, mid.file.value);
      AgreeIsTransitive(Rewind(journal, back), Rewind(journal, mid.file.value), s.file.value);
    }
  }

  lemma AgreeIsTransitive(a: Config, b: Config, c: Config)
    requires Agree(a, b) && Agree(b, c)
    ensures Agree(a, c)
  {
  }

  /** The restores a user makes to go back through `entries`, the newest first. */
  function Restores(entries: seq<Entry>, secrets: Config): seq<Event> {
    if entries == [] then [] else
      [Restore(entries[|entries| - 1], secrets)] + Restores(entries[..|entries| - 1], secrets)
  }

  lemma {:induction false} RunSplits(s: State, first: seq<Event>, last: seq<Event>, lineBytes: Entry -> nat)
    ensures Run(s, first + last, lineBytes) == Run(Run(s, first, lineBytes), last, lineBytes)
  {
    if last == [] {
      assert first + last == first;
    } else {
      var all := first + last;
      assert all[|all| - 1] == last[|last| - 1] && all[..|all| - 1] == first + last[..|last| - 1];
      RunSplits(s, first, last[..|last| - 1], lineBytes);
    }
  }

  /** Each restore saves again, and still they compose to one rewind of the settings object. */
  lemma {:induction false} RestoresRewind(s: State, entries: seq<Entry>, secrets: Config, lineBytes: Entry -> nat)
    ensures var t := Run(s, Restores(entries, secrets), lineBytes);
            && t.values == Rewind(entries, s.values)
            && (entries != [] ==> t.file == Some(Sealed(t.values, secrets)))
    decreases |entries|
  {
    if entries == [] {
    } else {
      var init, e := entries[..|entries| - 1], Restore(entries[|entries| - 1], secrets);
      var s1 := Step(s, e, lineBytes);
      RunSplits(s, [e], Restores(init, secrets), lineBytes);
      assert [e][..0] == [];
      assert Run(s, [e], lineBytes) == s1;
      RestoresRewind(s1, init, secrets, lineBytes);
    }
  }

  lemma SealedAgrees(values: Config, secrets: Config)
    ensures Agree(Sealed(values, secrets), values)
  {
  }

  /** From saved settings, restoring the entries of any run one after the other, newest first, brings the
      file back to where that run began, although every restore logs a line of its own. */
  lemma RestoringGoesBack(
    s: State, events: seq<Event>, fields: set<Field>, secrets: Config, lineBytes: Entry -> nat)
    requires Inv(s, fields) && AllSameFields(events, fields) && s.file.Some?
    requires forall i :: 0 <= i < |events| ==> !events[i].Import?
    requires Agree(Run(s, events, lineBytes).values, Run(s, events, lineBytes).file.GetOr(map[]))
    ensures var journal := Journal(s, events, lineBytes);
            var t := Run(Run(s, events, lineBytes), Restores(journal, secrets), lineBytes);
            t.file.Some? && Agree(t.file.value, s.file.value)
  {
    var journal, mid := Journal(s, events, lineBytes), Run(s, events, lineBytes);
    RewindGoesBack(s, events, fields, lineBytes);
    RestoresRewind(mid, journal, secrets, lineBytes);
    RewindAgrees(journal, mid.values, mid.file.value);
    var t := Run(mid, Restores(journal, secrets), lineBytes);
    AgreeIsTransitive(t.values, Rewind(journal, mid.file.value), s.file.value);
    if journal != [] {
      SealedAgrees(t.values, secrets);
      AgreeIsTransitive(t.file.value, t.values, s.file.value);
    }
  }

  // ------------------------------------------------------------------ with unsaved edits

  ghost predicate Mentioned(entries: seq<Entry>, k: Field) {
    exists i :: 0 <= i < |entries| && k in entries[i]
  }

  /** A rewind sets a mentioned field whatever it was, and leaves every other one alone. */
  lemma {:induction false} RewindField(entries: seq<Entry>, c: Config, d: Config, k: Field)
    requires c.Keys == d.Keys && k in c && k !in EXCLUDED_FIELDS
    ensures Rewind(entries, c).Keys == c.Keys && Rewind(entries, d).Keys == c.Keys
    ensures c[k] == d[k] || Mentioned(entries, k) ==> Rewind(entries, c)[k] == Rewind(entries, d)[k]
    ensures !Mentioned(entries, k) ==> Rewind(entries, c)[k] == c[k] && Rewind(entries, d)[k] == d[k]
  {
    if entries == [] {
    } else {
      var init, e := entries[..|entries| - 1], entries[|entries| - 1];
      RewindField(init, Undo(e, c), Undo(e, d), k);
      MentionedInOneMore(entries, k);
    }
  }

  lemma MentionedInOneMore(entries: seq<Entry>, k: Field)
    requires entries != []
    ensures Mentioned(entries, k) <==> Mentioned(entries[..|entries| - 1], k) || k in entries[|entries| - 1]
  {
    var init := entries[..|entries| - 1];
    assert forall i :: 0 <= i < |init| ==> entries[i] == init[i];
  }

  /** Settings hold no unsaved edit of a field that no entry mentions. */
  ghost predicate NoStrayEdit(s: State, entries: seq<Entry>) {
    s.file.Some? && s.file.value.Keys == s.values.Keys
    && forall k :: k in s.values && k !in EXCLUDED_FIELDS && !Mentioned(entries, k) ==> s.values[k] == s.file.value[k]
  }

  /** Whatever was edited without a save, going back through the entries of a run gives the file it started
      from exactly if no such edit touches a field the entries leave out: a restore saves that edit too. */
  lemma RestoringGoesBackIff(
    s: State, events: seq<Event>, fields: set<Field>, secrets: Config, lineBytes: Entry -> nat)
    requires Inv(s, fields) && AllSameFields(events, fields) && s.file.Some?
    requires forall i :: 0 <= i < |events| ==> !events[i].Import?
    requires Journal(s, events, lineBytes) != []
    ensures var journal, mid := Journal(s, events, lineBytes), Run(s, events, lineBytes);
            var t := Run(mid, Restores(journal, secrets), lineBytes);
            t.file.Some? && (Agree(t.file.value, s.file.value) <==> NoStrayEdit(mid, journal))
  {
    var journal, mid := Journal(s, events, lineBytes), Run(s, events, lineBytes);
    RewindGoesBack(s, events, fields, lineBytes);
    InvAlways(s, events, fields, lineBytes);
    RestoresRewind(mid, journal, secrets, lineBytes);
    var t := Run(mid, Restores(journal, secrets), lineBytes);
    SealedAgrees(t.values, secrets);
    RewindsAgreeIff(mid, journal);
    AgreeChain(t.file.value, t.values, Rewind(journal, mid.file.value), s.file.value);
  }

  lemma AgreeChain(a: Config, b: Config, c: Config, d: Config)
    requires Agree(a, b) && Agree(c, d)
    ensures Agree(a, d) <==> Agree(b, c)
  {
  }

  lemma RewindsAgreeIff(s: State, entries: seq<Entry>)
    requires s.file.Some? && s.file.value.Keys == s.values.Keys
    ensures Agree(Rewind(entries, s.values), Rewind(entries, s.file.value)) <==> NoStrayEdit(s, entries)
  {
    var a, b := Rewind(entries, s.values), Rewind(entries, s.file.value);
    RewindKeys(entries, s.values);
    RewindKeys(entries, s.file.value);
    forall k | k in s.values && k !in EXCLUDED_FIELDS
      ensures a[k] == b[k] <==> Mentioned(entries, k) || s.values[k] == s.file.value[k]
    {
      RewindField(entries, s.values, s.file.value, k);
    }
  }

  lemma {:induction false} RewindKeys(entries: seq<Entry>, c: Config)
    ensures Rewind(entries, c).Keys == c.Keys
  {
    if entries == [] {
    } else {
      RewindKeys(entries[..|entries| - 1], Undo(entries[|entries| - 1], c));
    }
  }

  lemma OneMoreEvent(s: State, events: seq<Event>, e: Event, lineBytes: Entry -> nat)
    ensures Run(s, events + [e], lineBytes) == Step(Run(s, events, lineBytes), e, lineBytes)
    ensures Journal(s, events + [e], lineBytes) ==
            Journal(s, events, lineBytes) + Lines(Logged(Run(s, events, lineBytes), e, lineBytes))
  {
    assert (events + [e])[..|events|] == events;
  }

  lemma SavingOneField(s: State, start: Config, k: Field, b: Value, lineBytes: Entry -> nat)
    requires k in start && k !in EXCLUDED_FIELDS && start[k] != b
    requires s.values == start[k := b] && s.file == Some(start)
    ensures Step(s, Save(map[]), lineBytes).file == Some(start[k := b])
    ensures Logged(s, Save(map[]), lineBytes) == Some(map[k := Change(start[k], b)])
  {
    assert Sealed(start[k := b], map[]) == start[k := b];
    var line := Diff(start, start[k := b]);
    assert k in line && line == map[k := Change(start[k], b)];
  }

  /** Field k is saved, field l is edited and not saved: undoing the save writes that edit, and so does not
      bring the file back. */
  lemma UnsavedEditSurvivesRestore(
    start: Config, k: Field, b: Value, l: Field, y: Value, secrets: Config, lineBytes: Entry -> nat)
    requires {k, l} <= start.Keys - EXCLUDED_FIELDS && k != l && start[k] != b && start[l] != y
    ensures var s := State(start, Some(start), Some(start), []);
            var events := [Edit(start[k := b])] + [Save(map[])] + [Edit(start[k := b][l := y])];
            var journal := Journal(s, events, lineBytes);
            var t := Run(Run(s, events, lineBytes), Restores(journal, secrets), lineBytes);
            && journal == [map[k := Change(start[k], b)]]
            && t.file.Some? && !Agree(t.file.value, start)
  {
    var s := State(start, Some(start), Some(start), []);
    var e1, e3 := Edit(start[k := b]), Edit(start[k := b][l := y]);
    var events := [e1] + [Save(map[])] + [e3];
    var line := map[k := Change(start[k], b)];
    UnsavedEditRun(start, k, b, e3.values, lineBytes);
    assert !Mentioned([line], l) && e3.values[l] == y;
    StrayEdit(Run(s, events, lineBytes), [line], l);
    assert start[k := b].Keys == start.Keys && e3.values.Keys == start.Keys;
    RestoringGoesBackIff(s, events, start.Keys, secrets, lineBytes);
  }

  lemma StrayEdit(s: State, entries: seq<Entry>, l: Field)
    requires l in s.values && l !in EXCLUDED_FIELDS && !Mentioned(entries, l)
    requires s.file.Some? && l in s.file.value && s.values[l] != s.file.value[l]
    ensures !NoStrayEdit(s, entries)
  {
  }

  /** A save of one field and an edit after it. */
  lemma UnsavedEditRun(start: Config, k: Field, b: Value, values: Config, lineBytes: Entry -> nat)
    requires k in start && k !in EXCLUDED_FIELDS && start[k] != b
    ensures var s := State(start, Some(start), Some(start), []);
            var events := [Edit(start[k := b])] + [Save(map[])] + [Edit(values)];
            && Journal(s, events, lineBytes) == [map[k := Change(start[k], b)]]
            && Run(s, events, lineBytes).values == values && Run(s, events, lineBytes).file == Some(start[k := b])
  {
    var s := State(start, Some(start), Some(start), []);
    var e1, e2, e3 := Edit(start[k := b]), Save(map[]), Edit(values);
    OneMoreEvent(s, [], e1, lineBytes);
    OneMoreEvent(s, [e1], e2, lineBytes);
    OneMoreEvent(s, [e1] + [e2], e3, lineBytes);
    assert [] + [e1] == [e1];
    SavingOneField(Step(s, e1, lineBytes), start, k, b, lineBytes);
  }

  // ------------------------------------------------------------------ an import before the next start

  /** The position after the last save, or zero if there is none. */
  function AfterLastSave(events: seq<Event>): (n: nat)
    ensures n <= |events| && (n > 0 ==> Saves(events[n - 1]))
    ensures forall i :: n <= i < |events| ==> !Saves(events[i])
  {
    if events == [] then 0
    else if Saves(events[|events| - 1]) then |events|
    else AfterLastSave(events[..|events| - 1])
  }

  lemma {:induction false} FileStays(s: State, events: seq<Event>, n: nat, lineBytes: Entry -> nat)
    requires n <= |events| && forall i :: n <= i < |events| ==> !Saves(events[i]) && !events[i].Import?
    ensures Run(s, events, lineBytes).file == Run(s, events[..n], lineBytes).file
  {
    if n == |events| {
      assert events[..n] == events;
    } else {
      var init := events[..|events| - 1];
      assert init[..n] == events[..n];
      FileStays(s, init, n, lineBytes);
    }
  }

  lemma SavedFileAgrees(s: State, events: seq<Event>, lineBytes: Entry -> nat)
    requires events != [] && Saves(events[|events| - 1])
    ensures var t := Run(s, events, lineBytes);
            t.file.Some? && Agree(t.file.value, t.values)
  {
    var e, t := events[|events| - 1], Run(s, events, lineBytes);
    SealedAgrees(t.values, e.secrets);
  }

  lemma AgreeIsSymmetric(a: Config, b: Config)
    ensures Agree(a, b) <==> Agree(b, a)
  {
  }

  /** An imported file is there at the next start exactly if no save came in between, or the last one wrote
      the imported settings: a save writes the settings of the running process, which the import left alone. */
  lemma ImportSurvivesIff(s: State, c: Config, events: seq<Event>, lineBytes: Entry -> nat)
    requires forall i :: 0 <= i < |events| ==> !events[i].Import?
    ensures var imported, n := Step(s, Import(c), lineBytes), AfterLastSave(events);
            var t := Run(imported, events, lineBytes);
            && t.file.Some?
            && (Agree(t.file.value, c) <==> n == 0 || Agree(Run(imported, events[..n], lineBytes).values, c))
            && (n == 0 ==> t.file.value == c)
  {
    var imported, n := Step(s, Import(c), lineBytes), AfterLastSave(events);
    FileStays(imported, events, n, lineBytes);
    if n == 0 {
      assert events[..n] == [];
    } else {
      var saved := Run(imported, events[..n], lineBytes);
      SavedFileAgrees(imported, events[..n], lineBytes);
      AgreeIsSymmetric(saved.file.value, saved.values);
      AgreeEither(saved.file.value, saved.values, c);
    }
  }

  lemma AgreeEither(a: Config, b: Config, c: Config)
    requires Agree(a, b)
    ensures Agree(a, c) <==> Agree(b, c)
  {
  }

  /** A save right after an import puts the old settings back into the file; it logs what it overwrote, and
      restoring that line brings the imported settings back on every field the log may hold. */
  lemma OverwrittenImportCanBeRestored(
    s: State, c: Config, secrets: Config, again: Config, fields: set<Field>, lineBytes: Entry -> nat)
    requires Inv(s, fields) && c.Keys == fields
    ensures var imported := Step(s, Import(c), lineBytes);
            var saved := Step(imported, Save(secrets), lineBytes);
            && Agree(saved.file.value, s.values)
            && match Logged(imported, Save(secrets), lineBytes)
               case None => Agree(s.values, c)
               case Some(line) =>
                 saved.log == Append(s.log, line, lineBytes)
                 && Agree(Step(saved, Restore(line, again), lineBytes).file.value, c)
  {
    var imported := Step(s, Import(c), lineBytes);
    var saved := Step(imported, Save(secrets), lineBytes);
    SealedAgrees(s.values, secrets);
    StepLogs(imported, Save(secrets), fields, lineBytes);
    OneSaveCanBeUndone(imported, secrets, again, fields, lineBytes);
  }

  lemma OneSaveCanBeUndone(s: State, secrets: Config, again: Config, fields: set<Field>, lineBytes: Entry -> nat)
    requires Inv(s, fields) && s.file.Some?
    ensures var t := Step(s, Save(secrets), lineBytes);
            match Logged(s, Save(secrets), lineBytes)
            case None => Agree(s.values, s.file.value)
            case Some(line) => Agree(Step(t, Restore(line, again), lineBytes).file.value, s.file.value)
  {
    var t := Step(s, Save(secrets), lineBytes);
    SealedAgrees(s.values, secrets);
    AgreeIsSymmetric(t.file.value, s.values);
    UndoLogged(s, Save(secrets), fields, lineBytes);
    if Logged(s, Save(secrets), lineBytes).Some? {
      var u := Step(t, Restore(Logged(s, Save(secrets), lineBytes).value, again), lineBytes);
      UndoDiff(s.file.value, t.file.value, t.values);
      SealedAgrees(u.values, again);
      AgreeIsTransitive(u.file.value, u.values, s.file.value);
    } else {
      AgreeIsTransitive(s.values, t.file.value, s.file.value);
    }
  }

  // ------------------------------------------------------------------ the lines a user is shown

  lemma {:induction false} RestoresInOrder(entries: seq<Entry>, secrets: Config)
    ensures Restores(entries, secrets) == RestoresOf(Shown(entries, |entries|), secrets)
  {
    if entries == [] {
    } else {
      var init, e := entries[..|entries| - 1], entries[|entries| - 1];
      RestoresInOrder(init, secrets);
      ShownOfOneMore(init, e);
      assert entries == init + [e];
      OneMoreRestore(e, Shown(init, |init|), secrets);
    }
  }

  lemma ShownOfOneMore(init: seq<Entry>, e: Entry)
    ensures Shown(init + [e], |init| + 1) == [e] + Shown(init, |init|)
  {
  }

  lemma OneMoreRestore(e: Entry, lines: seq<Entry>, secrets: Config)
    ensures RestoresOf([e] + lines, secrets) == [Restore(e, secrets)] + RestoresOf(lines, secrets)
  {
  }

  function RestoresOf(lines: seq<Entry>, secrets: Config): seq<Event> {
    seq(|lines|, i requires 0 <= i < |lines| => Restore(lines[i], secrets))
  }

  /** As long as a run logged no more lines than the log always keeps, the newest lines of the log are its
      own. */
  lemma ShownIsJournal(s: State, events: seq<Event>, fields: set<Field>, lineBytes: Entry -> nat)
    requires Inv(s, fields) && AllSameFields(events, fields)
    requires |Journal(s, events, lineBytes)| <= 200
    ensures var journal, log := Journal(s, events, lineBytes), Run(s, events, lineBytes).log;
            |journal| <= |log| && Shown(log, |journal|) == Shown(journal, |journal|)
  {
    var dropped := LogIsTailOfJournal(s, events, fields, lineBytes);
    var journal, log := Journal(s, events, lineBytes), Run(s, events, lineBytes).log;
    ShownOfTail(s.log, journal, log, dropped);
  }

  lemma ShownOfTail(first: seq<Entry>, last: seq<Entry>, log: seq<Entry>, dropped: nat)
    requires dropped <= |first| && log == (first + last)[dropped..]
    ensures |last| <= |log| && Shown(log, |last|) == Shown(last, |last|)
  {
    assert log == first[dropped..] + last;
  }

  /** From saved settings, a user who restores one after the other the newest lines the log shows, as many
      as a run logged, is back where the run began. */
  lemma RestoringShownLinesGoesBack(
    s: State, events: seq<Event>, fields: set<Field>, secrets: Config, lineBytes: Entry -> nat)
    requires Inv(s, fields) && AllSameFields(events, fields) && s.file.Some?
    requires forall i :: 0 <= i < |events| ==> !events[i].Import?
    requires Agree(Run(s, events, lineBytes).values, Run(s, events, lineBytes).file.GetOr(map[]))
    requires |Journal(s, events, lineBytes)| <= 200
    ensures var n, mid := |Journal(s, events, lineBytes)|, Run(s, events, lineBytes);
            n <= |mid.log| &&
            var t := Run(mid, RestoresOf(Shown(mid.log, n), secrets), lineBytes);
            t.file.Some? && Agree(t.file.value, s.file.value)
  {
    ShownIsJournal(s, events, fields, lineBytes);
    RestoresInOrder(Journal(s, events, lineBytes), secrets);
    RestoringGoesBack(s, events, fields, secrets, lineBytes);
  }

  /** Restoring the line a restore logged undoes that restore: the file is back where it was. */
  lemma RestoreCanBeUndone(
    s: State, entry: Entry, secrets: Config, again: Config, fields: set<Field>, lineBytes: Entry -> nat)
    requires Inv(s, fields) && s.file.Some?
    ensures var e := Restore(entry, secrets);
            var t := Step(s, e, lineBytes);
            match Logged(s, e, lineBytes)
            case None => Agree(t.file.value, s.file.value)
            case Some(line) => Agree(Step(t, Restore(line, again), lineBytes).file.value, s.file.value)
  {
    var e := Restore(entry, secrets);
    var t := Step(s, e, lineBytes);
    UndoLogged(s, e, fields, lineBytes);
    if Logged(s, e, lineBytes).Some? {
      var line := Logged(s, e, lineBytes).value;
      var u := Step(t, Restore(line, again), lineBytes);
      SealedAgrees(t.values, secrets);
      UndoDiff(s.file.value, t.file.value, t.values);
      SealedAgrees(u.values, again);
      AgreeIsTransitive(u.file.value, u.values, s.file.value);
    }
  }
}
