/** Settings, config.json and the undo log, updated in place. */
module SettingsHistory {
  import opened Wrappers
  import opened SettingsSpec

  class SettingsFiles {
    /** The live Settings object. */
    var values: Config
    /** config.json, if it was ever written. */
    var config: Option<Config>
    /** What this process last wrote to config.json. */
    var lastSavedConfig: Option<Config>
    /** The lines of history.jsonl. */
    var history: seq<Entry>
    const lineBytes: Entry -> nat

    ghost function View(): State
      reads this
    {
      State(values, config, lastSavedConfig, history)
    }

    constructor (values: Config, config: Option<Config>, history: seq<Entry>, lineBytes: Entry -> nat)
      ensures View() == State(values, config, None, history) && this.lineBytes == lineBytes
    {
      this.values, this.config, this.history, this.lineBytes := values, config, history, lineBytes;
      lastSavedConfig := None;
    }

    method ForgetSavedConfig()
      modifies this`lastSavedConfig
      ensures lastSavedConfig == None
    {
      lastSavedConfig := None;
    }

    method Import(data: Config)
      modifies this
      ensures View() == Step(old(View()), Event.Import(data), lineBytes)
    {
      ForgetSavedConfig();
      config := Some(data);
    }

    method Save(secrets: Config)
      modifies this
      ensures View() == Step(old(View()), Event.Save(secrets), lineBytes)
    {
      var oldData := if lastSavedConfig.Some? then lastSavedConfig else config;
      var newData := Sealed(values, secrets);
      config := Some(newData);
      lastSavedConfig := Some(newData);
      if oldData.Some? {
        RecordSettingsChange(oldData.value, newData);
      }
    }

    /** Collects the changed fields one by one and appends them as one line, if there are any. */
    method RecordSettingsChange(oldData: Config, newData: Config)
      modifies this`history
      ensures history == Append(old(history), Diff(oldData, newData), lineBytes)
    {
      var changes: Entry := map[];
      var todo := newData.Keys;
      while todo != {}
        invariant todo <= newData.Keys
        invariant changes == map k | k in Diff(oldData, newData) && k !in todo :: Diff(oldData, newData)[k]
      {
        var k :| k in todo;
        todo := todo - {k};
        if k in EXCLUDED_FIELDS {
          continue;
        }
        var before := GetOrNull(oldData, k);
        if before != newData[k] {
          changes := changes[k := Change(before, newData[k])];
        }
      }
      assert changes == Diff(oldData, newData);
      if changes == map[] {
        return;
      }
      history := history + [changes];
      if TotalBytes(history, lineBytes) > TRIM_THRESHOLD_BYTES {
        TrimHistory();
      }
    }

    method TrimHistory()
      modifies this`history
      ensures history == Newest(old(history), MAX_HISTORY_ENTRIES)
    {
      if |history| <= MAX_HISTORY_ENTRIES {
        return;
      }
      history := history[|history| - MAX_HISTORY_ENTRIES..];
    }

    /** Up to `limit` lines, the most recent first. */
    method ReadSettingsHistory(limit: nat) returns (entries: seq<Entry>)
      ensures entries == Shown(history, Min(limit, |history|))
    {
      entries := [];
      for i := 0 to |history|
        invariant |entries| == i && forall j :: 0 <= j < i ==> entries[j] == history[i - 1 - j]
      {
        entries := [history[i]] + entries;
      }
      entries := entries[..Min(limit, |entries|)];
    }

    /** Sets each changed field back on the live settings, then saves. */
    method RestoreSettingsSnapshot(entry: Entry, secrets: Config)
      modifies this
      ensures View() == Step(old(View()), Event.Restore(entry, secrets), lineBytes)
    {
      var todo := entry.Keys;
      while todo != {}
        invariant todo <= entry.Keys
        invariant values == Undo(map k | k in entry && k !in todo :: entry[k], old(values))
        invariant config == old(config) && lastSavedConfig == old(lastSavedConfig) && history == old(history)
      {
        var k :| k in todo;
        todo := todo - {k};
        if k in values && k !in EXCLUDED_FIELDS {
          values := values[k := entry[k].before];
        }
      }
      assert (map k | k in entry && k !in todo :: entry[k]) == entry;
      Save(secrets);
    }
  }
}
