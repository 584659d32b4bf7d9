/** Saved settings and their undo log as values. */
module SettingsSpec {
  import opened Wrappers

  type Field = string

  /** A JSON value; `Null` also stands for a missing one, as dict.get returns None for it. */
  datatype Value = Null | Json(text: string)

  type Config = map<Field, Value>

  const MAX_HISTORY_ENTRIES := 200
  const TRIM_THRESHOLD_BYTES := 64 * 1024

  const EXCLUDED_FIELDS: set<Field> := {"proxy", "remote_access_token"}

  datatype Change = Change(before: Value, after: Value)

  type Entry = map<Field, Change>

  function GetOrNull(c: Config, k: Field): Value {
    if k in c then c[k] else Null
  }

  function Diff(before: Config, after: Config): Entry {
    map k | k in after && k !in EXCLUDED_FIELDS && GetOrNull(before, k) != after[k] ::
      Change(GetOrNull(before, k), after[k])
  }

  /** The settings with every field the entry changed put back. */
  function Undo(e: Entry, c: Config): Config {
    map k | k in c :: if k in e && k !in EXCLUDED_FIELDS then e[k].before else c[k]
  }

  /** The dict written to disk: the secrets are encrypted in it, and only they. */
  function Sealed(values: Config, secrets: Config): Config {
    map k | k in values :: if k in EXCLUDED_FIELDS && k in secrets then secrets[k] else values[k]
  }

  /** Equal on every field the log may hold. */
  ghost predicate Agree(a: Config, b: Config) {
    a.Keys == b.Keys && forall k :: k in a && k !in EXCLUDED_FIELDS ==> a[k] == b[k]
  }

  lemma UndoDiff(before: Config, after: Config, c: Config)
    requires before.Keys == after.Keys && Agree(c, after)
    ensures Agree(Undo(Diff(before, after), c), before)
  {
  }

  lemma UndoAgrees(e: Entry, a: Config, b: Config)
    requires Agree(a, b)
    ensures Agree(Undo(e, a), Undo(e, b))
  {
  }

  /** Undoes entries from the newest to the oldest. */
  function Rewind(entries: seq<Entry>, c: Config): Config {
    if entries == [] then c
    else Rewind(entries[..|entries| - 1], Undo(entries[|entries| - 1], c))
  }

  lemma {:induction false} RewindAgrees(entries: seq<Entry>, a: Config, b: Config)
    requires Agree(a, b)
    ensures Agree(Rewind(entries, a), Rewind(entries, b))
  {
    if entries == [] {
    } else {
      var e := entries[|entries| - 1];
      UndoAgrees(e, a, b);
      RewindAgrees(entries[..|entries| - 1], Undo(e, a), Undo(e, b));
    }
  }

  lemma {:induction false} RewindSplits(first: seq<Entry>, last: seq<Entry>, c: Config)
    ensures Rewind(first + last, c) == Rewind(first, Rewind(last, c))
  {
    if last == [] {
      assert first + last == first;
    } else {
      var all := first + last;
      assert all[|all| - 1] == last[|last| - 1] && all[..|all| - 1] == first + last[..|last| - 1];
      RewindSplits(first, last[..|last| - 1], Undo(last[|last| - 1], c));
    }
  }

  // ------------------------------------------------------------------ the log file

  function TotalBytes(log: seq<Entry>, lineBytes: Entry -> nat): nat {
    if log == [] then 0 else TotalBytes(log[..|log| - 1], lineBytes) + lineBytes(log[|log| - 1])
  }

  function Newest(log: seq<Entry>, n: nat): seq<Entry> {
    if |log| <= n then log else log[|log| - n..]
  }

  /** The newest n lines, the most recent first. */
  function Shown(log: seq<Entry>, n: nat): seq<Entry>
    requires n <= |log|
  {
    seq(n, i requires 0 <= i < n => log[|log| - 1 - i])
  }

  /** One line appended, and the log cut to its newest lines once the file is large. */
  function Append(log: seq<Entry>, e: Entry, lineBytes: Entry -> nat): seq<Entry> {
    if e == map[] then log else
      var longer := log + [e];
      if TotalBytes(longer, lineBytes) > TRIM_THRESHOLD_BYTES then Newest(longer, MAX_HISTORY_ENTRIES) else longer
  }

  // ------------------------------------------------------------------ the process

  /** The Settings object, config.json, what this process last wrote there, and history.jsonl. */
  datatype State = State(values: Config, file: Option<Config>, lastSaved: Option<Config>, log: seq<Entry>)

  datatype Event =
    | Edit(values: Config)
    | Save(secrets: Config)
    | Restore(entry: Entry, secrets: Config)
    | Import(config: Config)
    | Reload(values: Config)

  /** What the next save diffs against: memory if there is any, else the file. */
  function DiffBase(s: State): Option<Config> {
    if s.lastSaved.Some? then s.lastSaved else s.file
  }

  function SaveState(s: State, secrets: Config, lineBytes: Entry -> nat): State {
    var data := Sealed(s.values, secrets);
    State(s.values, Some(data), Some(data),
          if DiffBase(s).Some? then Append(s.log, Diff(DiffBase(s).value, data), lineBytes) else s.log)
  }

  function Step(s: State, e: Event, lineBytes: Entry -> nat): State {
    match e
    case Edit(values) => s.(values := values)
    case Save(secrets) => SaveState(s, secrets, lineBytes)
    case Restore(entry, secrets) => SaveState(s.(values := Undo(entry, s.values)), secrets, lineBytes)
    case Import(config) => s.(lastSaved := None, file := Some(config))
    case Reload(values) => s.(lastSaved := None, values := values)
  }

  function Run(s: State, events: seq<Event>, lineBytes: Entry -> nat): State {
    if events == [] then s
    else Step(Run(s, events[..|events| - 1], lineBytes), events[|events| - 1], lineBytes)
  }
}
