/** The history and settings store. Each store is one JSON file; here a file is the value
    it holds, if it exists and parses, and reading and writing it are functions on that
    value. */
module Storage {

  import opened Optional

  /** One finished session, as `saveResult` records it (accuracy in tenths of a percent). */
  datatype HistoryEntry = HistoryEntry(wpm: int, accuracyTenths: int, duration: int, date: string)

  datatype Settings = Settings(lastDuration: int)

  /** A JSON file as a read finds it: absent, present but not parseable, or holding a value. */
  datatype StoredFile<T> = Missing | Unparseable | Json(value: T)

  /** `readJSON`: the parsed contents, or the fallback when the file is absent or does not
      parse. */
  function ReadJson<T>(file: StoredFile<T>, fallback: T): (r: T)
    ensures file.Json? ==> r == file.value
    ensures !file.Json? ==> r == fallback
  {
    match file
    case Json(v) => v
    case _ => fallback
  }

  function GetHistory(file: StoredFile<seq<HistoryEntry>>): seq<HistoryEntry>
  {
    ReadJson(file, [])
  }

  function LoadSettings(file: StoredFile<Settings>): Settings
  {
    ReadJson(file, Settings(30))
  }

  /** `saveSettings`: the file afterwards holds exactly these settings. */
  function SaveSettings(settings: Settings): StoredFile<Settings>
  {
    Json(settings)
  }

  /** Without a readable file the history is empty and the last duration is 30 seconds;
      settings once saved are what the next load returns. */
  lemma StoreDefaults(history: StoredFile<seq<HistoryEntry>>, settings: StoredFile<Settings>, saved: Settings)
    ensures !history.Json? ==> GetHistory(history) == []
    ensures !settings.Json? ==> LoadSettings(settings) == Settings(30)
    ensures LoadSettings(SaveSettings(saved)) == saved
  {
  }

  /** `saveResult`: load the history, push the entry, write the array back. */
  method SaveResult(file: StoredFile<seq<HistoryEntry>>, entry: HistoryEntry)
    returns (written: StoredFile<seq<HistoryEntry>>)
    ensures written.Json?
    ensures |written.value| == |GetHistory(file)| + 1
    ensures written.value[..|GetHistory(file)|] == GetHistory(file)
    ensures written.value[|GetHistory(file)|] == entry
  {
    var history := GetHistory(file);
    history := history + [entry];
    written := Json(history);
  }

  /** `history.filter((e) => e.duration === duration)` */
  function Matching(history: seq<HistoryEntry>, duration: int): (r: seq<HistoryEntry>)
    ensures forall i :: 0 <= i < |r| ==> r[i].duration == duration && r[i] in history
    ensures forall i :: 0 <= i < |history| && history[i].duration == duration ==> history[i] in r
  {
    if history == [] then []
    else
      var rest := Matching(history[..|history| - 1], duration);
      var e := history[|history| - 1];
      assert forall i :: 0 <= i < |history| - 1 ==> history[i] == history[..|history| - 1][i];
      if e.duration == duration then rest + [e] else rest
  }

  /** `Math.max(...entries.map((e) => e.wpm))` on a non-empty list. */
  function MaxWpm(entries: seq<HistoryEntry>): (m: int)
    requires entries != []
    ensures forall i :: 0 <= i < |entries| ==> entries[i].wpm <= m
    ensures exists i :: 0 <= i < |entries| && entries[i].wpm == m
  {
    if |entries| == 1 then entries[0].wpm
    else
      var rest := MaxWpm(entries[..|entries| - 1]);
      var last := entries[|entries| - 1].wpm;
      assert forall i :: 0 <= i < |entries| - 1 ==> entries[i] == entries[..|entries| - 1][i];
      if rest >= last then rest else last
  }

  /** The best WPM over the entries of one duration, or none when there is no such entry. */
  function PersonalBest(history: seq<HistoryEntry>, duration: int): (r: Option<int>)
    ensures r.None? <==> forall i :: 0 <= i < |history| ==> history[i].duration != duration
    ensures r.Some? ==>
      && (forall i :: 0 <= i < |history| && history[i].duration == duration ==> history[i].wpm <= r.value)
      && (exists i :: 0 <= i < |history| && history[i].duration == duration && history[i].wpm == r.value)
  {
    var matching := Matching(history, duration);
    if |matching| == 0 then None
    else
      MaxIsAnEntry(history, duration);
      Some(MaxWpm(matching))
  }

  /** The maximum over the matching entries is the WPM of an entry of the history. */
  lemma MaxIsAnEntry(history: seq<HistoryEntry>, duration: int)
    requires Matching(history, duration) != []
    ensures exists i :: 0 <= i < |history| && history[i].duration == duration &&
                        history[i].wpm == MaxWpm(Matching(history, duration))
  {
    var matching := Matching(history, duration);
    var j :| 0 <= j < |matching| && matching[j].wpm == MaxWpm(matching);
    assert matching[j] in history;
    var i :| 0 <= i < |history| && history[i] == matching[j];
  }

  /** `getPersonalBest`: the personal best over the stored history; none without a
      readable history file. */
  function GetPersonalBest(file: StoredFile<seq<HistoryEntry>>, duration: int): (r: Option<int>)
    ensures !file.Json? ==> r == None
  {
    PersonalBest(GetHistory(file), duration)
  }

  lemma {:induction false} MatchingConcat(a: seq<HistoryEntry>, b: seq<HistoryEntry>, duration: int)
    ensures Matching(a + b, duration) == Matching(a, duration) + Matching(b, duration)
    decreases |b|
  {
    if b == [] {
      assert a + b == a;
    } else {
      assert (a + b)[..|a + b| - 1] == a + b[..|b| - 1];
      assert (a + b)[|a + b| - 1] == b[|b| - 1];
      MatchingConcat(a, b[..|b| - 1], duration);
    }
  }

  /** Entries of other durations, wherever they stand in the history, never change the
      personal best of a duration. */
  lemma OtherDurationsIgnored(a: seq<HistoryEntry>, e: HistoryEntry, b: seq<HistoryEntry>, duration: int)
    requires e.duration != duration
    ensures PersonalBest(a + [e] + b, duration) == PersonalBest(a + b, duration)
  {
    MatchingConcat(a + [e], b, duration);
    MatchingConcat(a, [e], duration);
    MatchingConcat(a, b, duration);
    assert Matching([e], duration) == [] by {
      assert [e][..0] == [];
    }
  }

  /** Saving an entry raises the personal best of its own duration to at least its WPM and
      leaves every other duration's personal best as it was. */
  lemma PersonalBestAfterSave(history: seq<HistoryEntry>, entry: HistoryEntry, duration: int)
    ensures entry.duration != duration ==>
      PersonalBest(history + [entry], duration) == PersonalBest(history, duration)
    ensures entry.duration == duration ==>
      PersonalBest(history + [entry], duration) ==
        match PersonalBest(history, duration)
        case None => Some(entry.wpm)
        case Some(best) => Some(if best >= entry.wpm then best else entry.wpm)
  {
    assert (history + [entry])[..|history|] == history;
    var m := Matching(history, duration);
    if entry.duration == duration && m != [] {
      assert (m + [entry])[..|m|] == m;
    }
  }
}
