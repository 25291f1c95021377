/** The persistence engine of src/storage.ts. A store keeps its state in
    memory and on three files: the data file (the snapshot), the update file
    (a snapshot being staged) and the journal (one serialized operation per
    line, appended since the snapshot). The file system is an abstract
    `Disk`; file contents are already parsed. */
module Storage {
  import opened Wrappers
  import opened Serializable

  /** A journal line as `JSON.parse` sees it: a JSON value, or text that does
      not parse (a line torn by a crash in the middle of an append). */
  datatype Line = Parsed(json: Value) | Garbled

  /** A JSON file: its parsed content, or text that does not parse (a file
      torn by a crash in the middle of a write). */
  datatype Snapshot<S> = Readable(state: S) | Unreadable

  datatype FileName = DataFile | UpdateFile | JournalFile

  /** The three files of a store; None is a missing file, and `Some([])` an
      empty journal file. */
  datatype Disk<S> = Disk(data: Option<Snapshot<S>>, update: Option<Snapshot<S>>, journal: Option<seq<Line>>)
  {
    /** The disk after the named JSON file has been (over)written. */
    function Written(name: FileName, content: Snapshot<S>): Disk<S>
      requires name != JournalFile
    {
      if name == DataFile then this.(data := Some(content)) else this.(update := Some(content))
    }

    /** The disk after the named file has been deleted, if it existed. */
    function Deleted(name: FileName): Disk<S> {
      match name
      case DataFile => this.(data := None)
      case UpdateFile => this.(update := None)
      case JournalFile => this.(journal := None)
    }
  }

  /** The `journal` option: false or absent, true (1000 lines), or an explicit line limit. */
  datatype JournalSetting = Off | On | MaxLines(maxLines: nat)

  /** The lines of a journal file; a missing file has none. */
  function JournalContent(journal: Option<seq<Line>>): seq<Line> {
    if journal.Some? then journal.value else []
  }

  /** `if (!file)` in `readJournalFileIfExistsSync`: a missing or empty journal file counts as no journal. */
  predicate JournalPresent(journal: Option<seq<Line>>) {
    journal.Some? && journal.value != []
  }

  /** `deserializeOperation` on one journal line; a line that does not parse
      or does not validate gives None. */
  function LineOp<O>(line: Line, deserialize: Value -> Result<O, string>): Option<O> {
    match line
    case Garbled => None
    case Parsed(json) => deserialize(json).ToOption()
  }

  /** The patch read from a journal: the operations of its longest prefix of
      lines that all deserialize; everything from the first bad line on is dropped. */
  function ParseJournal<O>(lines: seq<Line>, deserialize: Value -> Result<O, string>): (patch: seq<O>)
    ensures |patch| <= |lines|
    ensures forall i :: 0 <= i < |patch| ==> LineOp(lines[i], deserialize) == Some(patch[i])
    ensures |patch| < |lines| ==> LineOp(lines[|patch|], deserialize).None?
  {
    if lines == [] then []
    else
      match LineOp(lines[0], deserialize)
      case None => []
      case Some(op) => [op] + ParseJournal(lines[1..], deserialize)
  }

  /** `applyPatch`: the left fold of `applyOperation` over a patch; the first
      operation that throws ends it with that error. */
  function ApplyAll<S, O>(data: S, patch: seq<O>, apply: (S, O) -> Result<S, string>): Result<S, string>
    decreases |patch|
  {
    if patch == [] then Success(data)
    else
      match apply(data, patch[0])
      case Failure(e) => Failure(e)
      case Success(next) => ApplyAll(next, patch[1..], apply)
  }

  /** The state `loadFilesSync` recovers from a disk: the update file when the
      data file is unreadable; the default when neither is; otherwise the data
      file with the journal's patch applied. */
  function Recover<S, O>(disk: Disk<S>, defaultValue: S, deserialize: Value -> Result<O, string>,
                         apply: (S, O) -> Result<S, string>): Result<S, string>
  {
    if !(disk.data.Some? && disk.data.value.Readable?) then
      if disk.update.Some? && disk.update.value.Readable? then Success(disk.update.value.state)
      else Success(defaultValue)
    else if JournalPresent(disk.journal) then
      ApplyAll(disk.data.value.state, ParseJournal(disk.journal.value, deserialize), apply)
    else
      Success(disk.data.value.state)
  }

  /** The disk every successful recovery and every snapshot rotation leaves:
      the data file holds the state and the other two files are gone. */
  function Settled<S>(state: S): Disk<S> {
    Disk(Some(Readable(state)), None, None)
  }

  // ---------------------------------------------------------------------------
  // Properties of the recovery functions

  /** Applying a patch with one more operation applies that operation to the
      result of the shorter patch. */
  lemma {:induction false} ApplyAllSnoc<S, O>(data: S, patch: seq<O>, op: O, apply: (S, O) -> Result<S, string>)
    ensures ApplyAll(data, patch + [op], apply) ==
      match ApplyAll(data, patch, apply)
      case Failure(e) => Failure(e)
      case Success(d) => apply(d, op)
    decreases |patch|
  {
    if patch == [] {
      assert [] + [op] == [op];
    } else {
      assert (patch + [op])[1..] == patch[1..] + [op];
      match apply(data, patch[0])
      case Failure(e) =>
      case Success(next) => ApplyAllSnoc(next, patch[1..], op, apply);
    }
  }

  /** Appending a line to a journal whose lines all deserialize adds that
      line's operation to the patch when it deserializes, and nothing when it
      does not (a torn append). */
  lemma {:induction false} ParseJournalSnoc<O>(lines: seq<Line>, line: Line, deserialize: Value -> Result<O, string>)
    requires |ParseJournal(lines, deserialize)| == |lines|
    ensures ParseJournal(lines + [line], deserialize) ==
      match LineOp(line, deserialize)
      case None => ParseJournal(lines, deserialize)
      case Some(op) => ParseJournal(lines, deserialize) + [op]
    decreases |lines|
  {
    if lines == [] {
      assert [] + [line] == [line];
    } else {
      var tail := lines[1..];
      var first := LineOp(lines[0], deserialize);
      assert first.Some?;
      assert (lines + [line])[0] == lines[0];
      assert (lines + [line])[1..] == tail + [line];
      assert ParseJournal(lines, deserialize) == [first.value] + ParseJournal(tail, deserialize);
      assert ParseJournal(lines + [line], deserialize) == [first.value] + ParseJournal(tail + [line], deserialize);
      ParseJournalSnoc(tail, line, deserialize);
      if LineOp(line, deserialize).Some? {
        var op := LineOp(line, deserialize).value;
        assert [first.value] + (ParseJournal(tail, deserialize) + [op]) == ([first.value] + ParseJournal(tail, deserialize)) + [op];
      }
    }
  }

  /** A journal of which some line does not deserialize gives the same patch
      whatever follows it. */
  lemma {:induction false} ParseJournalStopsAtBadLine<O>(lines: seq<Line>, rest: seq<Line>, deserialize: Value -> Result<O, string>)
    requires |ParseJournal(lines, deserialize)| < |lines|
    ensures ParseJournal(lines + rest, deserialize) == ParseJournal(lines, deserialize)
    decreases |lines|
  {
    assert (lines + rest)[0] == lines[0];
    if LineOp(lines[0], deserialize).Some? {
      assert (lines + rest)[1..] == lines[1..] + rest;
      ParseJournalStopsAtBadLine(lines[1..], rest, deserialize);
    }
  }

  /** With every line deserializing, the patch has one operation per line. */
  lemma {:induction false} ParseJournalAllGood<O>(lines: seq<Line>, deserialize: Value -> Result<O, string>)
    requires forall i | 0 <= i < |lines| :: LineOp(lines[i], deserialize).Some?
    ensures |ParseJournal(lines, deserialize)| == |lines|
    decreases |lines|
  {
    if lines != [] {
      ParseJournalAllGood(lines[1..], deserialize);
    }
  }

  /** Parsing from the `i`-th line on: its operation, then the rest, or
      nothing once that line does not deserialize. */
  lemma ParseJournalFrom<O>(lines: seq<Line>, i: nat, deserialize: Value -> Result<O, string>)
    requires i < |lines|
    ensures LineOp(lines[i], deserialize).None? ==> ParseJournal(lines[i..], deserialize) == []
    ensures LineOp(lines[i], deserialize).Some? ==>
      ParseJournal(lines[i..], deserialize) == [LineOp(lines[i], deserialize).value] + ParseJournal(lines[i + 1..], deserialize)
  {
    assert lines[i..][0] == lines[i];
    assert lines[i..][1..] == lines[i + 1..];
  }

  /** Recovery is idempotent: recovering from the disk a recovery leaves gives the same state. */
  lemma RecoverSettled<S, O>(disk: Disk<S>, defaultValue: S, deserialize: Value -> Result<O, string>,
                             apply: (S, O) -> Result<S, string>)
    requires Recover(disk, defaultValue, deserialize, apply).Success?
    ensures Recover(Settled(Recover(disk, defaultValue, deserialize, apply).value), defaultValue, deserialize, apply)
         == Recover(disk, defaultValue, deserialize, apply)
  {
  }

  // ---------------------------------------------------------------------------
  // The file system

  /** The directory of a store. Every step records in `CrashPoints` the disk a
      crash at that moment would leave: a write in progress leaves its file
      unreadable, an append in progress leaves a garbled last line; deletes
      and renames are atomic. */
  class FileSystem<S> {
    var disk: Disk<S>
    ghost var CrashPoints: seq<Disk<S>>

    constructor (disk: Disk<S>)
      ensures this.disk == disk && CrashPoints == []
    {
      this.disk := disk;
      CrashPoints := [];
    }

    /** `writeFile` of a JSON file. */
    method WriteFile(name: FileName, state: S)
      requires name != JournalFile
      modifies this
      ensures disk == old(disk).Written(name, Readable(state))
      ensures CrashPoints == old(CrashPoints) + [old(disk).Written(name, Unreadable), disk]
    {
      CrashPoints := CrashPoints + [disk.Written(name, Unreadable)];
      disk := disk.Written(name, Readable(state));
      CrashPoints := CrashPoints + [disk];
    }

    /** `deleteFileIfExists`: unlinking a missing file is not an error. */
    method DeleteFileIfExists(name: FileName)
      modifies this
      ensures disk == old(disk).Deleted(name)
      ensures CrashPoints == old(CrashPoints) + [disk]
    {
      disk := disk.Deleted(name);
      CrashPoints := CrashPoints + [disk];
    }

    /** `rename(updateFilePath, dataFilePath)`. */
    method RenameUpdateToData()
      requires disk.update.Some?
      modifies this
      ensures disk == old(disk).(data := old(disk).update, update := None)
      ensures CrashPoints == old(CrashPoints) + [disk]
    {
      disk := disk.(data := disk.update, update := None);
      CrashPoints := CrashPoints + [disk];
    }

    /** `open(journalFilePath, 'a')`: creates an empty journal if there is none. */
    method OpenJournal()
      modifies this
      ensures disk == old(disk).(journal := Some(JournalContent(old(disk).journal)))
      ensures CrashPoints == old(CrashPoints) + [disk]
    {
      disk := disk.(journal := Some(JournalContent(disk.journal)));
      CrashPoints := CrashPoints + [disk];
    }

    /** A write through the journal's handle: one line appended. */
    method AppendLine(line: Line)
      requires disk.journal.Some?
      modifies this
      ensures disk == old(disk).(journal := Some(old(disk).journal.value + [line]))
      ensures CrashPoints == old(CrashPoints) + [old(disk).(journal := Some(old(disk).journal.value + [Garbled])), disk]
    {
      CrashPoints := CrashPoints + [disk.(journal := Some(disk.journal.value + [Garbled]))];
      disk := disk.(journal := Some(disk.journal.value + [line]));
      CrashPoints := CrashPoints + [disk];
    }
  }

  // ---------------------------------------------------------------------------
  // The store

  /** `Storage<T, O>`: the state `data` of type `S`, operations of type `O`
      and the three hooks a concrete database supplies. */
  class Store<S, O(!new)> {
    var data: S
    var journalLines: nat
    /** `journalFileHandle !== null`. */
    var journalOpen: bool

    const fs: FileSystem<S>
    const defaultValue: S
    const useJournal: bool
    const journalMaxLines: nat
    /** `applyOperation`; a thrown error is a Failure. */
    const apply: (S, O) -> Result<S, string>
    /** `serializeOperation`, up to `JSON.stringify`. */
    const serialize: O -> Value
    /** `deserializeOperation`, after `JSON.parse`. */
    const deserialize: Value -> Result<O, string>

    /** What `loadFilesSync` would recover from `disk`. */
    ghost function Recovered(disk: Disk<S>): Result<S, string> {
      Recover(disk, defaultValue, deserialize, apply)
    }

    /** Every operation reads back from its own journal line. */
    ghost predicate RoundTrips() {
      forall op: O :: deserialize(serialize(op)) == Success(op)
    }

    /** The settings fixed by the constructor. */
    ghost predicate Wired()
      reads this
    {
      && (useJournal ==> RoundTrips())
      && (!useJournal ==> journalMaxLines == 0)
    }

    /** Between operations: the data file holds a snapshot, there is no update
        file, the journal holds `journalLines` good lines (none without
        journaling, fewer than the limit), and recovering from the disk gives
        exactly the state in memory. */
    ghost predicate Valid()
      reads this, fs
    {
      && Wired()
      && fs.disk.data.Some? && fs.disk.data.value.Readable?
      && fs.disk.update.None?
      && (journalOpen ==> fs.disk.journal.Some?)
      && (!useJournal ==> fs.disk.journal.None? && !journalOpen)
      && |JournalContent(fs.disk.journal)| == journalLines
      && (forall i | 0 <= i < journalLines :: LineOp(JournalContent(fs.disk.journal)[i], deserialize).Some?)
      && (journalLines == 0 || journalLines < journalMaxLines)
      && Recovered(fs.disk) == Success(data)
    }

    /** A crash at any step since the `from`-th recovers `before` or `after`. */
    ghost predicate CrashSafe(from: nat, before: S, after: S)
      reads this, fs
    {
      && from <= |fs.CrashPoints|
      && forall i | from <= i < |fs.CrashPoints| ::
           Recovered(fs.CrashPoints[i]) == Success(before) || Recovered(fs.CrashPoints[i]) == Success(after)
    }

    /** The constructor's settings: a deep clone of the default value as the
        state, and the journal options (`true` gives a limit of 1000, an
        absent or false option no journal, which is a limit of 0). Loading the files is `LoadFiles`. */
    constructor (fs: FileSystem<S>, defaultValue: S, journal: JournalSetting,
                 apply: (S, O) -> Result<S, string>, serialize: O -> Value,
                 deserialize: Value -> Result<O, string>)
      requires !journal.Off? ==> forall op: O :: deserialize(serialize(op)) == Success(op)
      ensures Wired()
      ensures this.fs == fs && this.defaultValue == defaultValue && data == defaultValue
      ensures this.apply == apply && this.serialize == serialize && this.deserialize == deserialize
      ensures useJournal == !journal.Off?
      ensures journalMaxLines == match journal case Off => 0 case On => 1000 case MaxLines(n) => n
      ensures journalLines == 0 && !journalOpen
    {
      this.fs := fs;
      this.defaultValue := defaultValue;
      this.apply := apply;
      this.serialize := serialize;
      this.deserialize := deserialize;
      useJournal := !journal.Off?;
      journalMaxLines := match journal case Off => 0 case On => 1000 case MaxLines(n) => n;
      data := defaultValue;
      journalLines := 0;
      journalOpen := false;
    }

    /** `readJournalFileIfExistsSync`: None for a missing or empty journal,
        otherwise the operations of its lines up to the first that does not
        deserialize. */
    method ReadJournalFile() returns (patch: Option<seq<O>>)
      ensures patch.None? <==> !JournalPresent(fs.disk.journal)
      ensures patch.Some? ==> patch.value == ParseJournal(fs.disk.journal.value, deserialize)
    {
      var file := fs.disk.journal;
      if !JournalPresent(file) {
        return None;
      }
      var lines := file.value;
      var ops: seq<O> := [];
      var i := 0;
      while i < |lines|
        invariant 0 <= i <= |lines|
        invariant ops + ParseJournal(lines[i..], deserialize) == ParseJournal(lines, deserialize)
      {
        var op := LineOp(lines[i], deserialize);
        ParseJournalFrom(lines, i, deserialize);
        if op.None? {
          break;
        }
        ops := ops + [op.value];
        i := i + 1;
      }
      assert i == |lines| ==> lines[i..] == [];
      return Some(ops);
    }

    /** `applyPatch`. */
    method ApplyPatch(data: S, patch: seq<O>) returns (result: Result<S, string>)
      ensures result == ApplyAll(data, patch, apply)
    {
      var state := data;
      for i := 0 to |patch|
        invariant ApplyAll(state, patch[i..], apply) == ApplyAll(data, patch, apply)
      {
        assert patch[i..][1..] == patch[i + 1..];
        var next := apply(state, patch[i]);
        if next.Failure? {
          return Failure(next.error);
        }
        state := next.value;
      }
      assert patch[|patch|..] == [];
      return Success(state);
    }

    /** `loadFilesSync`: recovers the state from the files and leaves only the
        data file, holding it. A crash at any step of the way recovers the same
        state again. When replaying the journal throws, no file is touched. */
    method LoadFiles() returns (outcome: Outcome<string>)
      requires Wired() && data == defaultValue && journalLines == 0 && !journalOpen
      modifies this, fs
      ensures outcome.Pass? <==> Recovered(old(fs.disk)).Success?
      ensures outcome.Pass? ==> Valid() && data == Recovered(old(fs.disk)).value && fs.disk == Settled(data)
      ensures outcome.Fail? ==> outcome.error == Recovered(old(fs.disk)).error && fs.disk == old(fs.disk)
      ensures Recovered(old(fs.disk)).Success? ==>
        CrashSafe(old(|fs.CrashPoints|), Recovered(old(fs.disk)).value, Recovered(old(fs.disk)).value)
      ensures journalLines == 0 && !journalOpen
    {
      var dataFile := fs.disk.data;
      if !(dataFile.Some? && dataFile.value.Readable?) {
        var updateFile := fs.disk.update;
        if updateFile.Some? && updateFile.value.Readable? {
          PromoteUpdateFile();
          data := updateFile.value.state;
        } else {
          StartAfresh();
        }
        return Pass;
      }
      var journalFile := ReadJournalFile();
      if journalFile.Some? {
        var patched := ApplyPatch(dataFile.value.state, journalFile.value);
        if patched.Failure? {
          return Fail(patched.error);
        }
        SwapInSnapshot(patched.value);
        data := patched.value;
        return Pass;
      }
      DropLeftovers();
      data := dataFile.value.state;
      return Pass;
    }

    /** `loadFilesSync` without a readable data file but with a readable
        update file: the update file becomes the data file. */
    method PromoteUpdateFile()
      requires !(fs.disk.data.Some? && fs.disk.data.value.Readable?)
      requires fs.disk.update.Some? && fs.disk.update.value.Readable?
      modifies fs
      ensures fs.disk == Settled(old(fs.disk).update.value.state)
      ensures CrashSafe(old(|fs.CrashPoints|), old(fs.disk).update.value.state, old(fs.disk).update.value.state)
    {
      ghost var start := |fs.CrashPoints|;
      ghost var r := fs.disk.update.value.state;
      fs.DeleteFileIfExists(DataFile);
      fs.DeleteFileIfExists(JournalFile);
      assert CrashSafe(start, r, r);
      fs.RenameUpdateToData();
      fs.DeleteFileIfExists(UpdateFile);
      assert CrashSafe(start, r, r);
    }

    /** `loadFilesSync` with neither a readable data file nor a readable
        update file: delete whatever is left and write the default value. */
    method StartAfresh()
      requires !(fs.disk.data.Some? && fs.disk.data.value.Readable?)
      requires !(fs.disk.update.Some? && fs.disk.update.value.Readable?)
      modifies fs
      ensures fs.disk == Settled(defaultValue)
      ensures CrashSafe(old(|fs.CrashPoints|), defaultValue, defaultValue)
    {
      ghost var start := |fs.CrashPoints|;
      fs.DeleteFileIfExists(DataFile);
      fs.DeleteFileIfExists(UpdateFile);
      assert CrashSafe(start, defaultValue, defaultValue);
      fs.DeleteFileIfExists(JournalFile);
      fs.WriteFile(DataFile, defaultValue);
      assert CrashSafe(start, defaultValue, defaultValue);
    }

    /** `loadFilesSync` with a readable data file and no journal to replay:
        a leftover update file and an empty journal are deleted. */
    method DropLeftovers()
      requires fs.disk.data.Some? && fs.disk.data.value.Readable?
      requires !JournalPresent(fs.disk.journal)
      modifies fs
      ensures fs.disk == Settled(old(fs.disk).data.value.state)
      ensures CrashSafe(old(|fs.CrashPoints|), old(fs.disk).data.value.state, old(fs.disk).data.value.state)
    {
      ghost var start := |fs.CrashPoints|;
      ghost var r := fs.disk.data.value.state;
      fs.DeleteFileIfExists(UpdateFile);
      fs.DeleteFileIfExists(JournalFile);
      assert CrashSafe(start, r, r);
    }

    /** The four steps `loadFilesSync` and `commitJournal` share: write the
        state to the update file, delete the data file and the journal, and
        rename the update file to the data file. A crash at any of them
        recovers `state`. */
    method SwapInSnapshot(state: S)
      requires fs.disk.data.Some? && fs.disk.data.value.Readable?
      requires Recovered(fs.disk) == Success(state)
      modifies fs
      ensures fs.disk == Settled(state)
      ensures old(fs.CrashPoints) <= fs.CrashPoints
      ensures CrashSafe(old(|fs.CrashPoints|), state, state)
    {
      ghost var start := |fs.CrashPoints|;
      fs.WriteFile(UpdateFile, state);
      assert CrashSafe(start, state, state);
      fs.DeleteFileIfExists(DataFile);
      assert CrashSafe(start, state, state);
      fs.DeleteFileIfExists(JournalFile);
      fs.RenameUpdateToData();
      assert CrashSafe(start, state, state);
    }

    /** `commitFile`: stage the state in the update file, then swap it in for the data file. */
    method CommitFile()
      requires Wired() && !useJournal && !journalOpen && journalLines == 0
      requires fs.disk.data.Some? && fs.disk.data.value.Readable? && fs.disk.update.None? && fs.disk.journal.None?
      modifies fs
      ensures Valid() && fs.disk == Settled(data)
      ensures CrashSafe(old(|fs.CrashPoints|), old(fs.disk).data.value.state, data)
    {
      ghost var start := |fs.CrashPoints|;
      fs.WriteFile(UpdateFile, data);
      fs.DeleteFileIfExists(DataFile);
      fs.RenameUpdateToData();
    }

    /** `commitJournal`: append the operation's line; once the journal holds
        `journalMaxLines` lines, write the state as the new snapshot and
        start a new journal. */
    method CommitJournal(op: O, ghost before: S)
      requires Wired() && useJournal
      requires apply(before, op) == Success(data)
      requires fs.disk.data.Some? && fs.disk.data.value.Readable? && fs.disk.update.None?
      requires journalOpen ==> fs.disk.journal.Some?
      requires |JournalContent(fs.disk.journal)| == journalLines
      requires forall i | 0 <= i < journalLines :: LineOp(JournalContent(fs.disk.journal)[i], deserialize).Some?
      requires journalLines == 0 || journalLines < journalMaxLines
      requires Recovered(fs.disk) == Success(before)
      modifies this, fs
      ensures Valid() && data == old(data)
      ensures old(journalLines) + 1 < journalMaxLines ==>
        && journalLines == old(journalLines) + 1
        && fs.disk == old(fs.disk).(journal := Some(JournalContent(old(fs.disk.journal)) + [Parsed(serialize(op))]))
      ensures old(journalLines) + 1 >= journalMaxLines ==>
        journalLines == 0 && fs.disk == Settled(data) && !journalOpen
      ensures CrashSafe(old(|fs.CrashPoints|), before, data)
    {
      ghost var start := |fs.CrashPoints|;
      ghost var lines := JournalContent(fs.disk.journal);
      assert |ParseJournal(lines, deserialize)| == |lines| by {
        ParseJournalAllGood(lines, deserialize);
      }
      var line := Parsed(serialize(op));
      ghost var reopened := fs.disk.(journal := Some(lines));
      ParseJournalSnoc(lines, Garbled, deserialize);
      ParseJournalSnoc(lines, line, deserialize);
      ApplyAllSnoc(fs.disk.data.value.state, ParseJournal(lines, deserialize), op, apply);
      assert Recovered(reopened) == Success(before);
      assert Recovered(reopened.(journal := Some(lines + [Garbled]))) == Success(before);
      assert Recovered(reopened.(journal := Some(lines + [line]))) == Success(data);
      AppendToJournal(line);
      assert CrashSafe(start, before, data);
      journalLines := journalLines + 1;
      if journalLines >= journalMaxLines {
        CloseJournalFile();
        journalLines := 0;
        SwapInSnapshot(data);
        assert CrashSafe(start, before, data);
      } else {
        assert LineOp(JournalContent(fs.disk.journal)[journalLines - 1], deserialize).Some?;
      }
    }

    /** `appendToJournal`: opens the journal on first use, then appends the line. */
    method AppendToJournal(line: Line)
      requires journalOpen ==> fs.disk.journal.Some?
      modifies this, fs
      ensures journalOpen
      ensures data == old(data) && journalLines == old(journalLines)
      ensures fs.disk == old(fs.disk).(journal := Some(JournalContent(old(fs.disk.journal)) + [line]))
      ensures old(fs.CrashPoints) <= fs.CrashPoints
      ensures forall i | old(|fs.CrashPoints|) <= i < |fs.CrashPoints| ::
        || fs.CrashPoints[i] == old(fs.disk).(journal := Some(JournalContent(old(fs.disk.journal))))
        || fs.CrashPoints[i] == old(fs.disk).(journal := Some(JournalContent(old(fs.disk.journal)) + [Garbled]))
        || fs.CrashPoints[i] == fs.disk
    {
      if !journalOpen {
        fs.OpenJournal();
        journalOpen := true;
      }
      fs.AppendLine(line);
    }

    /** `closeJournalFile`. */
    method CloseJournalFile()
      modifies this
      ensures !journalOpen
      ensures data == old(data) && journalLines == old(journalLines)
    {
      journalOpen := false;
    }

    /** `commitOperation`: apply the operation to the state in memory first,
        then persist it through the journal, or by rewriting the data file
        when journaling is off. An operation that throws changes nothing. */
    method CommitOperation(op: O) returns (outcome: Outcome<string>)
      requires Valid()
      modifies this, fs
      ensures Valid()
      ensures apply(old(data), op).Failure? ==>
        && outcome == Fail(apply(old(data), op).error)
        && data == old(data) && journalLines == old(journalLines) && fs.disk == old(fs.disk)
      ensures apply(old(data), op).Success? ==> outcome == Pass && data == apply(old(data), op).value
      ensures apply(old(data), op).Success? && useJournal && old(journalLines) + 1 < journalMaxLines ==>
        && journalLines == old(journalLines) + 1
        && fs.disk == old(fs.disk).(journal := Some(JournalContent(old(fs.disk.journal)) + [Parsed(serialize(op))]))
      ensures apply(old(data), op).Success? && (!useJournal || old(journalLines) + 1 >= journalMaxLines) ==>
        journalLines == 0 && fs.disk == Settled(data)
      ensures CrashSafe(old(|fs.CrashPoints|), old(data), data)
    {
      var next := apply(data, op);
      if next.Failure? {
        return Fail(next.error);
      }
      ghost var before := data;
      data := next.value;
      if useJournal {
        CommitJournal(op, before);
      } else {
        CommitFile();
      }
      return Pass;
    }

    /** `replace`: a new state, written as a whole. Only a store without a
        journal uses it. */
    method Replace(value: S)
      requires Valid() && !useJournal
      modifies this, fs
      ensures Valid() && data == value && fs.disk == Settled(value)
      ensures CrashSafe(old(|fs.CrashPoints|), old(data), data)
    {
      data := value;
      CommitFile();
    }

    /** `clear`: back to the default value, with the journal deleted and the
        data file rewritten; the caller's `afterfn` runs after it. */
    method Clear()
      requires Valid()
      modifies this, fs
      ensures Valid()
      ensures data == defaultValue && journalLines == 0 && !journalOpen
      ensures fs.disk == Settled(defaultValue)
      ensures CrashSafe(old(|fs.CrashPoints|), old(data), data)
    {
      ghost var start := |fs.CrashPoints|;
      data := defaultValue;
      journalLines := 0;
      fs.DeleteFileIfExists(DataFile);
      CloseJournalFile();
      fs.DeleteFileIfExists(JournalFile);
      assert CrashSafe(start, data, data);
      fs.WriteFile(DataFile, data);
      assert CrashSafe(start, data, data);
    }

    /** `close`: closes the journal's handle; the files stay as they are. */
    method Close()
      requires Valid()
      modifies this
      ensures Valid() && !journalOpen
      ensures data == old(data) && journalLines == old(journalLines)
    {
      CloseJournalFile();
    }
  }
}
