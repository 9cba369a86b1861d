/** The rotating file sink: a bounded row of files, shifted by one whenever the current file would grow too large. */
module RotatingSink {
  import opened Wrappers
  import opened Numerals

  // ----- names

  /** `calc_filename` */
  function FileName(base: string, ext: string, index: nat): string {
    if index != 0 then base + "." + Decimal(index) + "." + ext else base + "." + ext
  }

  lemma NamesDistinct(base: string, ext: string, i: nat, j: nat)
    requires FileName(base, ext, i) == FileName(base, ext, j)
    ensures i == j
  {
    var a, b := FileName(base, ext, i), FileName(base, ext, j);
    assert i != 0 ==> |a| == |base| + 2 + |Decimal(i)| + |ext| && a[|base| + 1..|base| + 1 + |Decimal(i)|] == Decimal(i);
    assert j != 0 ==> |b| == |base| + 2 + |Decimal(j)| + |ext| && b[|base| + 1..|base| + 1 + |Decimal(j)|] == Decimal(j);
    if i != 0 && j != 0 { NumeralInjective(i, j, 10, false); }
  }

  lemma AllNamesDistinct(base: string, ext: string)
    ensures forall i: nat, j: nat :: i != j ==> FileName(base, ext, i) != FileName(base, ext, j)
  {
    forall i: nat, j: nat | i != j ensures FileName(base, ext, i) != FileName(base, ext, j) {
      if FileName(base, ext, i) == FileName(base, ext, j) { NamesDistinct(base, ext, i, j); }
    }
  }

  // ----- the row of files as a value

  type Row = seq<Option<string>>

  function Content(f: Option<string>): string {
    if f.Some? then f.value else ""
  }

  /** One rotation: file 0 empty, every other file the one before it, the last one gone. */
  function Rotated(row: Row): (r: Row)
    requires row != []
    ensures |r| == |row| && r[0] == Some("") && forall i :: 0 < i < |row| ==> r[i] == row[i - 1]
  {
    [Some("")] + row[..|row| - 1]
  }

  /** Text written at the end of file 0. */
  function Written(row: Row, msg: string): (r: Row)
    requires row != []
    ensures |r| == |row| && r[0] == Some(Content(row[0]) + msg) && r[1..] == row[1..]
  {
    [Some(Content(row[0]) + msg)] + row[1..]
  }

  predicate Overflows(row: Row, maxSize: nat, msg: string)
    requires row != []
  {
    |Content(row[0])| + |msg| > maxSize
  }

  /** One message logged. */
  function Logged(row: Row, maxSize: nat, msg: string): (r: Row)
    requires row != []
    ensures |r| == |row| && r[0].Some?
    ensures |r[0].value| <= maxSize || r[0] == Some(msg)
  {
    assert "" + msg == msg;
    if Overflows(row, maxSize, msg) then Written(Rotated(row), msg) else Written(row, msg)
  }

  function LoggedAll(row: Row, maxSize: nat, msgs: seq<string>): (r: Row)
    requires row != []
    ensures |r| == |row|
    decreases |msgs|
  {
    if msgs == [] then row else LoggedAll(Logged(row, maxSize, msgs[0]), maxSize, msgs[1..])
  }

  /** The files read from oldest to newest. */
  function History(row: Row): string {
    if row == [] then "" else History(row[1..]) + Content(row[0])
  }

  function Joined(msgs: seq<string>): string {
    if msgs == [] then "" else msgs[0] + Joined(msgs[1..])
  }

  /** What one message makes the files drop. */
  function Lost(row: Row, maxSize: nat, msg: string): string
    requires row != []
  {
    if Overflows(row, maxSize, msg) then Content(row[|row| - 1]) else ""
  }

  /** What the rotations of a stream of messages drop: each time, the oldest file of that moment. */
  function Dropped(row: Row, maxSize: nat, msgs: seq<string>): string
    requires row != []
    decreases |msgs|
  {
    if msgs == [] then ""
    else Lost(row, maxSize, msgs[0]) + Dropped(Logged(row, maxSize, msgs[0]), maxSize, msgs[1..])
  }

  function Rotations(row: Row, maxSize: nat, msgs: seq<string>): nat
    requires row != []
    decreases |msgs|
  {
    if msgs == [] then 0
    else (if Overflows(row, maxSize, msgs[0]) then 1 else 0) + Rotations(Logged(row, maxSize, msgs[0]), maxSize, msgs[1..])
  }

  lemma {:induction false} OldestFirst(row: Row)
    requires row != []
    ensures History(row) == Content(row[|row| - 1]) + History(row[..|row| - 1])
  {
    var n := |row| - 1;
    if n == 0 {
      assert row[1..] == [] && row[..0] == [];
      assert History(row) == "" + Content(row[0]);
    } else {
      OldestFirst(row[1..]);
      assert row[1..][..n - 1] == row[..n][1..];
      assert History(row) == Content(row[n]) + History(row[..n][1..]) + Content(row[0]);
    }
  }

  lemma HistoryOf(row: Row, front: string, rest: Row)
    requires row != [] && Content(row[0]) == front && row[1..] == rest
    ensures History(row) == History(rest) + front
  {
  }

  lemma Regroup(a: string, b: string, c: string)
    ensures a + b + c == a + (b + c)
  {
  }

  lemma StartedAnew(row: Row, msg: string)
    requires row != []
    ensures Written(Rotated(row), msg)[0] == Some(msg) && Written(Rotated(row), msg)[1..] == row[..|row| - 1]
  {
    assert "" + msg == msg;
    assert Rotated(row)[1..] == row[..|row| - 1];
  }

  lemma RotationKeepsHistory(row: Row, msg: string)
    requires row != []
    ensures History(row) + msg == Content(row[|row| - 1]) + History(Written(Rotated(row), msg))
  {
    hide History, Written, Rotated;
    var oldest, kept := Content(row[|row| - 1]), History(row[..|row| - 1]);
    OldestFirst(row);
    StartedAnew(row, msg);
    HistoryOf(Written(Rotated(row), msg), msg, row[..|row| - 1]);
    Regroup(oldest, kept, msg);
  }

  lemma WritingKeepsHistory(row: Row, msg: string)
    requires row != []
    ensures History(row) + msg == History(Written(row, msg))
  {
    hide History;
    HistoryOf(row, Content(row[0]), row[1..]);
    HistoryOf(Written(row, msg), Content(row[0]) + msg, row[1..]);
    Regroup(History(row[1..]), Content(row[0]), msg);
  }

  /** One message keeps the history but for what a rotation drops. */
  lemma LoggedKeepsHistory(row: Row, maxSize: nat, msg: string)
    requires row != []
    ensures History(row) + msg == Lost(row, maxSize, msg) + History(Logged(row, maxSize, msg))
  {
    hide History, Written, Rotated;
    if Overflows(row, maxSize, msg) {
      RotationKeepsHistory(row, msg);
    } else {
      WritingKeepsHistory(row, msg);
      assert "" + History(Logged(row, maxSize, msg)) == History(Logged(row, maxSize, msg));
    }
  }

  lemma Chain(h: string, msg: string, rest: string, lost: string, next: string, dropped: string, after: string)
    requires h + msg == lost + next && next + rest == dropped + after
    ensures h + (msg + rest) == (lost + dropped) + after
  {
    assert h + (msg + rest) == (h + msg) + rest == lost + (next + rest) == (lost + dropped) + after;
  }

  /**
   Conservation: over any stream of messages, what was there followed by all messages is what the
   rotations dropped followed by what is there. So the files always hold a suffix of everything logged.
   */
  lemma {:induction false} HistoryConserved(row: Row, maxSize: nat, msgs: seq<string>)
    requires row != []
    ensures History(row) + Joined(msgs) == Dropped(row, maxSize, msgs) + History(LoggedAll(row, maxSize, msgs))
    decreases |msgs|
  {
    hide History, Logged, Lost;
    if msgs == [] {
      assert History(row) + "" == "" + History(row);
    } else {
      var next, rest := Logged(row, maxSize, msgs[0]), msgs[1..];
      LoggedKeepsHistory(row, maxSize, msgs[0]);
      HistoryConserved(next, maxSize, rest);
      Chain(History(row), msgs[0], Joined(rest), Lost(row, maxSize, msgs[0]), History(next),
            Dropped(next, maxSize, rest), History(LoggedAll(next, maxSize, rest)));
    }
  }

  /** As long as there are no more rotations than free places at the end of the row, nothing is dropped. */
  lemma {:induction false} NothingDropped(row: Row, maxSize: nat, msgs: seq<string>)
    requires row != [] && Rotations(row, maxSize, msgs) < |row|
    requires forall i :: |row| - Rotations(row, maxSize, msgs) <= i < |row| ==> row[i].None?
    ensures Dropped(row, maxSize, msgs) == ""
    decreases |msgs|
  {
    if msgs != [] {
      NothingDropped(Logged(row, maxSize, msgs[0]), maxSize, msgs[1..]);
    }
  }

  /** A message that fits is appended to file 0 and nothing else changes; any other starts file 0 anew behind a rotation. */
  lemma OneMessage(row: Row, maxSize: nat, msg: string)
    requires row != []
    ensures Logged(row, maxSize, msg)
         == if |Content(row[0]) + msg| <= maxSize then row[0 := Some(Content(row[0]) + msg)]
            else [Some(msg)] + row[..|row| - 1]
  {
    StartedAnew(row, msg);
  }

  /** No rotation before its time: as long as everything fits into file 0, all messages stand there, one after the other. */
  lemma {:induction false} FittingStaysInFileZero(row: Row, maxSize: nat, msgs: seq<string>)
    requires row != [] && row[0].Some? && |Content(row[0])| + |Joined(msgs)| <= maxSize
    ensures LoggedAll(row, maxSize, msgs) == row[0 := Some(Content(row[0]) + Joined(msgs))]
    ensures Rotations(row, maxSize, msgs) == 0
    decreases |msgs|
  {
    hide Logged, Joined;
    if msgs == [] {
      NothingJoined(row[0].value);
    } else {
      var text := Content(row[0]);
      JoinedFirst(msgs);
      OneMessage(row, maxSize, msgs[0]);
      FittingStaysInFileZero(row[0 := Some(text + msgs[0])], maxSize, msgs[1..]);
      Regroup(text, msgs[0], Joined(msgs[1..]));
    }
  }

  lemma NothingJoined(text: string)
    ensures text + Joined([]) == text
  {
  }

  lemma JoinedFirst(msgs: seq<string>)
    requires msgs != []
    ensures Joined(msgs) == msgs[0] + Joined(msgs[1..])
  {
  }

  /** Rotations are rare: each takes more than maxSize characters, and no message counts for more than two of them. */
  lemma {:induction false} RotationsBounded(row: Row, maxSize: nat, msgs: seq<string>)
    requires row != []
    ensures Rotations(row, maxSize, msgs) * (maxSize + 1) <= |Content(row[0])| + 2 * |Joined(msgs)|
    decreases |msgs|
  {
    hide Logged, Joined;
    if msgs != [] {
      var next := Logged(row, maxSize, msgs[0]);
      var later := Rotations(next, maxSize, msgs[1..]);
      JoinedFirst(msgs);
      OneMessage(row, maxSize, msgs[0]);
      RotationsBounded(next, maxSize, msgs[1..]);
      assert (later + 1) * (maxSize + 1) == later * (maxSize + 1) + (maxSize + 1);
    }
  }

  /** A row that starts with file 0 alone drops nothing until roughly half of what its files can hold has been logged. */
  lemma NothingDroppedEarly(row: Row, maxSize: nat, msgs: seq<string>)
    requires row != [] && forall i :: 0 < i < |row| ==> row[i].None?
    requires |Content(row[0])| + 2 * |Joined(msgs)| < |row| * (maxSize + 1)
    ensures Dropped(row, maxSize, msgs) == ""
  {
    hide Rotations, Dropped, Joined;
    RotationsBounded(row, maxSize, msgs);
    Fewer(Rotations(row, maxSize, msgs), |row|, maxSize + 1);
    NothingDropped(row, maxSize, msgs);
  }

  lemma MulMonotone(k: nat, n: nat, c: nat)
    ensures k <= n ==> k * c <= n * c
  {
  }

  lemma Fewer(n: nat, k: nat, c: nat)
    requires n * c < k * c
    ensures n < k
  {
    MulMonotone(k, n, c);
  }

  // ----- the file system

  function Lookup(files: map<string, string>, name: string): Option<string> {
    if name in files then Some(files[name]) else None
  }

  /** The row kept under a base name, newest first. */
  function RowOf(files: map<string, string>, base: string, ext: string, maxFiles: nat): (r: Row)
    ensures |r| == maxFiles + 1
  {
    seq(maxFiles + 1, i requires 0 <= i => Lookup(files, FileName(base, ext, i)))
  }

  ghost predicate InRow(name: string, base: string, ext: string, maxFiles: nat) {
    exists i :: 0 <= i <= maxFiles && name == FileName(base, ext, i)
  }

  ghost predicate SameElsewhere(was: map<string, string>, files: map<string, string>, base: string, ext: string, maxFiles: nat) {
    forall name :: !InRow(name, base, ext, maxFiles) ==> Lookup(files, name) == Lookup(was, name)
  }

  class FileSystem {
    var files: map<string, string>

    constructor (files: map<string, string>)
      ensures this.files == files
    {
      this.files := files;
    }

    method Remove(name: string)
      requires name in files
      modifies this
      ensures files == old(files) - {name}
    {
      files := files - {name};
    }

    /** The target must not exist: the sink removes it first. */
    method Rename(src: string, target: string)
      requires src in files && target !in files
      modifies this
      ensures files == (old(files) - {src})[target := old(files)[src]]
    {
      files := (files - {src})[target := files[src]];
    }
  }

  class FileHelper {
    const fs: FileSystem
    var isOpen: bool
    var filename: string

    ghost predicate Ready(name: string)
      reads this, fs
    {
      isOpen && filename == name && name in fs.files
    }

    constructor (fs: FileSystem)
      ensures this.fs == fs && !isOpen && filename == ""
    {
      this.fs := fs;
      isOpen, filename := false, "";
    }

    /** Opens for writing at the end, creating the file if it is missing and emptying it if asked to. */
    method Open(name: string, truncate: bool)
      modifies this, fs
      ensures Ready(name)
      ensures fs.files == old(fs.files)[name := if truncate then "" else Content(Lookup(old(fs.files), name))]
    {
      Close();
      filename := name;
      if truncate || name !in fs.files { fs.files := fs.files[name := ""]; }
      isOpen := true;
    }

    /** A helper that was never opened has no name to open again. */
    method Reopen(truncate: bool) returns (r: Result<(), string>)
      modifies this, fs
      ensures old(filename) == "" ==> r.Failure? && fs.files == old(fs.files)
      ensures old(filename) != "" ==>
                && r.Success? && Ready(old(filename))
                && fs.files == old(fs.files)[filename := if truncate then "" else Content(Lookup(old(fs.files), filename))]
    {
      if filename == "" { return Failure("Failed re opening file - was not opened before"); }
      Open(filename, truncate);
      return Success(());
    }

    method Close()
      modifies `isOpen
      ensures !isOpen
    {
      isOpen := false;
    }

    method Write(text: string)
      requires Ready(filename)
      modifies fs
      ensures fs.files == old(fs.files)[filename := old(fs.files)[filename] + text]
    {
      fs.files := fs.files[filename := fs.files[filename] + text];
    }

    method Size() returns (n: nat)
      requires Ready(filename)
      ensures n == |fs.files[filename]|
    {
      n := |fs.files[filename]|;
    }
  }

  // ----- one file changed

  lemma WriteTouchesOne(files: map<string, string>, base: string, ext: string, maxFiles: nat, text: string)
    ensures var after := files[FileName(base, ext, 0) := text];
            && RowOf(after, base, ext, maxFiles) == RowOf(files, base, ext, maxFiles)[0 := Some(text)]
            && SameElsewhere(files, after, base, ext, maxFiles)
  {
    AllNamesDistinct(base, ext);
    hide FileName;
    assert InRow(FileName(base, ext, 0), base, ext, maxFiles);
  }

  // ----- the descending shift

  /** The row when the shift has come down to i: place i is free, the files from i on have moved up. */
  function Shifting(row: Row, i: nat): (r: Row)
    requires row != [] && i < |row|
    ensures |r| == |row|
  {
    if i == |row| - 1 then row else row[..i] + [None] + row[i..|row| - 1]
  }

  lemma ShiftDone(row: Row)
    requires row != []
    ensures Shifting(row, 0)[0 := Some("")] == Rotated(row)
  {
  }

  /** One step of the shift on the file system. */
  function Moved(files: map<string, string>, src: string, target: string): map<string, string> {
    var cleared := files - {target};
    if src in cleared then (cleared - {src})[target := cleared[src]] else cleared
  }

  lemma LookupMoved(files: map<string, string>, src: string, target: string, name: string)
    requires src != target
    ensures Lookup(Moved(files, src, target), name)
         == if name == target then Lookup(files, src) else if name == src then None else Lookup(files, name)
  {
  }

  lemma MoveShifts(files: map<string, string>, was: map<string, string>, base: string, ext: string, maxFiles: nat, row: Row, i: nat)
    requires 0 < i <= maxFiles && |row| == maxFiles + 1
    requires RowOf(files, base, ext, maxFiles) == Shifting(row, i) && SameElsewhere(was, files, base, ext, maxFiles)
    ensures var after := Moved(files, FileName(base, ext, i - 1), FileName(base, ext, i));
            && RowOf(after, base, ext, maxFiles) == Shifting(row, i - 1)
            && SameElsewhere(was, after, base, ext, maxFiles)
  {
    hide FileName, Moved, Lookup;
    var src, target := FileName(base, ext, i - 1), FileName(base, ext, i);
    if src == target { NamesDistinct(base, ext, i - 1, i); }
    var after := Moved(files, src, target);
    var r, now := RowOf(files, base, ext, maxFiles), RowOf(after, base, ext, maxFiles);
    forall k | 0 <= k <= maxFiles ensures now[k] == Shifting(row, i - 1)[k] {
      var name := FileName(base, ext, k);
      LookupMoved(files, src, target, name);
      if name == src { NamesDistinct(base, ext, k, i - 1); }
      if name == target { NamesDistinct(base, ext, k, i); }
      assert now[k] == if k == i then r[i - 1] else if k == i - 1 then None else r[k];
    }
    forall name | !InRow(name, base, ext, maxFiles) ensures Lookup(after, name) == Lookup(was, name) {
      assert InRow(src, base, ext, maxFiles) && InRow(target, base, ext, maxFiles);
      LookupMoved(files, src, target, name);
    }
  }

  class RotatingFileSink {
    const fs: FileSystem
    const base: string
    const ext: string
    const maxSize: nat
    const maxFiles: nat
    const file: FileHelper
    var currentSize: nat

    ghost function Files(): Row
      reads fs
    {
      RowOf(fs.files, base, ext, maxFiles)
    }

    ghost predicate Attached()
      reads fs, file
    {
      file.fs == fs && file.Ready(FileName(base, ext, 0))
    }

    /** File 0 is open, and the running size is its size. */
    ghost predicate Valid()
      reads this, fs, file
    {
      && Attached()
      && currentSize == |Content(Files()[0])|
    }

    constructor (fs: FileSystem, base: string, ext: string, maxSize: nat, maxFiles: nat)
      modifies fs
      ensures Valid() && fresh(file)
      ensures this.fs == fs && this.base == base && this.ext == ext && this.maxSize == maxSize && this.maxFiles == maxFiles
      ensures var was := RowOf(old(fs.files), base, ext, maxFiles);
              Files() == was[0 := Some(Content(was[0]))]
      ensures SameElsewhere(old(fs.files), fs.files, base, ext, maxFiles)
    {
      this.fs, this.base, this.ext, this.maxSize, this.maxFiles := fs, base, ext, maxSize, maxFiles;
      currentSize := 0;
      file := new FileHelper(fs);
      new;
      ghost var name := FileName(base, ext, 0);
      WriteTouchesOne(fs.files, base, ext, maxFiles, Content(Lookup(fs.files, name)));
      file.Open(FileName(base, ext, 0), false);
      currentSize := file.Size();
    }

    /** The files move up by one place, the last one is dropped, file 0 starts empty; no other file changes. */
    method Rotate()
      requires Attached()
      modifies fs, file
      ensures Attached()
      ensures Files() == Rotated(old(Files()))
      ensures SameElsewhere(old(fs.files), fs.files, base, ext, maxFiles)
    {
      file.Close();
      ghost var row, was := Files(), fs.files;
      var i: nat := maxFiles;
      while i > 0
        invariant i <= maxFiles && Files() == Shifting(row, i)
        invariant SameElsewhere(was, fs.files, base, ext, maxFiles)
        invariant file.filename == FileName(base, ext, 0)
      {
        var src, target := FileName(base, ext, i - 1), FileName(base, ext, i);
        MoveShifts(fs.files, was, base, ext, maxFiles, row, i);
        ghost var before := fs.files;
        if target in fs.files { fs.Remove(target); }
        assert fs.files == before - {target};
        if src in fs.files { fs.Rename(src, target); }
        assert fs.files == Moved(before, src, target);
        i := i - 1;
      }
      WriteTouchesOne(fs.files, base, ext, maxFiles, "");
      ShiftDone(row);
      var reopening := file.Reopen(true);
    }

    /** One message: the row changes as specified, the running size keeps up, no other file changes. */
    method SinkIt(msg: string)
      requires Valid()
      modifies this, fs, file
      ensures Valid() && Files() == Logged(old(Files()), maxSize, msg)
      ensures var text := Content(old(Files())[0]) + msg;
              Files() == if |text| <= maxSize then old(Files())[0 := Some(text)] else [Some(msg)] + old(Files())[..maxFiles]
      ensures SameElsewhere(old(fs.files), fs.files, base, ext, maxFiles)
    {
      OneMessage(Files(), maxSize, msg);
      currentSize := currentSize + |msg|;
      if currentSize > maxSize {
        Rotate();
        currentSize := |msg|;
      }
      ghost var name, row := FileName(base, ext, 0), Files();
      assert row[0] == Some(fs.files[name]);
      WriteTouchesOne(fs.files, base, ext, maxFiles, fs.files[name] + msg);
      assert row[0 := Some(fs.files[name] + msg)] == Written(row, msg);
      file.Write(msg);
    }
  }
}
