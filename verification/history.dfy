/** Undo, redo and revert of one file on the storage server: the file, its backup, and a directory
    of checkpoints in which two reserved tags mark what an undo should do. */
module History {
  import opened Wrappers

  const UNDO := "__UNDO__"
  const REDO := "__REDO__"

  datatype Files = Files(file: Option<string>, backup: Option<string>, points: map<string, string>)

  /** What a marker keeps of the file: its text, or nothing when there is no file. */
  function Current(f: Files): string {
    if f.file.Some? then f.file.value else ""
  }

  /** Copying the current file over a marker: opening the marker for writing empties it even when
      there is no file to copy. */
  function MarkCurrent(f: Files, tag: string): Files {
    f.(points := f.points[tag := Current(f)])
  }

  /** Write a text to the file and to its backup. */
  function Restore(f: Files, text: string): Files {
    f.(file := Some(text), backup := Some(text))
  }

  function Undo(f: Files): Files {
    if UNDO in f.points then
      var g := Restore(MarkCurrent(f, REDO), f.points[UNDO]);
      g.(points := g.points - {UNDO})
    else if REDO in f.points then
      var g := Restore(MarkCurrent(f, UNDO), f.points[REDO]);
      g.(points := g.points - {REDO})
    else f.(file := f.backup, backup := f.file)
  }

  /** Revert to a tag: the current text is marked first, then the tag's text is read. */
  function Revert(f: Files, tag: string): Files {
    if tag !in f.points then f
    else
      var g := MarkCurrent(f, UNDO);
      Restore(g, g.points[tag])
  }

  function Checkpoint(f: Files, tag: string): Files {
    if f.file.None? || tag in f.points then f else f.(points := f.points[tag := f.file.value])
  }

  /** A commit: the file becomes the backup, the new text the file. */
  function Commit(f: Files, text: string): Files {
    f.(file := Some(text), backup := if f.file.Some? then f.file else f.backup)
  }

  datatype Event = DoCommit(text: string) | DoCheckpoint(tag: string) | DoRevert(tag: string) | DoUndo

  function Step(f: Files, e: Event): Files {
    match e
    case DoCommit(text) => Commit(f, text)
    case DoCheckpoint(tag) => Checkpoint(f, tag)
    case DoRevert(tag) => Revert(f, tag)
    case DoUndo => Undo(f)
  }

  function Run(f: Files, es: seq<Event>): Files
    decreases es
  {
    if es == [] then f else Run(Step(f, es[0]), es[1..])
  }

  function Undos(f: Files, n: nat): Files
    decreases n
  {
    if n == 0 then f else Undos(Undo(f), n - 1)
  }

  predicate Marked(f: Files) {
    UNDO in f.points || REDO in f.points
  }

  /** A marker is only ever pending while the file exists. */
  predicate Sound(f: Files) {
    Marked(f) ==> f.file.Some?
  }

  lemma {:induction false} RunSound(f: Files, es: seq<Event>)
    requires Sound(f)
    ensures Sound(Run(f, es))
    decreases es
  {
    if es != [] {
      RunSound(Step(f, es[0]), es[1..]);
    }
  }

  /** Two undos give back the current contents exactly when there is a file or no pending marker. */
  lemma TwoUndosIff(f: Files)
    ensures Undo(Undo(f)).file == f.file <==> Sound(f)
  {
    assert UNDO != REDO;
  }

  /** So in every reachable state two undos give back the current contents. */
  lemma TwoUndosRestore(f: Files, es: seq<Event>)
    requires Sound(f)
    ensures Undo(Undo(Run(f, es))).file == Run(f, es).file
  {
    RunSound(f, es);
    TwoUndosIff(Run(f, es));
  }

  /** `here` is the file, and the next undo brings `there`. */
  predicate Toggles(f: Files, here: string, there: string) {
    f.file == Some(here) &&
    if UNDO in f.points then f.points[UNDO] == there else REDO in f.points && f.points[REDO] == there
  }

  lemma UndoToggles(f: Files, here: string, there: string)
    requires Toggles(f, here, there)
    ensures Toggles(Undo(f), there, here)
  {
    assert UNDO != REDO;
  }

  lemma {:induction false} UndosAlternate(f: Files, here: string, there: string, n: nat)
    requires Toggles(f, here, there)
    ensures Undos(f, n).file == Some(if n % 2 == 0 then here else there)
    decreases n
  {
    if n > 0 {
      UndoToggles(f, here, there);
      UndosAlternate(Undo(f), there, here, n - 1);
    }
  }

  /** After `n` undos the file is `here` for even and `there` for odd `n`. */
  predicate UndosGive(f: Files, n: nat, here: string, there: string) {
    Undos(f, n).file == Some(if n % 2 == 0 then here else there)
  }

  /** After a revert, undos alternate between the text before it and the checkpoint (a missing file
      counts as empty), exactly when the tag is not the undo marker itself, or that marker held the
      current text already. */
  lemma RevertThenUndosIff(f: Files, tag: string)
    requires tag in f.points
    ensures (forall n: nat :: UndosGive(Revert(f, tag), n, f.points[tag], Current(f)))
       <==> tag != UNDO || f.points[tag] == Current(f)
  {
    var g := Revert(f, tag);
    if tag != UNDO || f.points[tag] == Current(f) {
      forall n: nat
        ensures UndosGive(g, n, f.points[tag], Current(f))
      {
        UndosAlternate(g, f.points[tag], Current(f), n);
      }
    } else {
      assert !UndosGive(g, 0, f.points[tag], Current(f));
    }
  }

  /** Undo right after a commit gives back the file before it exactly when the pending marker, if any,
      holds that same text (commits do not clear markers) and, without a marker, there was a file or no
      backup either. */
  lemma UndoAfterCommitIff(f: Files, text: string)
    ensures Undo(Commit(f, text)).file == f.file
       <==> if UNDO in f.points then f.file == Some(f.points[UNDO])
            else if REDO in f.points then f.file == Some(f.points[REDO])
            else f.file.Some? || f.backup.None?
  {
  }

  /** No run of events changes a checkpoint under a tag of its own. */
  lemma {:induction false} CheckpointsStay(f: Files, es: seq<Event>, tag: string)
    requires tag in f.points && tag != UNDO && tag != REDO
    ensures tag in Run(f, es).points && Run(f, es).points[tag] == f.points[tag]
    decreases es
  {
    if es != [] {
      CheckpointsStay(Step(f, es[0]), es[1..], tag);
    }
  }

  /** A checkpoint holds the text the file had when it was taken: reverting to it after any run gives that
      text back, in the file and in its backup. */
  lemma RevertGivesCheckpoint(f: Files, tag: string, es: seq<Event>)
    requires f.file.Some? && tag !in f.points && tag != UNDO && tag != REDO
    ensures var g := Revert(Run(Checkpoint(f, tag), es), tag);
            g.file == f.file && g.backup == f.file
    ensures Checkpoint(f, tag).file == f.file && Checkpoint(f, tag).backup == f.backup
  {
    CheckpointsStay(Checkpoint(f, tag), es, tag);
  }

  /** Without a file, or under a tag that is taken, nothing is checkpointed; a revert to a tag that does
      not exist does nothing. */
  lemma RefusedIsIdle(f: Files, tag: string)
    ensures f.file.None? || tag in f.points ==> Checkpoint(f, tag) == f
    ensures tag !in f.points ==> Revert(f, tag) == f
  {
  }

  /** A commit's text is in the file, and comes back with the second of two undos; the text before it is
      the backup. */
  lemma CommitThenUndos(f: Files, text: string)
    ensures Commit(f, text).file == Some(text) && Commit(f, text).points == f.points
    ensures Undo(Undo(Commit(f, text))).file == Some(text)
    ensures f.file.Some? ==> Commit(f, text).backup == f.file
  {
    TwoUndosIff(Commit(f, text));
  }

  /** Whatever a marker or a checkpoint brings back is the new backup, too. */
  lemma RestoredIsBackup(f: Files, tag: string)
    ensures Marked(f) ==> Undo(f).backup == Undo(f).file
    ensures tag in f.points ==> Revert(f, tag).backup == Revert(f, tag).file
    ensures !Marked(f) ==> Undo(f).file == f.backup && Undo(f).backup == f.file && Undo(f).points == f.points
  {
  }

  // ---------- in place ----------

  /** The handlers on the files of one document, step by step. */
  class FileHistory {
    var file: Option<string>
    var backup: Option<string>
    var points: map<string, string>

    ghost function State(): Files
      reads this
    {
      Files(file, backup, points)
    }

    /** Copy a checkpoint over the file and the backup, and drop the checkpoint. */
    method TakeBack(tag: string, other: string)
      requires tag in points && tag != other
      modifies this
      ensures var g := Restore(MarkCurrent(old(State()), other), old(points)[tag]);
              State() == g.(points := g.points - {tag})
    {
      points := points[other := ""];
      if file.Some? {
        points := points[other := file.value];
      }
      file := Some(points[tag]);
      backup := Some(points[tag]);
      points := points - {tag};
    }

    method HandleUndo()
      modifies this
      ensures State() == Undo(old(State()))
    {
      if UNDO in points {
        TakeBack(UNDO, REDO);
      } else if REDO in points {
        TakeBack(REDO, UNDO);
      } else {
        var swap := file;
        file := backup;
        backup := swap;
      }
    }

    method HandleRevert(tag: string) returns (ok: bool)
      modifies this
      ensures State() == Revert(old(State()), tag) && ok == (tag in old(points))
    {
      if tag !in points {
        return false;
      }
      points := points[UNDO := ""];
      if file.Some? {
        points := points[UNDO := file.value];
      }
      file := Some(points[tag]);
      backup := Some(points[tag]);
      ok := true;
    }

    method HandleCheckpoint(tag: string) returns (ok: bool)
      modifies this
      ensures State() == Checkpoint(old(State()), tag)
      ensures ok == (old(file).Some? && tag !in old(points))
    {
      if file.None? || tag in points {
        return false;
      }
      points := points[tag := file.value];
      ok := true;
    }
  }
}
