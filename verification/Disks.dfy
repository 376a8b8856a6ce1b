/** The file system an update sees: the destination and the two directories inside its temporary
    one. Any call may fail, or be interrupted before or after it takes effect; the history keeps
    every state there ever was, so that a process killed at any point leaves one of them. */
module Disks {
  import opened Wrappers
  import opened Snapshots

  /** What is at a path; a symbolic link's target counts for what can be read through it. */
  datatype Place = Missing | Symlink(target: Tree) | NotDirectory | Directory(nodes: Tree)

  datatype Slot = Dest | Staged | Backup

  datatype State = State(dest: Place, staged: Place, backup: Place) {
    function At(slot: Slot): Place {
      match slot
      case Dest => dest
      case Staged => staged
      case Backup => backup
    }

    function With(slot: Slot, place: Place): (t: State)
      ensures forall other :: t.At(other) == if other == slot then place else At(other)
    {
      match slot
      case Dest => this.(dest := place)
      case Staged => this.(staged := place)
      case Backup => this.(backup := place)
    }
  }

  datatype Failure = OsError | Interrupted | SnapshotError | CheckCrashed | StreamCrashed

  /** rename(2) of a directory: atomic, onto nothing or an empty directory. */
  predicate CanMove(s: State, from: Slot, to: Slot) {
    && from != to && s.At(from).Directory?
    && (s.At(to).Missing? || s.At(to) == Directory(map[]))
  }

  function Moved(s: State, from: Slot, to: Slot): State {
    s.With(to, s.At(from)).With(from, Missing)
  }

  /** States from which and through which only what is being staged has changed. */
  predicate OnlyStaging(history: seq<State>, start: nat, s: State) {
    forall i :: start <= i < |history| ==> history[i].dest == s.dest && history[i].backup == s.backup
  }

  /** The states agree but for one slot. */
  predicate Apart(s: State, t: State, slot: Slot) {
    s == t.With(slot, s.At(slot))
  }

  /** A rename attempted and how it ended; `struck` when that was a failure of the call's own. */
  datatype Renaming = Renaming(from: Slot, to: Slot, outcome: Result<(), Failure>, struck: bool)

  class Disk {
    var now: State
    ghost var history: seq<State>
    ghost var renames: seq<Renaming>
    const mayFail: bool

    constructor (s: State, mayFail: bool)
      ensures now == s && history == [s] && renames == [] && this.mayFail == mayFail
    {
      now := s;
      history := [s];
      renames := [];
      this.mayFail := mayFail;
    }

    method Fault() returns (fault: Option<Failure>)
      ensures fault.Some? ==> mayFail && fault.value in {OsError, Interrupted}
    {
      fault := None;
      var hit: bool := *;
      if mayFail && hit {
        var interrupted: bool := *;
        fault := Some(if interrupted then Interrupted else OsError);
      }
    }

    /** `exists()`. */
    method Exists(slot: Slot) returns (r: Result<bool, Failure>)
      ensures r.Ok? ==> r.value == !now.At(slot).Missing?
      ensures r.Err? ==> mayFail && r.error in {OsError, Interrupted}
    {
      var fault := Fault();
      return if fault.Some? then Err(fault.value) else Ok(!now.At(slot).Missing?);
    }

    /** `os.replace`. An error does not tell whether it took effect. */
    method Rename(from: Slot, to: Slot) returns (r: Result<(), Failure>)
      modifies this
      ensures now == old(now) || (CanMove(old(now), from, to) && now == Moved(old(now), from, to))
      ensures r.Ok? ==> CanMove(old(now), from, to) && now == Moved(old(now), from, to)
      ensures history == old(history) + [now]
      ensures exists struck ::
                && renames == old(renames) + [Renaming(from, to, r, struck)]
                && (struck ==> mayFail && r.Err?)
                && (r.Err? ==> struck || !CanMove(old(now), from, to))
    {
      var before := Fault();
      if before.Some? || !CanMove(now, from, to) {
        history := history + [now];
        r := Err(if before.Some? then before.value else OsError);
        renames := renames + [Renaming(from, to, r, before.Some?)];
        return;
      }
      now := Moved(now, from, to);
      history := history + [now];
      var after := Fault();
      r := if after.Some? then Err(after.value) else Ok(());
      renames := renames + [Renaming(from, to, r, after.Some?)];
    }

    /** Makes the staging directory. */
    method MakeStaged() returns (r: Result<(), Failure>)
      requires now.staged.Missing?
      modifies this`now, this`history
      ensures now == old(now) || now == old(now).(staged := Directory(map[]))
      ensures r.Ok? ==> now == old(now).(staged := Directory(map[]))
      ensures r.Err? ==> mayFail
      ensures history == old(history) + [now]
    {
      var before := Fault();
      if before.Some? {
        history := history + [now];
        return Err(before.value);
      }
      now := now.(staged := Directory(map[]));
      history := history + [now];
      var after := Fault();
      return if after.Some? then Err(after.value) else Ok(());
    }

    method Put(name: string, file: File)
      requires now.staged.Directory?
      modifies this`now, this`history
      ensures now == old(now).(staged := Directory(old(now).staged.nodes[name := Regular(file)]))
      ensures history == old(history) + [now]
    {
      now := now.(staged := Directory(now.staged.nodes[name := Regular(file)]));
      history := history + [now];
    }

    /** Writes a staged file: it is there with some of its contents, then with all of them, then
        with its mode. */
    method Write(name: string, file: File) returns (r: Result<(), Failure>)
      requires now.staged.Directory?
      modifies this`now, this`history
      ensures now.staged.Directory? && now.dest == old(now).dest && now.backup == old(now).backup
      ensures r.Ok? ==> now.staged.nodes == old(now).staged.nodes[name := Regular(file)]
      ensures r.Err? ==> mayFail && r.error in {OsError, Interrupted}
      ensures old(history) <= history && OnlyStaging(history, |old(history)|, old(now))
    {
      var fault := Fault();
      if fault.Some? {
        return Err(fault.value);
      }
      var written: int := *;
      Put(name, File(if 0 <= written < |file.content| then file.content[..written] else [], false));
      fault := Fault();
      if fault.Some? {
        return Err(fault.value);
      }
      Put(name, File(file.content, false));
      fault := Fault();
      if fault.Some? {
        return Err(fault.value);
      }
      Put(name, file);
      return Ok(());
    }

    /** Removes a directory's entries one by one and then it. */
    method RemoveTree(slot: Slot) returns (r: Result<(), Failure>)
      requires slot != Dest && (now.At(slot).Directory? || now.At(slot).Missing?)
      modifies this`now, this`history
      ensures r.Ok? || old(now).At(slot).Missing? ==> now.At(slot).Missing?
      ensures r.Err? ==> mayFail
      ensures now.At(slot).Directory? || now.At(slot).Missing?
      ensures Apart(now, old(now), slot)
      ensures old(history) <= history
      ensures forall i :: |old(history)| <= i < |history| ==> Apart(history[i], old(now), slot)
    {
      if now.At(slot).Missing? {
        return Ok(());
      }
      var rest := now.At(slot).nodes.Keys;
      while rest != {}
        invariant old(history) <= history
        invariant now.At(slot).Directory?
        invariant Apart(now, old(now), slot)
        invariant forall i :: |old(history)| <= i < |history| ==> Apart(history[i], old(now), slot)
      {
        var fault := Fault();
        if fault.Some? {
          return Err(fault.value);
        }
        var path :| path in rest;
        rest := rest - {path};
        now := now.With(slot, Directory(now.At(slot).nodes - {path}));
        history := history + [now];
      }
      var fault := Fault();
      if fault.Some? {
        return Err(fault.value);
      }
      now := now.With(slot, Missing);
      history := history + [now];
      return Ok(());
    }

    /** `shutil.rmtree` of the temporary directory: its two parts in either order. */
    method RemoveTemporary() returns (r: Result<(), Failure>)
      requires now.staged.Directory? || now.staged.Missing?
      requires now.backup.Directory? || now.backup.Missing?
      modifies this`now, this`history
      ensures now.dest == old(now).dest && (old(now).backup.Missing? ==> now.backup.Missing?)
      ensures r.Ok? ==> now.staged.Missing? && now.backup.Missing?
      ensures r.Err? ==> mayFail
      ensures old(history) <= history
      ensures forall i | |old(history)| <= i < |history| :: history[i].dest == old(now).dest
    {
      var backupFirst: bool := *;
      if backupFirst {
        var gone :- RemoveTree(Backup);
        r := RemoveTree(Staged);
      } else {
        var gone :- RemoveTree(Staged);
        r := RemoveTree(Backup);
      }
    }
  }
}
