/**
  The manager's install command and mailbox (service/Netdesk.Agent.Manager/ManagerWorker.cs:500-679).
  The service controller is an adversary whose answers are given beforehand: a request may throw, a wait may
  time out, and the status is then whatever Windows reports. Killing processes and unloading the driver only
  ever log, so they do not appear.
 */
module ManagerInstall {
  import opened Common
  import opened DirectorySync

  datatype ServiceStatus = Stopped | Running | StartPending | StopPending

  datatype InstallResult = Success | StopFailed | FilesFailed | StartFailed

  /** The answer to a request to stop or start the service: granted, or the status it leaves if it is not. */
  datatype Reply = Reply(granted: bool, left: ServiceStatus)

  class Manager {
    const fs: FileSystem
    const replies: nat -> Reply
    var service: ServiceStatus
    var asked: nat

    constructor (fs: FileSystem, replies: nat -> Reply, service: ServiceStatus)
      ensures this.fs == fs && this.replies == replies && this.service == service && asked == 0
    {
      this.fs, this.replies, this.service, this.asked := fs, replies, service, 0;
    }

    /** A service that is stopped already is not asked. */
    method StopService() returns (ok: bool)
      modifies this`service, this`asked
      ensures ok <==> old(service).Stopped? || replies(old(asked)).granted
      ensures service == if ok then Stopped else replies(old(asked)).left
      ensures asked == if old(service).Stopped? then old(asked) else old(asked) + 1
    {
      if service.Stopped? {
        return true;
      }
      var reply := replies(asked);
      asked := asked + 1;
      ok := reply.granted;
      service := if ok then Stopped else reply.left; // WaitForStatus returned, or something threw
    }

    method StartService() returns (ok: bool)
      modifies this`service, this`asked
      ensures ok <==> old(service).Running? || replies(old(asked)).granted
      ensures service == if ok then Running else replies(old(asked)).left
      ensures asked == if old(service).Running? then old(asked) else old(asked) + 1
    {
      if service.Running? {
        return true;
      }
      var reply := replies(asked);
      asked := asked + 1;
      ok := reply.granted;
      service := if ok then Running else reply.left;
    }

    /** `started` says whether StartService was entered. */
    method ControlService(action: string) returns (ok: bool, started: bool)
      modifies this`service, this`asked
      ensures action == "stop" ==>
                && (ok <==> old(service).Stopped? || replies(old(asked)).granted)
                && asked == (if old(service).Stopped? then old(asked) else old(asked) + 1)
      ensures action == "start" ==>
                && (ok <==> old(service).Running? || replies(old(asked)).granted)
                && asked == (if old(service).Running? then old(asked) else old(asked) + 1)
      ensures action == "restart" ==>
                (ok <==> if old(service).Stopped? then replies(old(asked)).granted
                         else replies(old(asked)).granted && replies(old(asked) + 1).granted)
      ensures ok && action == "stop" ==> service.Stopped?
      ensures ok && (action == "start" || action == "restart") ==> service.Running? && started
      ensures action == "stop" ==> !started
      ensures action == "start" ==> started
      ensures action == "restart" ==> (started <==> old(service).Stopped? || replies(old(asked)).granted)
      ensures !ok ==> asked > old(asked) && service == replies(asked - 1).left
      ensures action !in ["start", "stop", "restart"] ==> ok && !started && service == old(service)
    {
      started := false;
      if action == "start" {
        started := true;
        ok := StartService();
      } else if action == "stop" {
        ok := StopService();
      } else if action == "restart" {
        ok := StopService();
        if ok {
          started := true;
          ok := StartService();
        }
      } else {
        ok := true;
      }
    }

    /** Stop the service, delete the install directory, copy the staging directory, start the service.
        There is no backup and no rollback. What success promises depends on the two paths: a staging
        directory at the install directory is itself deleted first, one above it can never be copied. */
    method InstallFiles(stagingDir: Path, installDir: Path) returns (result: InstallResult, startAttempted: bool)
      requires fs.Valid()
      modifies this`service, this`asked, fs`entries, fs`made, fs`copied, fs`deleted
      ensures fs.Valid()
      ensures result.StopFailed? <==> !StopGranted(old(service), replies, old(asked))
      ensures result.FilesFailed? <==>
              && StopGranted(old(service), replies, old(asked))
              && !(DeleteGranted(old(fs.entries), fs.deletes, old(fs.deleted), installDir) &&
                   CopyGranted(Cleared(old(fs.entries), installDir), stagingDir, installDir, fs.limit,
                               fs.makes, old(fs.made), fs.made, fs.copies, old(fs.copied), fs.copied))
      ensures result.Success? || result.StartFailed? ==>
                (result.Success? <==> replies(if old(service).Stopped? then old(asked) else old(asked) + 1).granted)
      ensures OnlyUnder(old(fs.entries), fs.entries, installDir)
      ensures result.StopFailed? ==> fs.entries == old(fs.entries)
      ensures result.StopFailed? || result.FilesFailed? ==> !startAttempted
      ensures result.FilesFailed? ==> service.Stopped?
      ensures result.FilesFailed? && DeleteGranted(old(fs.entries), fs.deletes, old(fs.deleted), installDir) &&
              !(stagingDir <= installDir) &&
              Fits(Cleared(old(fs.entries), installDir), stagingDir, installDir, fs.limit) ==>
                !Granted(fs.makes, old(fs.made), fs.made) || GivesUp(fs.copies, old(fs.copied), fs.copied)
      ensures result.Success? || result.StartFailed? ==>
                startAttempted &&
                (SameTree(old(fs.entries), stagingDir, fs.entries, installDir) <==>
                 !(stagingDir <= installDir) || EmptyDirectory(old(fs.entries), stagingDir))
      ensures stagingDir < installDir ==> result.StopFailed? || result.FilesFailed?
      ensures result.Success? ==> service.Running?
      ensures result.StopFailed? || result.StartFailed? ==> asked > old(asked) && service == replies(asked - 1).left
      ensures asked <= old(asked) + 2
    {
      hide WellFormed, OnlyUnder, IsOverlay, SameTree, Without, EmptyDirectory, NoFilesUnder, MadeDirectory;
      hide Fits, FitsItself, Granted, Finished, GivesUp, DeleteWorks;
      startAttempted := false;
      ghost var before := fs.entries;
      var stopped, nothing := ControlService("stop");
      if !stopped {
        NothingChanged(before, installDir);
        return StopFailed, false;
      }
      var deleted, attempts, sleeps := fs.DeleteDirectoryWithRetry(installDir);
      OutsideIsKept(before, fs.entries, installDir);
      NothingChanged(fs.entries, installDir);
      OnlyUnderTwice(before, fs.entries, fs.entries, installDir);
      if !deleted {
        return FilesFailed, false;
      }
      ghost var cleared := fs.entries;
      PathsCompare(before, cleared, stagingDir, installDir);
      var copied := fs.CopyDirectoryRecursive(stagingDir, installDir);
      OnlyUnderTwice(before, cleared, fs.entries, installDir);
      if !copied {
        return FilesFailed, false;
      }
      if stagingDir == installDir {
        InstalledOverItself(before, cleared, fs.entries, installDir);
      } else {
        PrefixOrNot(stagingDir, installDir);
        StagingIsApart(before, cleared, stagingDir, installDir);
        InstalledIsStaged(before, cleared, fs.entries, stagingDir, installDir);
      }
      var running: bool;
      running, startAttempted := ControlService("start");
      result := if running then Success else StartFailed;
    }
  }

  /** The service is stopped already, or stops when asked. */
  predicate StopGranted(service: ServiceStatus, replies: nat -> Reply, asked: nat) {
    service.Stopped? || replies(asked).granted
  }

  /** There is no such directory, or one of eight deletes removes it. */
  ghost predicate DeleteGranted(t: Tree, deletes: nat -> Answer, from: nat, dir: Path) {
    !IsDir(t, dir) || DeleteWorks(deletes, from, dir)
  }

  /** The tree without the directory. */
  function Cleared(t: Tree, dir: Path): Tree {
    if IsDir(t, dir) then Without(t, dir) else t
  }

  /** Nothing is in the way of the copy, every directory may be made, and the last file was copied. A directory
      cannot be copied into itself. */
  ghost predicate CopyGranted(t: Tree, src: Path, dst: Path, limit: nat, makes: nat -> bool, m0: nat, m1: nat,
                              copies: nat -> Answer, c0: nat, c1: nat)
  {
    && Granted(makes, m0, m1)
    && if src == dst then FitsItself(t, dst, limit)
       else !(src < dst) && Fits(t, src, dst, limit) && Finished(copies, c0, c1)
  }

  /** After the delete either the staging directory is apart, or it lies above, or it is the same. */
  lemma PathsCompare(before: Tree, cleared: Tree, staging: Path, dir: Path)
    requires WellFormed(cleared) && cleared == Cleared(before, dir) && !IsDir(cleared, dir)
    ensures staging == dir || staging < dir || Apart(cleared, staging, dir)
  {
    if staging != dir && !(staging < dir) {
      PrefixOrNot(staging, dir);
      StagingIsApart(before, cleared, staging, dir);
    }
  }

  /** A directory with nothing in it. */
  ghost predicate EmptyDirectory(t: Tree, dir: Path) {
    IsDir(t, dir) && forall p :: p in t ==> !(dir < p)
  }

  lemma PrefixOrNot(a: Path, b: Path)
    requires a != b && !(a < b)
    ensures !(a <= b)
  {
  }

  /** Nothing but the directory itself. */
  ghost predicate OnlyTheDirectory(t: Tree, dir: Path) {
    forall rel: Path :: At(t, dir + rel) == if rel == [] then Some(Dir) else None
  }

  lemma ClearedAndMade(cleared: Tree, after: Tree, dir: Path)
    requires WellFormed(cleared) && !IsDir(cleared, dir) && dir !in cleared
    requires MadeDirectory(cleared, after, dir)
    ensures OnlyTheDirectory(after, dir)
  {
    forall rel: Path
      ensures At(after, dir + rel) == if rel == [] then Some(Dir) else None
    {
      if rel != [] {
        NothingUnderAMissingEntry(cleared, dir, dir + rel);
        assert !(dir + rel <= dir);
      } else {
        assert dir + rel == dir;
      }
    }
  }

  lemma EmptyIsOnlyTheDirectory(t: Tree, dir: Path)
    ensures EmptyDirectory(t, dir) <==> OnlyTheDirectory(t, dir)
  {
    assert dir + [] == dir;
    if EmptyDirectory(t, dir) {
      forall rel: Path
        ensures At(t, dir + rel) == if rel == [] then Some(Dir) else None
      {
        assert rel != [] ==> dir < dir + rel;
      }
    }
    if OnlyTheDirectory(t, dir) {
      assert At(t, dir + []) == Some(Dir);
      forall p: Path | dir < p
        ensures p !in t
      {
        assert p == dir + p[|dir|..];
        assert At(t, dir + p[|dir|..]) == None;
      }
    }
  }

  /** Installing a directory over itself leaves it empty: a copy only of an empty one. */
  lemma InstalledOverItself(before: Tree, cleared: Tree, after: Tree, dir: Path)
    requires WellFormed(cleared)
    requires cleared == if IsDir(before, dir) then Without(before, dir) else before
    requires MadeDirectory(cleared, after, dir) && (dir in cleared ==> IsDir(cleared, dir))
    ensures SameTree(before, dir, after, dir) <==> EmptyDirectory(before, dir)
  {
    assert !IsDir(cleared, dir) && dir !in cleared;
    ClearedAndMade(cleared, after, dir);
    EmptyIsOnlyTheDirectory(before, dir);
    hide EmptyDirectory, MadeDirectory, WellFormed, Without;
    if SameTree(before, dir, after, dir) {
      forall rel: Path
        ensures At(before, dir + rel) == if rel == [] then Some(Dir) else None
      {
        assert At(after, dir + rel) == At(before, dir + rel);
      }
    }
  }

  lemma OutsideIsKept(before: Tree, after: Tree, dir: Path)
    requires Without(before, dir).Items <= after.Items <= before.Items
    ensures forall p: Path :: !(dir <= p) ==> At(after, p) == At(before, p)
    ensures forall p: Path :: p in after ==> p in before
  {
    ItemsBetween(before, after, dir);
    forall p: Path | !(dir <= p) ensures At(after, p) == At(before, p) {
      assert At(Without(after, dir), p) == At(Without(before, dir), p);
    }
    forall p: Path | p in after ensures p in before {
      assert (p, after[p]) in after.Items;
    }
  }

  lemma NothingChanged(t: Tree, dir: Path)
    ensures OnlyUnder(t, t, dir)
  {
  }

  lemma OnlyUnderTwice(before: Tree, cleared: Tree, after: Tree, dir: Path)
    requires forall p: Path :: !(dir <= p) ==> At(cleared, p) == At(before, p)
    requires OnlyUnder(cleared, after, dir)
    ensures OnlyUnder(before, after, dir)
  {
  }

  /** Once the install directory is gone, a staging directory inside it is gone too. */
  lemma StagingIsApart(before: Tree, cleared: Tree, staging: Path, dir: Path)
    requires WellFormed(cleared) && !(staging <= dir) && !IsDir(cleared, dir)
    ensures Apart(cleared, staging, dir)
  {
    if dir <= staging {
      assert dir < staging;
      NothingUnderAMissingEntry(cleared, dir, staging);
    }
  }

  lemma InstalledIsStaged(before: Tree, cleared: Tree, after: Tree, staging: Path, dir: Path)
    requires WellFormed(cleared) && !(staging <= dir) && !IsDir(cleared, dir) && IsDir(cleared, staging)
    requires forall p: Path :: !(dir <= p) ==> At(cleared, p) == At(before, p)
    requires IsOverlay(cleared, after, staging, dir) && (dir in cleared ==> IsDir(cleared, dir))
    ensures SameTree(before, staging, after, dir)
  {
    StagingIsApart(before, cleared, staging, dir);
    assert dir !in cleared;
    OverlayIntoAbsentIsACopy(cleared, after, staging, dir);
    forall rel: Path ensures At(after, dir + rel) == At(before, staging + rel) {
      SiblingsDiffer(staging, dir, rel);
    }
  }

  // ---------------------------------------------------------------- mailbox

  /** What one look into the mailbox meets: can the file be read (and parsed), and does the best-effort
      delete work? */
  datatype Look = Look(readable: bool, deletable: bool)

  class Mailbox {
    var file: Option<string>

    /** The file is removed before its command runs; a failing delete is swallowed. */
    method Dequeue(look: Look) returns (command: Option<string>)
      modifies this
      ensures command == if look.readable then old(file) else None
      ensures file == if look.deletable then None else old(file)
    {
      if file.None? {
        return None;
      }
      command := if look.readable then file else None;
      if look.deletable {
        file := None;
      }
    }

    /** Look after look, with no new command written meanwhile; `handled` counts the executions. */
    method LookAgain(looks: seq<Look>) returns (handled: nat)
      modifies this
      ensures handled == if old(file).Some? then TimesHandled(looks) else 0
      ensures file == if Stays(looks) then old(file) else None
    {
      handled := 0;
      for i := 0 to |looks|
        invariant handled == if old(file).Some? then TimesHandled(looks[..i]) else 0
        invariant file == if Stays(looks[..i]) then old(file) else None
      {
        assert looks[..i + 1][..i] == looks[..i];
        var command := Dequeue(looks[i]);
        if command.Some? {
          handled := handled + 1;
        }
      }
      assert looks[..|looks|] == looks;
    }
  }

  /** No look has deleted the file. */
  predicate Stays(looks: seq<Look>) {
    forall i :: 0 <= i < |looks| ==> !looks[i].deletable
  }

  /** How many of these looks hand out the one command that was written. */
  function TimesHandled(looks: seq<Look>): nat {
    if looks == [] then 0
    else
      var front, last := looks[..|looks| - 1], looks[|looks| - 1];
      TimesHandled(front) + if Stays(front) && last.readable then 1 else 0
  }

  /** The readable looks up to and including the first that deletes the file. */
  function ReadableUpToDeletion(looks: seq<Look>): set<nat> {
    set i: nat | i < |looks| && looks[i].readable && Stays(looks[..i])
  }

  lemma {:induction false} HandledUntilDeleted(looks: seq<Look>)
    ensures TimesHandled(looks) == |ReadableUpToDeletion(looks)|
  {
    if looks != [] {
      var front, last := looks[..|looks| - 1], looks[|looks| - 1];
      HandledUntilDeleted(front);
      assert forall i :: 0 <= i < |front| ==> looks[..i] == front[..i];
      assert looks[..|front|] == front;
      var more: set<nat> := if Stays(front) && last.readable then {|front|} else {};
      assert ReadableUpToDeletion(looks) == ReadableUpToDeletion(front) + more;
    }
  }

  /** A file that no look deletes is handed out at every readable look. */
  lemma {:induction false} NeverDeleted(looks: seq<Look>)
    requires Stays(looks)
    ensures TimesHandled(looks) == 0 <==> forall i :: 0 <= i < |looks| ==> !looks[i].readable
  {
    if looks != [] {
      var front, last := looks[..|looks| - 1], looks[|looks| - 1];
      NeverDeleted(front);
      assert looks == front + [last];
    }
  }

  /** Whenever two looks can read the file, some look before the second has deleted it. */
  ghost predicate DeletedBetweenReads(looks: seq<Look>) {
    forall i, j :: 0 <= i < j < |looks| && looks[i].readable && looks[j].readable ==> !Stays(looks[..j])
  }

  /** The promise "single-shot" is kept exactly when no look reads the file that an earlier look has
      read and none has deleted. */
  lemma {:induction false} AtMostOnceExactlyWhen(looks: seq<Look>)
    ensures TimesHandled(looks) <= 1 <==> DeletedBetweenReads(looks)
  {
    if looks != [] {
      var front, last := looks[..|looks| - 1], looks[|looks| - 1];
      AtMostOnceExactlyWhen(front);
      assert forall j :: 0 <= j < |front| ==> looks[..j] == front[..j] && looks[j] == front[j];
      assert looks[..|front|] == front && looks[|front|] == last;
      if Stays(front) {
        NeverDeleted(front);
      }
    }
  }

  /** And the command runs at all exactly when some look can read the file before any has deleted it. */
  lemma {:induction false} RunsExactlyWhen(looks: seq<Look>)
    ensures TimesHandled(looks) > 0 <==> exists i :: 0 <= i < |looks| && looks[i].readable && Stays(looks[..i])
  {
    if looks != [] {
      var front, last := looks[..|looks| - 1], looks[|looks| - 1];
      RunsExactlyWhen(front);
      assert forall i :: 0 <= i < |front| ==> looks[..i] == front[..i] && looks[i] == front[i];
      assert looks[..|front|] == front && looks[|front|] == last;
    }
  }

  /** Exactly once: both of these together. */
  lemma SingleShotExactlyWhen(looks: seq<Look>)
    ensures TimesHandled(looks) == 1 <==>
            && DeletedBetweenReads(looks)
            && exists i :: 0 <= i < |looks| && looks[i].readable && Stays(looks[..i])
  {
    AtMostOnceExactlyWhen(looks);
    RunsExactlyWhen(looks);
  }

  /** Two looks at a file that can be read and not deleted run the command twice. */
  lemma LockedFileRunsTwice()
    ensures TimesHandled([Look(true, false), Look(true, false)]) == 2
    ensures !DeletedBetweenReads([Look(true, false), Look(true, false)])
  {
    var looks := [Look(true, false), Look(true, false)];
    assert looks[..1] == [Look(true, false)];
    assert looks[..1][..0] == [];
    AtMostOnceExactlyWhen(looks);
  }
}
