/**
  Recursive copy and delete with retries (service/Netdesk.Agent.Manager/DirectorySync.cs).
  The file system is a map from absolute paths to entries. Locks, scanners and I/O errors are an adversary
  whose answers are given beforehand, one for each attempt: any attempt may fail, and a failed attempt may
  leave its own target half done.
 */
module DirectorySync {
  import opened Common

  type Path = seq<string>

  datatype Entry = File(content: int) | Dir

  type Tree = map<Path, Entry>

  /** What one call into the file system can end with; `Locked` is an IOException or UnauthorizedAccessException. */
  datatype Outcome = Done | Locked | Fatal

  /** What an attempt meets. A copy that fails may leave other contents in its target; a delete that fails may
      already have removed an entry with all that is under it. */
  datatype Answer = Answer(outcome: Outcome, spoilt: Option<int>, torn: Option<Path>)

  const MAX_RETRIES: nat := 8

  function At(t: Tree, p: Path): Option<Entry> {
    if p in t then Some(t[p]) else None
  }

  predicate IsDir(t: Tree, p: Path) { At(t, p) == Some(Dir) }

  /** Every entry but the root lies in a directory. */
  ghost predicate WellFormed(t: Tree) {
    forall p :: p in t && p != [] ==> IsDir(t, p[..|p| - 1])
  }

  /** The two trees agree outside `dir`, except that missing directories above `dir` may have been made. */
  ghost predicate OnlyUnder(before: Tree, after: Tree, dir: Path) {
    forall p: Path {:trigger At(after, p)} :: !(dir <= p) ==>
      At(after, p) == At(before, p) || (p <= dir && At(before, p).None? && At(after, p) == Some(Dir))
  }

  /** Below `dst` every entry of the source wins, and everything else stays. */
  ghost predicate IsOverlay(before: Tree, after: Tree, src: Path, dst: Path) {
    forall rel: Path :: At(after, dst + rel) == Over(before, src, dst, rel)
  }

  function Over(t: Tree, src: Path, dst: Path, rel: Path): Option<Entry> {
    if src + rel in t then Some(t[src + rel]) else At(t, dst + rel)
  }

  /** The directory `b` of the second tree is a copy of `a` of the first. */
  ghost predicate SameTree(t: Tree, a: Path, u: Tree, b: Path) {
    forall rel: Path :: At(u, b + rel) == At(t, a + rel)
  }

  function Without(t: Tree, dir: Path): Tree {
    map p | p in t && !(dir <= p) :: t[p]
  }

  lemma {:induction false} NothingUnderAMissingEntry(t: Tree, p: Path, q: Path)
    requires WellFormed(t) && !IsDir(t, p) && p < q
    ensures q !in t
    decreases |q|
  {
    var up := q[..|q| - 1];
    if |p| == |up| {
      assert p == up;
    } else {
      assert p < up;
      NothingUnderAMissingEntry(t, p, up);
    }
  }

  // ------------------------------------------------ properties of overlays

  /** Into an absent directory the overlay is a copy of the source. */
  lemma OverlayIntoAbsentIsACopy(before: Tree, after: Tree, src: Path, dst: Path)
    requires WellFormed(before) && IsOverlay(before, after, src, dst) && dst !in before && src in before
    ensures SameTree(before, src, after, dst)
  {
    forall rel: Path ensures At(after, dst + rel) == At(before, src + rel) {
      assert At(after, dst + rel) == Over(before, src, dst, rel);
      if rel != [] {
        NothingUnderAMissingEntry(before, dst, dst + rel);
      } else {
        assert src + rel == src;
      }
    }
  }

  /** The overlay determines the resulting tree: what is under `dst` and what is not. */
  lemma OverlayIsUnique(before: Tree, a: Tree, b: Tree, src: Path, dst: Path)
    requires IsOverlay(before, a, src, dst) && IsOverlay(before, b, src, dst)
    requires forall p :: !(dst <= p) ==> At(a, p) == At(b, p)
    ensures a == b
  {
    forall p: Path ensures At(a, p) == At(b, p) {
      if dst <= p {
        assert p == dst + p[|dst|..];
      }
    }
    assert forall p :: p in a <==> At(a, p).Some?;
    assert forall p :: p in b <==> At(b, p).Some?;
    assert forall p :: p in a ==> a[p] == At(a, p).value && p in b && b[p] == At(b, p).value;
  }

  /** Copying the same source once more changes nothing. */
  lemma OverlayTwiceIsOnce(before: Tree, after: Tree, src: Path, dst: Path)
    requires IsOverlay(before, after, src, dst) && OnlyUnder(before, after, dst)
    requires src in before && !(src <= dst) && !(dst <= src)
    ensures IsOverlay(after, after, src, dst)
  {
    forall rel: Path ensures At(after, dst + rel) == Over(after, src, dst, rel) {
      assert At(after, dst + rel) == Over(before, src, dst, rel);
      SiblingsDiffer(src, dst, rel);
      assert At(after, src + rel) == At(before, src + rel);
    }
  }

  lemma SiblingsDiffer(a: Path, b: Path, rel: Path)
    requires !(a <= b) && !(b <= a)
    ensures !(b <= a + rel) && !(a + rel <= b)
  {
    assert (a + rel)[..|a|] == a;
    if |b| <= |a| {
      assert (a + rel)[..|b|] == a[..|b|];
    }
  }

  lemma {:induction false} DirectoriesAbove(t: Tree, p: Path, q: Path)
    requires WellFormed(t) && q in t && p <= q
    ensures p in t && (p < q ==> IsDir(t, p))
    decreases |q|
  {
    if |p| == |q| - 1 {
      assert p == q[..|q| - 1];
    } else if |p| < |q| {
      assert p < q[..|q| - 1];
      DirectoriesAbove(t, p, q[..|q| - 1]);
    } else {
      assert p == q;
    }
  }

  // ------------------------------------------------- progress of one copy

  /** CopyDirectoryRecursive has dealt with the children named in `done` and with no other. */
  ghost predicate Progress(before: Tree, now: Tree, src: Path, dst: Path, done: set<string>) {
    && OnlyUnder(before, now, dst)
    && forall rel: Path :: At(now, dst + rel) == Expected(before, src, dst, done, rel)
  }

  function Expected(before: Tree, src: Path, dst: Path, done: set<string>, rel: Path): Option<Entry> {
    if rel == [] then Some(Dir)
    else if rel[0] in done then Over(before, src, dst, rel)
    else At(before, dst + rel)
  }

  ghost predicate Apart(t: Tree, src: Path, dst: Path) {
    !(src <= dst) && (dst <= src ==> src !in t)
  }

  /** Neither path lies at or above the other. */
  predicate Separate(src: Path, dst: Path) {
    !(src <= dst) && !(dst <= src)
  }

  ghost predicate NoFilesUnder(t: Tree, dir: Path) {
    forall p :: p in t && dir <= p ==> t[p].Dir?
  }

  /** The directories down to `dir` are there, and nothing else has changed. */
  ghost predicate MadeDirectory(before: Tree, after: Tree, dir: Path) {
    forall p: Path :: At(after, p) == if p <= dir then Some(Dir) else At(before, p)
  }

  // -------------------------------------------------- what the adversary's answers allow

  /** All the directories asked for in this part may be made. */
  ghost predicate Granted(makes: nat -> bool, from: nat, to: nat) {
    forall n :: from <= n < to ==> makes(n)
  }

  /** Of the attempts in this part, the last one worked; or there was none. */
  ghost predicate Finished(copies: nat -> Answer, from: nat, to: nat) {
    to == from || (to > from && copies(to - 1).outcome.Done?)
  }

  /** The attempts end with one that no retry follows: a fatal one, or the eighth in a row that was locked. */
  ghost predicate GivesUp(copies: nat -> Answer, from: nat, to: nat) {
    && to > from
    && (|| copies(to - 1).outcome.Fatal?
        || (to >= from + 8 && forall n :: to - 8 <= n < to ==> copies(n).outcome.Locked?))
  }

  /** One of eight deletes from here works, those before it are only locked, and none of these has removed the
      directory itself, so that there is something left to delete. */
  ghost predicate DeleteWorks(deletes: nat -> Answer, from: nat, path: Path) {
    exists n :: from <= n < from + 8 && deletes(n).outcome.Done? &&
                forall m :: from <= m < n ==> deletes(m).outcome.Locked? && deletes(m).torn != Some(path)
  }

  lemma GaveUp(copies: nat -> Answer, from: nat, middle: nat, to: nat)
    requires from <= middle <= to
    ensures GivesUp(copies, middle, to) ==> GivesUp(copies, from, to) && !Finished(copies, from, to)
  {
  }

  lemma OneMade(makes: nat -> bool, n: nat)
    ensures Granted(makes, n, n + 1) <==> makes(n)
  {
  }

  lemma NoneCopied(copies: nat -> Answer, n: nat)
    ensures Finished(copies, n, n) && !GivesUp(copies, n, n)
  {
  }

  lemma NothingMade(makes: nat -> bool, n: nat)
    ensures Granted(makes, n, n)
  {
  }

  lemma AllMade(makes: nat -> bool, from: nat, to: nat)
    requires from < to && makes(from)
    ensures Granted(makes, from, to) <==> Granted(makes, from + 1, to)
  {
  }

  lemma AllFinished(copies: nat -> Answer, from: nat, middle: nat, to: nat)
    requires from <= middle <= to
    ensures Finished(copies, from, middle) && Finished(copies, middle, to) ==> Finished(copies, from, to)
  {
  }

  /** One of eight copies from here works, and those before it are only locked. */
  ghost predicate CopyWorks(copies: nat -> Answer, from: nat) {
    exists n :: from <= n < from + 8 && copies(n).outcome.Done? &&
                forall m :: from <= m < n ==> copies(m).outcome.Locked?
  }

  lemma CopyWorksAt(copies: nat -> Answer, from: nat, n: nat)
    requires from <= n < from + 8 && forall m :: from <= m < n ==> copies(m).outcome.Locked?
    ensures copies(n).outcome.Done? ==> CopyWorks(copies, from)
    ensures copies(n).outcome.Fatal? || (copies(n).outcome.Locked? && n == from + 7) ==>
              !CopyWorks(copies, from) && GivesUp(copies, from, n + 1)
  {
    if !copies(n).outcome.Done? && CopyWorks(copies, from) {
      var k :| from <= k < from + 8 && copies(k).outcome.Done? &&
               forall m :: from <= m < k ==> copies(m).outcome.Locked?;
      assert k >= n;
      assert n < k ==> copies(n).outcome.Locked?;
    }
  }

  lemma DeleteWorksAt(deletes: nat -> Answer, from: nat, n: nat, path: Path)
    requires from <= n < from + 8
    requires forall m :: from <= m < n ==> deletes(m).outcome.Locked? && deletes(m).torn != Some(path)
    ensures deletes(n).outcome.Done? ==> DeleteWorks(deletes, from, path)
    ensures || deletes(n).outcome.Fatal?
            || (deletes(n).outcome.Locked? && (n == from + 7 || deletes(n).torn == Some(path))) ==>
              !DeleteWorks(deletes, from, path)
  {
    if !deletes(n).outcome.Done? && DeleteWorks(deletes, from, path) {
      var k :| from <= k < from + 8 && deletes(k).outcome.Done? &&
               forall m :: from <= m < k ==> deletes(m).outcome.Locked? && deletes(m).torn != Some(path);
      assert k >= n;
      assert n < k ==> deletes(n).outcome.Locked? && deletes(n).torn != Some(path);
    }
  }

  /** Removing a part of the directory is removing some of it, and all of it only if the part is the whole. */
  lemma PartRemoved(t: Tree, path: Path, part: Path)
    requires path <= part
    ensures Without(t, path).Items <= Without(t, part).Items <= t.Items
    ensures IsDir(Without(t, part), path) <==> IsDir(t, path) && part != path
  {
    forall p | p in t && part <= p
      ensures path <= p
    {
      assert path == part[..|path|] == p[..|path|];
    }
  }

  predicate CanCopy(t: Tree, src: Path, dst: Path) {
    src in t && t[src].File? && !IsDir(t, dst) && src != dst
  }

  /** Nothing but a refusal can prevent the copy of `src` to `dst`: the source is a directory, what is above the
      target is too, no path gets too long, and no file meets a directory of its name. */
  ghost predicate Fits(t: Tree, src: Path, dst: Path, limit: nat) {
    && IsDir(t, src) && |dst| <= limit
    && (forall p: Path :: p <= dst && p in t ==> t[p].Dir?)
    && (forall rel: Path :: src + rel in t ==> EntryFits(t, src, dst, limit, rel))
  }

  predicate EntryFits(t: Tree, src: Path, dst: Path, limit: nat, rel: Path)
    requires src + rel in t
  {
    && (t[src + rel].Dir? ==> |dst + rel| <= limit)
    && (dst + rel in t ==> (t[dst + rel].Dir? <==> t[src + rel].Dir?))
  }

  ghost predicate ChildFits(t: Tree, src: Path, dst: Path, limit: nat, name: string) {
    forall more: Path :: src + ([name] + more) in t ==> EntryFits(t, src, dst, limit, [name] + more)
  }

  /** A directory can be copied onto itself: there are only directories in and above it. */
  ghost predicate FitsItself(t: Tree, dir: Path, limit: nat) {
    && |dir| <= limit
    && (forall p: Path :: p <= dir && p in t ==> t[p].Dir?)
    && (forall p: Path :: dir <= p && p in t ==> t[p].Dir? && |p| <= limit)
  }

  lemma RootFits(t: Tree, src: Path, dst: Path, limit: nat)
    requires IsDir(t, src) && |dst| <= limit && (dst in t ==> t[dst].Dir?)
    ensures src + [] in t && EntryFits(t, src, dst, limit, [])
  {
    assert src + [] == src && dst + [] == dst;
  }

  lemma FitsByChildren(t: Tree, src: Path, dst: Path, limit: nat)
    requires IsDir(t, src) && |dst| <= limit && forall p: Path :: p <= dst && p in t ==> t[p].Dir?
    requires WellFormed(t)
    ensures Fits(t, src, dst, limit) <==> forall name :: src + [name] in t ==> ChildFits(t, src, dst, limit, name)
  {
    hide WellFormed, EntryFits;
    if forall name :: src + [name] in t ==> ChildFits(t, src, dst, limit, name) {
      forall rel: Path | src + rel in t
        ensures EntryFits(t, src, dst, limit, rel)
      {
        if rel == [] {
          RootFits(t, src, dst, limit);
        } else {
          assert rel == [rel[0]] + rel[1..];
          assert src + [rel[0]] <= src + rel;
          DirectoriesAbove(t, src + [rel[0]], src + rel);
        }
      }
    }
  }

  lemma FileFits(t: Tree, src: Path, dst: Path, limit: nat, name: string)
    requires WellFormed(t) && src + [name] in t && t[src + [name]].File?
    ensures ChildFits(t, src, dst, limit, name) <==> !IsDir(t, dst + [name])
  {
    hide WellFormed;
    assert [name] + [] == [name];
    forall more: Path | src + ([name] + more) in t
      ensures more == []
    {
      if more != [] {
        assert src + ([name] + more) == (src + [name]) + more;
        NothingUnderAMissingEntry(t, src + [name], src + ([name] + more));
      }
    }
  }

  lemma ChildrenUntouched(
    before: Tree, was: Tree, src: Path, dst: Path, name: string, done: set<string>, more: Path)
    requires Progress(before, was, src, dst, done) && !(src <= dst) && !(dst <= src) && name !in done
    ensures src + [name] + more == src + ([name] + more) && dst + [name] + more == dst + ([name] + more)
    ensures At(was, src + [name] + more) == At(before, src + ([name] + more))
    ensures At(was, dst + [name] + more) == At(before, dst + ([name] + more))
  {
    assert src + [name] + more == src + ([name] + more) && dst + [name] + more == dst + ([name] + more);
    SourceIsUntouched(before, was, src, dst, [name] + more);
    assert At(was, dst + ([name] + more)) == Expected(before, src, dst, done, [name] + more);
  }

  lemma SameFit(before: Tree, was: Tree, src: Path, dst: Path, limit: nat, name: string, more: Path)
    requires At(was, src + [name] + more) == At(before, src + ([name] + more))
    requires At(was, dst + [name] + more) == At(before, dst + ([name] + more))
    ensures src + [name] + more in was <==> src + ([name] + more) in before
    ensures src + [name] + more in was ==>
              (EntryFits(was, src + [name], dst + [name], limit, more) <==>
               EntryFits(before, src, dst, limit, [name] + more))
  {
    assert |dst + [name] + more| == |dst + ([name] + more)|;
  }

  lemma AncestorsAre(t: Tree, dst: Path, name: string)
    requires WellFormed(t) && IsDir(t, dst)
    ensures forall p: Path :: p <= dst + [name] && p in t && p != dst + [name] ==> t[p].Dir?
  {
    hide WellFormed;
    forall p: Path | p <= dst + [name] && p in t && p != dst + [name]
      ensures t[p].Dir?
    {
      ShorterPrefix(p, dst, name);
      DirectoriesAbove(t, p, dst);
      assert p < dst || p == dst;
    }
  }

  lemma ShorterPrefix(p: Path, dir: Path, name: string)
    requires p <= dir + [name] && p != dir + [name]
    ensures p <= dir
  {
    assert |p| <= |dir|;
    assert p == (dir + [name])[..|p|] == dir[..|p|];
  }

  lemma DirectoryFits(before: Tree, was: Tree, src: Path, dst: Path, limit: nat, name: string, done: set<string>)
    requires Progress(before, was, src, dst, done) && !(src <= dst) && !(dst <= src) && name !in done
    requires WellFormed(was) && IsDir(was, dst) && IsDir(before, src + [name])
    ensures Fits(was, src + [name], dst + [name], limit) <==> ChildFits(before, src, dst, limit, name)
  {
    hide WellFormed, Progress, EntryFits;
    AncestorsAre(was, dst, name);
    forall more: Path
      ensures src + [name] + more in was <==> src + ([name] + more) in before
      ensures src + [name] + more in was ==>
                (EntryFits(was, src + [name], dst + [name], limit, more) <==>
                 EntryFits(before, src, dst, limit, [name] + more))
    {
      ChildrenUntouched(before, was, src, dst, name, done, more);
      SameFit(before, was, src, dst, limit, name, more);
    }
    TopFits(before, was, src, dst, limit, name, done);
  }

  /** The child itself: if it fits, its target is within the limit and no file. */
  lemma TopFits(before: Tree, was: Tree, src: Path, dst: Path, limit: nat, name: string, done: set<string>)
    requires Progress(before, was, src, dst, done) && !(src <= dst) && !(dst <= src) && name !in done
    requires IsDir(before, src + [name])
    ensures IsDir(was, src + [name]) && src + ([name] + []) in before
    ensures EntryFits(before, src, dst, limit, [name] + []) ==>
              |dst + [name]| <= limit && (dst + [name] in was ==> was[dst + [name]].Dir?)
  {
    ChildrenUntouched(before, was, src, dst, name, done, []);
    assert src + [name] + [] == src + [name] && dst + [name] + [] == dst + [name];
  }

  /** How much deeper than `dir` directories can still be made. */
  function Room(limit: nat, dir: Path): nat {
    if |dir| <= limit then limit + 1 - |dir| else 0
  }

  lemma MadeNothing(t: Tree, dir: Path)
    ensures OnlyUnder(t, t, dir)
  {
  }

  lemma MadeOnlyUnder(before: Tree, after: Tree, dir: Path)
    requires MadeDirectory(before, after, dir) && forall p: Path :: p <= dir && p in before ==> before[p].Dir?
    ensures OnlyUnder(before, after, dir)
  {
  }

  lemma RemadeDirectory(before: Tree, after: Tree, dir: Path)
    requires WellFormed(before) && IsDir(before, dir) && MadeDirectory(before, after, dir)
    ensures after == before
  {
    forall p: Path
      ensures At(after, p) == At(before, p)
    {
      if p <= dir {
        DirectoriesAbove(before, p, dir);
        assert |p| == |dir| ==> p == dir;
      }
    }
    assert forall p :: p in after <==> At(after, p).Some?;
    assert forall p :: p in before <==> At(before, p).Some?;
    assert forall p :: p in after ==> after[p] == At(after, p).value && p in before && before[p] == At(before, p).value;
  }

  lemma ChildPath(dst: Path, name: string)
    ensures dst + [name] != [] && (dst + [name])[..|dst + [name]| - 1] == dst && dst != dst + [name]
    ensures !(dst + [name] <= dst)
  {
  }

  /** One level deeper, the source is still above the target. */
  lemma StillInside(src: Path, dst: Path, name: string)
    requires src < dst
    ensures name == dst[|src|] ==> src + [name] < dst + [name]
  {
  }

  lemma WritingAChild(before: Tree, was: Tree, now: Tree, dst: Path, name: string)
    requires OnlyUnder(before, was, dst) && IsDir(was, dst)
    requires forall p: Path :: p != dst + [name] ==> At(now, p) == At(was, p)
    ensures OnlyUnder(before, now, dst) && IsDir(now, dst)
  {
    ChildPath(dst, name);
  }

  lemma ChildrenOf(t: Tree, dir: Path, files: set<string>, dirs: set<string>)
    requires files == set p | p in t && |p| == |dir| + 1 && dir <= p && t[p].File? :: p[|dir|]
    requires dirs == set p | p in t && |p| == |dir| + 1 && dir <= p && t[p].Dir? :: p[|dir|]
    ensures forall name :: dir + [name] in t ==>
              (name in files <==> t[dir + [name]].File?) && (name in dirs <==> t[dir + [name]].Dir?)
    ensures forall name :: name in files || name in dirs ==> dir + [name] in t
    ensures files !! dirs
  {
    forall p | p in t && |p| == |dir| + 1 && dir <= p
      ensures p == dir + [p[|dir|]]
    {
    }
    forall name | dir + [name] in t
      ensures name in files <==> t[dir + [name]].File?
      ensures name in dirs <==> t[dir + [name]].Dir?
    {
      var p := dir + [name];
      assert dir <= p && p[|dir|] == name;
    }
  }

  /** Copied onto itself without failing, a directory had no file in it. */
  lemma NoFilesAnywhere(before: Tree, made: Tree, src: Path, files: set<string>, dirs: set<string>)
    requires WellFormed(before) && WellFormed(made) && MadeDirectory(before, made, src)
    requires forall p: Path :: p <= src && p in before ==> before[p].Dir?
    requires forall name :: src + [name] in made ==> name in files || name in dirs
    requires files == {} && forall name :: name in dirs ==> NoFilesUnder(made, src + [name])
    ensures NoFilesUnder(before, src)
  {
    forall p | p in before && src <= p
      ensures before[p].Dir?
    {
      if src < p {
        assert !(p <= src);
        assert At(made, p) == At(before, p);
        var child := src + [p[|src|]];
        assert child <= p;
        DirectoriesAbove(made, child, p);
        assert NoFilesUnder(made, src + [p[|src|]]);
      }
    }
  }

  lemma CannotStart(t: Tree, src: Path, dst: Path, limit: nat)
    ensures |dst| > limit || (exists p: Path :: p <= dst && p in t && t[p].File?) ==>
              !Fits(t, src, dst, limit) && !FitsItself(t, dst, limit)
  {
  }

  lemma MadeNow(before: Tree, made: Tree, dst: Path)
    requires forall p: Path :: At(made, p) == if p <= dst then Some(Dir) else At(before, p)
    requires forall p: Path :: p <= dst && p in before ==> before[p].Dir?
    ensures IsDir(made, dst) && OnlyUnder(before, made, dst) && MadeDirectory(before, made, dst)
    ensures dst in before ==> IsDir(before, dst)
  {
    MadeOnlyUnder(before, made, dst);
  }

  lemma SourceIsMissing(before: Tree, made: Tree, src: Path, dst: Path, limit: nat)
    requires MadeDirectory(before, made, dst) && !IsDir(made, src)
    ensures !Fits(before, src, dst, limit)
  {
    assert At(made, src) == if src <= dst then Some(Dir) else At(before, src);
  }

  lemma FitsByFilesAndDirectories(
    before: Tree, made: Tree, src: Path, dst: Path, limit: nat, files: set<string>, dirs: set<string>)
    requires WellFormed(before) && MadeDirectory(before, made, dst) && !(src <= dst) && IsDir(made, src)
    requires |dst| <= limit && forall p: Path :: p <= dst && p in before ==> before[p].Dir?
    requires forall name :: name in files ==> src + [name] in before && before[src + [name]].File?
    requires forall name :: name in dirs ==> IsDir(before, src + [name])
    requires forall name :: src + [name] in before ==> name in files || name in dirs
    ensures Fits(before, src, dst, limit) <==>
            && (forall name :: name in files ==> !IsDir(before, dst + [name]))
            && (forall name :: name in dirs ==> ChildFits(before, src, dst, limit, name))
  {
    hide WellFormed, ChildFits, Fits;
    assert At(made, src) == At(before, src);
    FitsByChildren(before, src, dst, limit);
    forall name | name in files
      ensures ChildFits(before, src, dst, limit, name) <==> !IsDir(before, dst + [name])
    {
      FileFits(before, src, dst, limit, name);
    }
  }

  lemma SameBelow(before: Tree, made: Tree, dir: Path, p: Path)
    requires MadeDirectory(before, made, dir) && dir < p
    ensures p in made <==> p in before
    ensures p in made ==> made[p] == before[p]
  {
    assert At(made, p) == At(before, p);
  }

  lemma EntryBelow(before: Tree, made: Tree, dir: Path, limit: nat, dirs: set<string>, p: Path)
    requires WellFormed(made) && MadeDirectory(before, made, dir) && p in before && dir < p
    requires dir + [p[|dir|]] in made ==> p[|dir|] in dirs
    requires forall name :: name in dirs ==> FitsItself(made, dir + [name], limit)
    ensures before[p].Dir? && |p| <= limit
  {
    hide WellFormed, MadeDirectory;
    SameBelow(before, made, dir, p);
    var child := dir + [p[|dir|]];
    assert child <= p;
    DirectoriesAbove(made, child, p);
    assert FitsItself(made, dir + [p[|dir|]], limit);
  }

  lemma FitsItselfByChildren(
    before: Tree, made: Tree, dir: Path, limit: nat, files: set<string>, dirs: set<string>)
    requires WellFormed(made) && MadeDirectory(before, made, dir)
    requires |dir| <= limit && forall p: Path :: p <= dir && p in before ==> before[p].Dir?
    requires forall name :: dir + [name] in made ==> (name in files <==> made[dir + [name]].File?)
    requires forall name :: dir + [name] in made ==> (name in dirs <==> made[dir + [name]].Dir?)
    requires forall name :: name in files || name in dirs ==> dir + [name] in made
    ensures FitsItself(before, dir, limit) <==>
            files == {} && forall name :: name in dirs ==> FitsItself(made, dir + [name], limit)
  {
    if FitsItself(before, dir, limit) {
      hide WellFormed, MadeDirectory, FitsItself;
      forall name
        ensures name !in files
        ensures name in dirs ==> FitsItself(made, dir + [name], limit)
      {
        if dir + [name] in made {
          ChildFitsItself(before, made, dir, limit, name);
        }
      }
    }
    if files == {} && forall name :: name in dirs ==> FitsItself(made, dir + [name], limit) {
      hide WellFormed, MadeDirectory;
      forall p: Path | dir <= p && p in before
        ensures before[p].Dir? && |p| <= limit
      {
        if dir < p {
          EntryBelow(before, made, dir, limit, dirs, p);
        }
      }
    }
  }

  lemma ChildFitsItself(before: Tree, made: Tree, dir: Path, limit: nat, name: string)
    requires FitsItself(before, dir, limit) && MadeDirectory(before, made, dir)
    requires dir + [name] in made
    ensures FitsItself(made, dir + [name], limit) && made[dir + [name]].Dir?
  {
    assert dir < dir + [name];
    forall p: Path | p <= dir + [name] && p in made
      ensures made[p].Dir?
    {
      assert At(made, p) == if p <= dir then Some(Dir) else At(before, p);
      if p != dir + [name] {
        ShorterPrefix(p, dir, name);
      }
    }
    forall p: Path | dir + [name] <= p && p in made
      ensures made[p].Dir? && |p| <= limit
    {
      ParentIsPrefix(dir, name, p);
      assert At(made, p) == if p <= dir then Some(Dir) else At(before, p);
    }
    assert At(made, dir + [name]) == At(before, dir + [name]);
  }

  /** Below a source that holds its own target there is a subdirectory towards the target. */
  lemma TargetIsInside(made: Tree, src: Path, dst: Path, dirs: set<string>)
    requires WellFormed(made) && src < dst && IsDir(made, dst)
    requires forall name :: src + [name] in made ==> (name in dirs <==> made[src + [name]].Dir?)
    ensures dst[|src|] in dirs
  {
    var child := src + [dst[|src|]];
    assert child <= dst;
    assert |child| == |dst| ==> child == dst;
    DirectoriesAbove(made, child, dst);
  }

  lemma SourceIsUntouched(before: Tree, now: Tree, src: Path, dst: Path, rel: Path)
    requires OnlyUnder(before, now, dst) && !(src <= dst) && !(dst <= src)
    ensures At(now, src + rel) == At(before, src + rel)
  {
    SiblingsDiffer(src, dst, rel);
  }

  lemma TargetIsUntouched(before: Tree, now: Tree, src: Path, dst: Path, done: set<string>, name: string)
    requires Progress(before, now, src, dst, done) && name !in done
    ensures At(now, dst + [name]) == At(before, dst + [name])
  {
    assert At(now, dst + [name]) == Expected(before, src, dst, done, [name]);
  }

  lemma ProgressStart(before: Tree, now: Tree, src: Path, dst: Path)
    requires WellFormed(before) && Apart(before, src, dst)
    requires forall p: Path :: At(now, p) == if p <= dst then Some(Dir) else At(before, p)
    requires forall p: Path :: p <= dst && p in before ==> before[p].Dir?
    ensures Progress(before, now, src, dst, {})
  {
    forall rel: Path ensures At(now, dst + rel) == Expected(before, src, dst, {}, rel) {
      assert rel != [] ==> !(dst + rel <= dst);
    }
  }

  lemma ProgressFile(before: Tree, was: Tree, now: Tree, src: Path, dst: Path, name: string, done: set<string>)
    requires WellFormed(before) && Progress(before, was, src, dst, done)
    requires src + [name] in before && before[src + [name]].File? && name !in done
    requires forall p: Path :: p != dst + [name] ==> At(now, p) == At(was, p)
    requires At(now, dst + [name]) == At(before, src + [name])
    requires !IsDir(was, dst + [name])
    ensures Progress(before, now, src, dst, done + {name})
  {
    hide WellFormed;
    forall rel: Path ensures At(now, dst + rel) == Expected(before, src, dst, done + {name}, rel) {
      assert At(was, dst + rel) == Expected(before, src, dst, done, rel);
      if rel != [] && rel[0] == name {
        assert rel == [name] + rel[1..];
        if rel == [name] {
          assert dst + rel == dst + [name];
        } else {
          assert src + rel == (src + [name]) + rel[1..];
          NothingUnderAMissingEntry(before, src + [name], src + rel);
          assert dst + rel != dst + [name];
        }
      } else {
        assert rel != [] ==> (dst + rel)[|dst|] != name;
        assert dst + rel != dst + [name];
      }
    }
  }

  lemma ProgressDir(before: Tree, was: Tree, now: Tree, src: Path, dst: Path, name: string, done: set<string>)
    requires WellFormed(before) && WellFormed(was) && Progress(before, was, src, dst, done)
    requires !(src <= dst) && !(dst <= src) && name !in done
    requires IsOverlay(was, now, src + [name], dst + [name]) && OnlyUnder(was, now, dst + [name])
    ensures Progress(before, now, src, dst, done + {name})
  {
    ProgressRoot(before, was, src, dst, done);
    OnlyUnderChild(before, was, now, dst, name);
    forall rel: Path ensures At(now, dst + rel) == Expected(before, src, dst, done + {name}, rel) {
      if rel != [] && rel[0] == name {
        CopiedChild(before, was, now, src, dst, name, done, rel[1..]);
        assert rel == [name] + rel[1..];
      } else {
        OtherChild(before, was, now, src, dst, name, done, rel);
      }
    }
  }

  lemma CopiedChild(
    before: Tree, was: Tree, now: Tree, src: Path, dst: Path, name: string, done: set<string>, more: Path)
    requires Progress(before, was, src, dst, done) && !(src <= dst) && !(dst <= src) && name !in done
    requires IsOverlay(was, now, src + [name], dst + [name])
    ensures At(now, dst + ([name] + more)) == Over(before, src, dst, [name] + more)
  {
    var rel := [name] + more;
    assert At(was, dst + rel) == Expected(before, src, dst, done, rel);
    assert dst + rel == (dst + [name]) + more;
    assert src + rel == (src + [name]) + more;
    assert At(now, (dst + [name]) + more) == Over(was, src + [name], dst + [name], more);
    SourceIsUntouched(before, was, src, dst, rel);
  }

  lemma OtherChild(before: Tree, was: Tree, now: Tree, src: Path, dst: Path, name: string, done: set<string>, rel: Path)
    requires Progress(before, was, src, dst, done) && (rel != [] ==> rel[0] != name)
    requires forall p: Path :: !(dst + [name] <= p) ==> At(now, p) == At(was, p)
    ensures At(now, dst + rel) == Expected(before, src, dst, done + {name}, rel)
  {
    assert At(was, dst + rel) == Expected(before, src, dst, done, rel);
    if rel != [] {
      assert (dst + rel)[|dst|] != name;
    }
    assert !(dst + [name] <= dst + rel);
  }

  lemma OnlyUnderChild(before: Tree, was: Tree, now: Tree, dst: Path, name: string)
    requires WellFormed(was) && OnlyUnder(before, was, dst) && IsDir(was, dst) && OnlyUnder(was, now, dst + [name])
    ensures OnlyUnder(before, now, dst)
    ensures forall p: Path :: !(dst + [name] <= p) ==> At(now, p) == At(was, p)
  {
    forall p: Path | !(dst + [name] <= p) ensures At(now, p) == At(was, p) {
      if p <= dst + [name] {
        assert p <= dst;
        DirectoriesAbove(was, p, dst);
      }
    }
    forall p: Path | !(dst <= p)
      ensures At(now, p) == At(before, p) || (p <= dst && At(before, p).None? && At(now, p) == Some(Dir))
    {
      if dst + [name] <= p {
        ParentIsPrefix(dst, name, p);
      }
    }
  }

  lemma ParentIsPrefix(dir: Path, name: string, p: Path)
    requires dir + [name] <= p
    ensures dir <= p
  {
    assert dir == (dir + [name])[..|dir|] == p[..|dir|];
  }

  lemma ProgressRoot(before: Tree, now: Tree, src: Path, dst: Path, done: set<string>)
    requires Progress(before, now, src, dst, done)
    ensures IsDir(now, dst) && OnlyUnder(before, now, dst)
  {
    assert At(now, dst + []) == Expected(before, src, dst, done, []);
    assert dst + [] == dst;
  }

  lemma ProgressEnd(before: Tree, now: Tree, src: Path, dst: Path, done: set<string>)
    requires WellFormed(before) && Progress(before, now, src, dst, done) && IsDir(before, src)
    requires forall name :: src + [name] in before ==> name in done
    ensures IsOverlay(before, now, src, dst)
  {
    forall rel: Path ensures At(now, dst + rel) == Over(before, src, dst, rel) {
      assert At(now, dst + rel) == Expected(before, src, dst, done, rel);
      if rel == [] {
        assert src + rel == src;
      } else if rel[0] !in done && src + rel in before {
        var child := src + [rel[0]];
        assert child <= src + rel;
        DirectoriesAbove(before, child, src + rel);
      }
    }
  }

  // ----------------------------------------------------------- the machine

  class FileSystem {
    const limit: nat   // the longest path the system accepts
    const makes: nat -> bool      // its answers, request by request, to making a directory,
    const copies: nat -> Answer   // copying a file
    const deletes: nat -> Answer  // and deleting a directory
    var entries: Tree
    var made: nat      // how many of each there have been
    var copied: nat
    var deleted: nat

    constructor (limit: nat, makes: nat -> bool, copies: nat -> Answer, deletes: nat -> Answer, entries: Tree)
      ensures this.limit == limit && this.makes == makes && this.copies == copies && this.deletes == deletes
      ensures this.entries == entries && made == copied == deleted == 0
    {
      this.limit, this.makes, this.copies, this.deletes := limit, makes, copies, deletes;
      this.entries, made, copied, deleted := entries, 0, 0, 0;
    }

    ghost predicate Valid() reads this { WellFormed(entries) }

    /** Directory.CreateDirectory: makes the missing directories down to `path`, or throws. */
    method CreateDirectory(path: Path) returns (ok: bool)
      requires Valid()
      modifies this`entries, this`made
      ensures Valid() && made == old(made) + 1
      ensures ok <==> makes(old(made)) && |path| <= limit && forall p: Path :: p <= path && p in old(entries) ==>
                                                               old(entries)[p].Dir?
      ensures !ok ==> entries == old(entries)
      ensures ok ==> forall p: Path :: At(entries, p) == if p <= path then Some(Dir) else old(At(entries, p))
    {
      var refused := !makes(made);
      made := made + 1;
      var above := set n | 0 <= n <= |path| :: path[..n];
      forall p: Path ensures p in above <==> p <= path {
        if p <= path {
          assert p == path[..|p|];
        }
      }
      if refused || |path| > limit || exists p :: p in above && p in entries && entries[p].File? {
        return false;
      }
      ghost var was := entries;
      entries := map p | p in entries.Keys + above :: if p in above then Dir else entries[p];
      forall p | p in entries && p != [] ensures IsDir(entries, p[..|p| - 1]) {
        if p <= path {
          assert p[..|p| - 1] <= path;
          assert p[..|p| - 1] in above;
        } else {
          assert IsDir(was, p[..|p| - 1]);
        }
      }
      return true;
    }

    /** One File.Copy(source, dest, overwrite: true). */
    method TryCopy(src: Path, dst: Path) returns (outcome: Outcome)
      requires Valid() && dst != [] && IsDir(entries, dst[..|dst| - 1])
      modifies this`entries, this`copied
      ensures Valid() && copied == old(copied) + 1
      ensures outcome == if CanCopy(old(entries), src, dst) then copies(old(copied)).outcome else Locked
      ensures forall p: Path :: p != dst ==> At(entries, p) == old(At(entries, p))
      ensures At(entries, dst) == Some(Dir) <==> old(At(entries, dst)) == Some(Dir)
      ensures outcome.Done? ==> At(entries, dst) == old(At(entries, src))
      ensures !outcome.Done? ==>
                At(entries, dst) == if CanCopy(old(entries), src, dst) && copies(old(copied)).spoilt.Some?
                                    then Some(File(copies(old(copied)).spoilt.value)) else old(At(entries, dst))
    {
      var answer := copies(copied);
      copied := copied + 1;
      if !(src in entries && entries[src].File?) || IsDir(entries, dst) || src == dst {
        return Locked; // a file cannot be copied onto itself
      }
      outcome := answer.outcome;
      if outcome.Done? {
        SetFile(dst, entries[src].content);
      } else if answer.spoilt.Some? {
        SetFile(dst, answer.spoilt.value);
      }
    }

    method SetFile(dst: Path, content: int)
      requires Valid() && dst != [] && IsDir(entries, dst[..|dst| - 1]) && !IsDir(entries, dst)
      modifies this`entries
      ensures Valid() && entries == old(entries)[dst := File(content)]
    {
      ghost var was := entries;
      entries := entries[dst := File(content)];
      forall p | p in entries && p != [] ensures IsDir(entries, p[..|p| - 1]) {
        assert IsDir(was, p[..|p| - 1]);
      }
    }

    /** One Directory.Delete(path, recursive: true); a failure may already have removed some of it. */
    method TryDelete(path: Path) returns (outcome: Outcome)
      requires Valid()
      modifies this`entries, this`deleted
      ensures Valid() && deleted == old(deleted) + 1
      ensures outcome == if IsDir(old(entries), path) then deletes(old(deleted)).outcome else Locked
      ensures outcome.Done? ==> entries == Without(old(entries), path)
      ensures !outcome.Done? ==> Without(old(entries), path).Items <= entries.Items <= old(entries).Items
      ensures !outcome.Done? ==>
                (IsDir(entries, path) <==> IsDir(old(entries), path) && deletes(old(deleted)).torn != Some(path))
    {
      var answer := deletes(deleted);
      deleted := deleted + 1;
      if !IsDir(entries, path) {
        return Locked;
      }
      outcome := answer.outcome;
      if outcome.Done? {
        RemoveUnder(path);
        assert forall p :: p in entries <==> p in Without(old(entries), path);
      } else if answer.torn.Some? && path <= answer.torn.value {
        PartRemoved(entries, path, answer.torn.value);
        RemoveUnder(answer.torn.value);
      }
    }

    method RemoveUnder(path: Path)
      requires Valid()
      modifies this`entries
      ensures Valid() && entries == Without(old(entries), path)
    {
      ghost var was := entries;
      entries := map p | p in entries && !(path <= p) :: entries[p];
      forall p | p in entries && p != [] ensures IsDir(entries, p[..|p| - 1]) {
        assert IsDir(was, p[..|p| - 1]);
        assert p[..|p| - 1] <= p;
        assert !(path <= p[..|p| - 1]);
      }
    }

    /** CopyFileWithRetry: at most eight attempts with a sleep between two of them. */
    method CopyFileWithRetry(src: Path, dst: Path) returns (ok: bool, attempts: nat, sleeps: nat)
      requires Valid() && dst != [] && IsDir(entries, dst[..|dst| - 1])
      modifies this`entries, this`copied
      ensures Valid()
      ensures forall p: Path :: p != dst ==> At(entries, p) == old(At(entries, p))
      ensures IsDir(entries, dst) <==> old(IsDir(entries, dst))
      ensures ok ==>
                && src != dst && src in old(entries) && old(entries)[src].File?
                && At(entries, dst) == old(At(entries, src))
      ensures 1 <= attempts <= 8 && sleeps == attempts - 1 && copied == old(copied) + attempts
      ensures ok <==> CanCopy(old(entries), src, dst) && CopyWorks(copies, old(copied))
      ensures ok ==> Finished(copies, old(copied), copied)
      ensures !ok && CanCopy(old(entries), src, dst) ==> GivesUp(copies, old(copied), copied)
      ensures !CanCopy(old(entries), src, dst) ==> attempts == 8
    {
      hide CopyWorks, GivesUp, WellFormed;
      attempts, sleeps := 1, 0;
      while attempts <= MAX_RETRIES
        invariant 1 <= attempts <= MAX_RETRIES && sleeps == attempts - 1 && copied == old(copied) + attempts - 1
        invariant CanCopy(entries, src, dst) <==> CanCopy(old(entries), src, dst)
        invariant src != dst ==> At(entries, src) == old(At(entries, src))
        invariant CanCopy(old(entries), src, dst) ==>
                    forall m :: old(copied) <= m < copied ==> copies(m).outcome.Locked?
        invariant Valid() && IsDir(entries, dst[..|dst| - 1])
        invariant forall p: Path :: p != dst ==> At(entries, p) == old(At(entries, p))
        invariant IsDir(entries, dst) <==> old(IsDir(entries, dst))
      {
        var outcome := TryCopy(src, dst);
        if CanCopy(old(entries), src, dst) {
          CopyWorksAt(copies, old(copied), copied - 1);
        }
        if outcome.Done? {
          return true, attempts, sleeps;
        }
        if outcome.Locked? && attempts < MAX_RETRIES {
          sleeps := sleeps + 1;
        } else {
          return false, attempts, sleeps;
        }
        attempts := attempts + 1;
      }
      assert false; // the File.Copy after the loop is never reached
    }

    /** CopyDirectoryRecursive: create the target, copy the files, then descend into the subdirectories.
        Unless the paths overlap, success is the overlay; a directory is never copied into itself; and onto
        itself only if there is no file in it, with no effect. */
    method CopyDirectoryRecursive(src: Path, dst: Path) returns (ok: bool)
      requires Valid()
      modifies this`entries, this`made, this`copied
      ensures Valid() && OnlyUnder(old(entries), entries, dst)
      ensures old(made) < made && old(copied) <= copied && (ok ==> Granted(makes, old(made), made))
      ensures Apart(old(entries), src, dst) ==>
                (ok <==>
                 && Fits(old(entries), src, dst, limit)
                 && Granted(makes, old(made), made) && Finished(copies, old(copied), copied))
      ensures Apart(old(entries), src, dst) && !ok ==>
                || !Fits(old(entries), src, dst, limit)
                || !Granted(makes, old(made), made) || GivesUp(copies, old(copied), copied)
      ensures src == dst ==> (ok <==> FitsItself(old(entries), src, limit) && Granted(makes, old(made), made))
      ensures ok ==> IsDir(entries, dst) && (dst in old(entries) ==> IsDir(old(entries), dst))
      ensures ok && Apart(old(entries), src, dst) ==>
                IsDir(old(entries), src) && IsOverlay(old(entries), entries, src, dst)
      ensures src < dst ==> !ok
      ensures ok && src == dst ==> NoFilesUnder(old(entries), src) && MadeDirectory(old(entries), entries, dst)
      decreases Room(limit, dst), 2
    {
      hide WellFormed, OnlyUnder, Progress, IsOverlay, Fits, FitsItself, MadeDirectory, NoFilesUnder;
      hide Granted, Finished, GivesUp;
      ghost var before := entries;
      ok := CreateDirectory(dst);
      OneMade(makes, old(made));
      NoneCopied(copies, copied);
      if !ok {
        MadeNothing(before, dst);
        CannotStart(before, src, dst, limit);
        return false;
      }
      MadeNow(before, entries, dst);
      if Apart(before, src, dst) {
        ProgressStart(before, entries, src, dst);
        SourceStillMissing(before, entries, src, dst);
      }
      if !IsDir(entries, src) {
        SourceIsMissing(before, entries, src, dst, limit);
        return false; // GetFiles throws
      }
      ok := CopyContents(src, dst, before);
      AllMade(makes, old(made), made);
    }

    /** Both loops of CopyDirectoryRecursive; the target has been made, and the source is there. */
    method CopyContents(src: Path, dst: Path, ghost before: Tree) returns (ok: bool)
      requires Valid() && WellFormed(before) && MadeDirectory(before, entries, dst) && OnlyUnder(before, entries, dst)
      requires IsDir(entries, dst) && IsDir(entries, src) && |dst| <= limit
      requires forall p: Path :: p <= dst && p in before ==> before[p].Dir?
      requires Separate(src, dst) ==> Progress(before, entries, src, dst, {})
      modifies this`entries, this`made, this`copied
      ensures Valid() && OnlyUnder(before, entries, dst) && IsDir(entries, dst)
      ensures old(made) <= made && old(copied) <= copied && (ok ==> Granted(makes, old(made), made))
      ensures Separate(src, dst) ==>
                (ok <==>
                 && Fits(before, src, dst, limit)
                 && Granted(makes, old(made), made) && Finished(copies, old(copied), copied))
      ensures Separate(src, dst) && !ok ==>
                || !Fits(before, src, dst, limit)
                || !Granted(makes, old(made), made) || GivesUp(copies, old(copied), copied)
      ensures src == dst ==> (ok <==> FitsItself(before, src, limit) && Granted(makes, old(made), made))
      ensures ok && Separate(src, dst) ==> IsDir(before, src) && IsOverlay(before, entries, src, dst)
      ensures src < dst ==> !ok
      ensures ok && src == dst ==> NoFilesUnder(before, src) && entries == old(entries)
      decreases Room(limit, dst), 1
    {
      hide WellFormed, OnlyUnder, Progress, IsOverlay, Fits, FitsItself, ChildFits, MadeDirectory, NoFilesUnder;
      hide Granted, Finished, GivesUp;
      ghost var start := entries;
      var files := set p | p in entries && |p| == |src| + 1 && src <= p && entries[p].File? :: p[|src|];
      var dirs := set p | p in entries && |p| == |src| + 1 && src <= p && entries[p].Dir? :: p[|src|];
      ChildrenOf(start, src, files, dirs);
      if Separate(src, dst) {
        SourceIsUntouched(before, start, src, dst, []);
        assert src + [] == src;
        ChildNames(before, start, src, dst, files, dirs);
        FitsByFilesAndDirectories(before, start, src, dst, limit, files, dirs);
      } else if src == dst {
        FitsItselfByChildren(before, start, src, limit, files, dirs);
      }
      NothingMade(makes, made);
      ok := CopyFiles(src, dst, files, before);
      ghost var middle := copied;
      if !ok {
        GaveUp(copies, old(copied), old(copied), copied);
        return false;
      }
      ok := CopySubdirectories(src, dst, dirs, before, files);
      if !ok {
        GaveUp(copies, old(copied), middle, copied);
        return false;
      }
      AllFinished(copies, old(copied), middle, copied);
      if Separate(src, dst) {
        ProgressEnd(before, entries, src, dst, files + dirs);
      } else if src == dst {
        NoFilesAnywhere(before, start, src, files, dirs);
      } else if src < dst {
        TargetIsInside(start, src, dst, dirs);
      }
    }

    /** The first foreach of CopyDirectoryRecursive. */
    method CopyFiles(src: Path, dst: Path, files: set<string>, ghost before: Tree) returns (ok: bool)
      requires Valid() && WellFormed(before) && OnlyUnder(before, entries, dst) && IsDir(entries, dst)
      requires Separate(src, dst) ==> Progress(before, entries, src, dst, {})
      requires Separate(src, dst) ==>
                 forall name :: name in files ==> src + [name] in before && before[src + [name]].File?
      modifies this`entries, this`copied
      ensures Valid() && OnlyUnder(before, entries, dst) && IsDir(entries, dst)
      ensures old(copied) <= copied
      ensures ok && Separate(src, dst) ==> Progress(before, entries, src, dst, files)
      ensures ok && Separate(src, dst) ==>
                Finished(copies, old(copied), copied) && forall name :: name in files ==> !IsDir(before, dst + [name])
      ensures !ok && Separate(src, dst) ==>
                GivesUp(copies, old(copied), copied) || exists name :: name in files && IsDir(before, dst + [name])
      ensures src == dst ==> (ok <==> files == {})
      ensures ok && src == dst ==> entries == old(entries)
    {
      hide WellFormed, Progress, OnlyUnder;
      var left := files;
      assert files - left == {};
      while left != {}
        invariant left <= files
        invariant Valid() && OnlyUnder(before, entries, dst) && IsDir(entries, dst)
        invariant Separate(src, dst) ==> Progress(before, entries, src, dst, files - left)
        invariant src == dst ==> left == files && entries == old(entries)
        invariant old(copied) <= copied
        invariant Separate(src, dst) ==> Finished(copies, old(copied), copied)
        invariant Separate(src, dst) ==>
                    forall name :: name in files && name !in left ==> !IsDir(before, dst + [name])
        decreases left
      {
        var name :| name in left;
        ghost var was := entries;
        ChildPath(dst, name);
        if Separate(src, dst) {
          SourceIsUntouched(before, was, src, dst, [name]);
          TargetIsUntouched(before, was, src, dst, files - left, name);
        }
        var copied, attempts, sleeps := CopyFileWithRetry(src + [name], dst + [name]);
        WritingAChild(before, was, entries, dst, name);
        if !copied {
          return false;
        }
        if Separate(src, dst) {
          ProgressFile(before, was, entries, src, dst, name, files - left);
          assert files - (left - {name}) == files - left + {name};
        }
        left := left - {name};
      }
      assert files - left == files;
      return true;
    }

    /** The second foreach of CopyDirectoryRecursive. */
    method CopySubdirectories(src: Path, dst: Path, dirs: set<string>, ghost before: Tree, ghost done: set<string>)
      returns (ok: bool)
      requires Valid() && WellFormed(before) && OnlyUnder(before, entries, dst) && IsDir(entries, dst) && |dst| <= limit
      requires done !! dirs
      requires Separate(src, dst) ==> Progress(before, entries, src, dst, done)
      requires Separate(src, dst) ==> forall name :: name in dirs ==> IsDir(before, src + [name])
      modifies this`entries, this`made, this`copied
      ensures old(made) <= made && old(copied) <= copied && (ok ==> Granted(makes, old(made), made))
      ensures ok && Separate(src, dst) ==>
                && Finished(copies, old(copied), copied)
                && forall name :: name in dirs ==> ChildFits(before, src, dst, limit, name)
      ensures !ok && Separate(src, dst) ==>
                || !Granted(makes, old(made), made) || GivesUp(copies, old(copied), copied)
                || exists name :: name in dirs && !ChildFits(before, src, dst, limit, name)
      ensures src == dst && (forall name :: name in dirs ==> IsDir(old(entries), src + [name])) ==>
                (ok <==> Granted(makes, old(made), made) &&
                         forall name :: name in dirs ==> FitsItself(old(entries), src + [name], limit))
      ensures Valid() && OnlyUnder(before, entries, dst) && IsDir(entries, dst)
      ensures ok && Separate(src, dst) ==> Progress(before, entries, src, dst, done + dirs)
      ensures ok && src < dst ==> dst[|src|] !in dirs
      ensures ok && src == dst && (forall name :: name in dirs ==> IsDir(old(entries), src + [name])) ==>
                entries == old(entries) && forall name :: name in dirs ==> NoFilesUnder(old(entries), src + [name])
      decreases Room(limit, dst), 0
    {
      hide WellFormed, Progress, OnlyUnder, IsOverlay, NoFilesUnder, MadeDirectory;
      var left := dirs;
      ghost var start := entries;
      assert done + (dirs - left) == done;
      while left != {}
        invariant left <= dirs
        invariant Valid() && OnlyUnder(before, entries, dst) && IsDir(entries, dst)
        invariant Separate(src, dst) ==> Progress(before, entries, src, dst, done + (dirs - left))
        invariant src < dst && dst[|src|] in dirs ==> dst[|src|] in left
        invariant src == dst && (forall name :: name in dirs ==> IsDir(start, src + [name])) ==>
                    entries == start &&
                    forall name :: name in dirs && name !in left ==>
                      NoFilesUnder(start, src + [name]) && FitsItself(start, src + [name], limit)
        invariant old(made) <= made && old(copied) <= copied && Granted(makes, old(made), made)
        invariant Separate(src, dst) ==>
                    && Finished(copies, old(copied), copied)
                    && forall name :: name in dirs && name !in left ==> ChildFits(before, src, dst, limit, name)
        decreases left
      {
        var name :| name in left;
        ghost var was := entries;
        if Separate(src, dst) {
          ChildrenApart(src, dst, name);
          DirectoryFits(before, was, src, dst, limit, name, done + (dirs - left));
        } else if src < dst {
          StillInside(src, dst, name);
        }
        ok := CopyDirectoryRecursive(src + [name], dst + [name]);
        OnlyUnderChild(before, was, entries, dst, name);
        ChildPath(dst, name);
        if !ok {
          return false;
        }
        if Separate(src, dst) {
          ProgressDir(before, was, entries, src, dst, name, done + (dirs - left));
          assert done + (dirs - (left - {name})) == done + (dirs - left) + {name};
        } else if src == dst && IsDir(was, src + [name]) {
          RemadeDirectory(was, entries, src + [name]);
        }
        left := left - {name};
      }
      assert done + (dirs - left) == done + dirs;
      return true;
    }

    /** DeleteDirectoryWithRetry: an absent directory is left alone, otherwise at most eight attempts. */
    method DeleteDirectoryWithRetry(path: Path) returns (ok: bool, attempts: nat, sleeps: nat)
      requires Valid()
      modifies this`entries, this`deleted
      ensures Valid() && deleted == old(deleted) + attempts
      ensures ok <==> !IsDir(old(entries), path) || DeleteWorks(deletes, old(deleted), path)
      ensures !ok ==> attempts == 8 || (deleted > 0 && deletes(deleted - 1).outcome.Fatal?)
      ensures ok ==> entries == if IsDir(old(entries), path) then Without(old(entries), path) else old(entries)
      ensures ok ==> !IsDir(entries, path)
      ensures Without(old(entries), path).Items <= entries.Items <= old(entries).Items
      ensures attempts <= MAX_RETRIES && sleeps == if attempts == 0 then 0 else attempts - 1
      ensures attempts == 0 <==> !IsDir(old(entries), path)
    {
      hide DeleteWorks, Without, WellFormed;
      NothingLeft(entries, path);
      if !IsDir(entries, path) {
        return true, 0, 0;
      }
      attempts, sleeps := 1, 0;
      while attempts <= MAX_RETRIES
        invariant 1 <= attempts <= MAX_RETRIES && sleeps == attempts - 1 && deleted == old(deleted) + attempts - 1
        invariant IsDir(entries, path) ==>
                    forall m :: old(deleted) <= m < deleted ==>
                                  deletes(m).outcome.Locked? && deletes(m).torn != Some(path)
        invariant !IsDir(entries, path) ==> !DeleteWorks(deletes, old(deleted), path)
        invariant Valid()
        invariant Without(old(entries), path).Items <= entries.Items <= old(entries).Items
      {
        ghost var was := entries;
        var outcome := TryDelete(path);
        if IsDir(was, path) {
          DeleteWorksAt(deletes, old(deleted), deleted - 1, path);
        }
        ItemsBetween(old(entries), was, path);
        NothingLeft(was, path);
        if outcome.Done? {
          return true, attempts, sleeps;
        }
        if outcome.Locked? && attempts < MAX_RETRIES {
          sleeps := sleeps + 1;
        } else {
          return false, attempts, sleeps;
        }
        attempts := attempts + 1;
      }
      assert false; // the Directory.Delete after the loop is never reached
    }
  }

  lemma NothingLeft(t: Tree, path: Path)
    ensures !IsDir(Without(t, path), path) && Without(t, path).Items <= t.Items
  {
  }

  /** Losing some entries under `dir` does not change what is outside it. */
  lemma ItemsBetween(before: Tree, t: Tree, dir: Path)
    requires Without(before, dir).Items <= t.Items <= before.Items
    ensures Without(t, dir) == Without(before, dir)
  {
    var a, b := Without(before, dir), Without(t, dir);
    forall p | p in a ensures p in b && b[p] == a[p] {
      assert (p, a[p]) in a.Items;
      assert (p, a[p]) in t.Items;
    }
    forall p | p in b ensures p in a && b[p] == a[p] {
      assert (p, b[p]) in t.Items;
      assert (p, b[p]) in before.Items;
    }
  }

  lemma ChildNames(before: Tree, now: Tree, src: Path, dst: Path, files: set<string>, dirs: set<string>)
    requires OnlyUnder(before, now, dst) && !(src <= dst) && !(dst <= src)
    requires files == set p | p in now && |p| == |src| + 1 && src <= p && now[p].File? :: p[|src|]
    requires dirs == set p | p in now && |p| == |src| + 1 && src <= p && now[p].Dir? :: p[|src|]
    ensures forall name :: name in files ==> src + [name] in before && before[src + [name]].File?
    ensures forall name :: name in dirs ==> IsDir(before, src + [name])
    ensures forall name :: src + [name] in before ==> name in files || name in dirs
    ensures files !! dirs
  {
    forall name: string ensures At(now, src + [name]) == At(before, src + [name]) {
      SourceIsUntouched(before, now, src, dst, [name]);
    }
    forall p | p in now && |p| == |src| + 1 && src <= p ensures p == src + [p[|src|]] {
    }
    forall name | src + [name] in before ensures name in files || name in dirs {
      var p := src + [name];
      assert At(now, src + [name]) == At(before, src + [name]);
      assert p in now && src <= p && p[|src|] == name;
    }
  }

  lemma SourceStillMissing(before: Tree, now: Tree, src: Path, dst: Path)
    requires Apart(before, src, dst) && Progress(before, now, src, dst, {})
    ensures dst <= src ==> !IsDir(now, src)
  {
    if dst <= src {
      var rel := src[|dst|..];
      assert src == dst + rel && rel != [];
      assert At(now, dst + rel) == Expected(before, src, dst, {}, rel);
    }
  }

  lemma SameChildName(a: Path, b: Path, name: string)
    requires a + [name] <= b + [name]
    ensures a <= b
  {
    assert (b + [name])[..|b|] == b;
    assert a == (a + [name])[..|a|] == (b + [name])[..|a|] == b[..|a|];
  }

  lemma ChildrenApart(src: Path, dst: Path, name: string)
    requires !(src <= dst) && !(dst <= src)
    ensures !(src + [name] <= dst + [name]) && !(dst + [name] <= src + [name])
  {
    forall a: Path, b: Path | a + [name] <= b + [name] ensures a <= b {
      SameChildName(a, b, name);
    }
  }
}
