/**
  * Files and the managed storage of the library: staging an import, moving it to its final
  * place, and taking it back. Directories are not modelled, only the files in them.
  */
module FileStorage {
  import opened ManagedLayout
  import opened Utf8

  type Content = seq<byte>
  type Files = map<Path, Content>

  /** What an interrupted write leaves at its destination. */
  datatype Damage = Untouched | Missing | Torn(content: Content)

  /** Every file of `part` is in `whole`, with the same content. */
  ghost predicate IsPartOf(part: Files, whole: Files) {
    forall p :: p in part ==> p in whole && part[p] == whole[p]
  }

  /** Whatever is there now was there before, the given paths aside. */
  ghost predicate NothingNewBut(before: Files, after: Files, places: set<Path>) {
    forall p :: p in after && p !in places ==> p in before && after[p] == before[p]
  }

  /** None of the given paths exists. */
  ghost predicate AreGone(files: Files, places: set<Path>) {
    forall p :: p in places ==> p !in files
  }

  /** No path but the given ones has changed. */
  ghost predicate ChangedOnlyAt(before: Files, after: Files, places: set<Path>) {
    forall p :: p !in places ==> (p in before <==> p in after) && (p in before ==> before[p] == after[p])
  }

  /** Nothing has changed but at a path and below it. */
  ghost predicate ChangedOnlyBelow(before: Files, after: Files, place: Path) {
    forall p :: !(place <= p) ==> (p in before <==> p in after) && (p in before ==> before[p] == after[p])
  }

  /** Nothing has changed but at some paths, and in one directory. */
  ghost predicate ChangedOnlyIn(before: Files, after: Files, directory: Path, places: set<Path>) {
    forall p :: !(directory <= p) && p !in places ==> (p in before <==> p in after) && (p in before ==> before[p] == after[p])
  }

  class FileSystem {
    /** Decides for every operation, by its number, whether it fails, and what a failed write leaves. */
    const fails: nat -> bool
    const damage: nat -> Damage
    /** The same for the best-effort removals, and what a failed one did not get to. */
    const stuck: nat -> bool
    const survivors: nat -> set<Path>

    var clock: nat
    var removals: nat
    var files: Files

    constructor (fails: nat -> bool, damage: nat -> Damage, stuck: nat -> bool, survivors: nat -> set<Path>, files: Files)
      ensures this.fails == fails && this.stuck == stuck && this.files == files
    {
      this.fails, this.damage, this.stuck, this.survivors := fails, damage, stuck, survivors;
      this.files := files;
      clock, removals := 0, 0;
    }

    /** All best-effort removals with these numbers did their work. */
    ghost predicate RemovalsWorked(from: nat, to: nat) {
      forall n :: from <= n < to ==> !stuck(n)
    }

    /** Every operation works. */
    ghost predicate NeverFails() {
      forall n :: !fails(n)
    }

    /** One of the operations with these numbers failed. */
    ghost predicate FailsBetween(from: nat, to: nat) {
      exists n :: from <= n < to && fails(n)
    }

    /** Two of them failed, one after the other. */
    ghost predicate FailsTwice(from: nat, to: nat) {
      exists n: nat :: from <= n <= to && FailsBetween(from, n) && FailsBetween(n, to)
    }

    /** An operation that does not concern the content of any file, such as EnsureDirectory. */
    method Attempt() returns (ok: bool)
      modifies this`clock
      ensures ok <==> !fails(old(clock))
      ensures clock == old(clock) + 1 && (!ok ==> FailsBetween(old(clock), clock))
    {
      ok := !fails(clock);
      clock := clock + 1;
    }

    method Rename(source: Path, destination: Path) returns (ok: bool)
      modifies this`clock, this`files
      ensures ok <==> !fails(old(clock)) && source in old(files)
      ensures ok ==> files == (old(files) - {source})[destination := old(files)[source]]
      ensures !ok ==> files == old(files)
      ensures clock == old(clock) + 1 && (!ok && source in old(files) ==> FailsBetween(old(clock), clock))
    {
      ok := !fails(clock) && source in files;
      clock := clock + 1;
      if ok {
        files := (files - {source})[destination := files[source]];
      }
    }

    /** Opens, overwrites and closes a file. */
    method Write(destination: Path, content: Content) returns (ok: bool)
      modifies this`clock, this`files
      ensures ok ==> files == old(files)[destination := content]
      ensures ChangedOnlyAt(old(files), files, {destination})
      ensures clock == old(clock) + 1 && (!ok ==> FailsBetween(old(clock), clock))
    {
      ok := !fails(clock);
      if ok {
        files := files[destination := content];
      } else {
        match damage(clock)
        case Untouched =>
        case Missing => files := files - {destination};
        case Torn(torn) => files := files[destination := torn];
      }
      clock := clock + 1;
    }

    /** copy_file with overwriting. */
    method Copy(source: Path, destination: Path) returns (ok: bool)
      modifies this`clock, this`files
      ensures ok ==> source in old(files) && files == old(files)[destination := old(files)[source]]
      ensures ChangedOnlyAt(old(files), files, {destination})
      ensures clock == old(clock) + 1 && (!ok && source in old(files) ==> FailsBetween(old(clock), clock))
    {
      if source !in files {
        clock := clock + 1;
        return false;
      }
      ok := Write(destination, files[source]);
    }

    /** Another program writes a file. */
    method Place(path: Path, content: Content)
      modifies this`files
      ensures files == old(files)[path := content]
    {
      files := files[path := content];
    }

    /** remove_all without exceptions: the path and everything below it. */
    method RemoveAll(path: Path)
      modifies this`removals, this`files
      ensures removals == old(removals) + 1 && IsPartOf(files, old(files))
      ensures ChangedOnlyBelow(old(files), files, path)
      ensures !stuck(old(removals)) ==> forall p :: p in files ==> !(path <= p)
    {
      var spared := if stuck(removals) then survivors(removals) else {};
      files := map p | p in files && (!(path <= p) || p in spared) :: files[p];
      removals := removals + 1;
    }

    /** remove without exceptions: one file. */
    method RemoveFile(path: Path)
      modifies this`removals, this`files
      ensures removals == old(removals) + 1
      ensures files == if stuck(old(removals)) then old(files) else old(files) - {path}
    {
      if !stuck(removals) {
        files := files - {path};
      }
      removals := removals + 1;
    }
  }
}
