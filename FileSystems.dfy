/**
 * An in-memory file system: a map from file path to content and a set of
 * existing directories.  The `Disk` functions say what each `System.IO` call
 * used by the tasks does; the `FileSystem` class is the mutable disk the tasks
 * work on, and each of its methods is specified by one of those functions.
 * A call that can throw takes a caller-supplied `fails` flag and reports the
 * exception as a result instead of raising it.
 */
module FileSystems {
  import opened Wrappers
  import opened Paths

  type Content = seq<bv8>

  datatype Disk = Disk(files: map<Path, Content>, dirs: set<Path>)

  /** `File.Exists`; `false` for an unset path. */
  predicate FileExists(d: Disk, p: Option<Path>) {
    p.Some? && p.value in d.files
  }

  /** `Directory.Exists`; `false` for an unset path. */
  predicate DirectoryExists(d: Disk, p: Option<Path>) {
    p.Some? && p.value in d.dirs
  }

  /** `File.Delete`: removing an absent file is not an error. */
  function DeleteFile(d: Disk, p: Path): (r: Disk)
    ensures p !in r.files && r.dirs == d.dirs
    ensures forall q :: q in d.files && q != p ==> q in r.files && r.files[q] == d.files[q]
    ensures r.files.Keys <= d.files.Keys
  {
    d.(files := d.files - {p})
  }

  /** `File.Copy(src, dst, true)`: overwrites `dst`. */
  function CopyFile(d: Disk, src: Path, dst: Path): (r: Disk)
    requires src in d.files
    ensures dst in r.files && r.files[dst] == d.files[src] && r.dirs == d.dirs
    ensures r.files.Keys == d.files.Keys + {dst}
    ensures forall q :: q in d.files && q != dst ==> r.files[q] == d.files[q]
  {
    d.(files := d.files[dst := d.files[src]])
  }

  /** `File.Move(src, dst)`: the source must exist and the destination must not. */
  function MoveFile(d: Disk, src: Path, dst: Path): (r: Disk)
    requires src in d.files && dst !in d.files
    ensures src !in r.files && dst in r.files && r.files[dst] == d.files[src] && r.dirs == d.dirs
    ensures r.files.Keys == d.files.Keys - {src} + {dst}
    ensures forall q :: q in d.files && q != src ==> r.files[q] == d.files[q]
  {
    d.(files := (d.files - {src})[dst := d.files[src]])
  }

  /** `FileSystem.CreateDirectoryStructure`: afterwards the directory exists. */
  function CreateDirectory(d: Disk, p: Path): (r: Disk)
    ensures r.files == d.files && r.dirs == d.dirs + {p}
  {
    d.(dirs := d.dirs + {p})
  }

  /** The guard `if (!Directory.Exists(p)) CreateDirectoryStructure(p)`: the directory exists afterwards. */
  function EnsureDirectory(d: Disk, p: Path): (r: Disk)
    ensures r.files == d.files && r.dirs == d.dirs + {p}
  {
    if p in d.dirs then d else CreateDirectory(d, p)
  }

  /** Two maps that agree off `keys` and on each of `keys` are equal. */
  lemma MapsAgree<K, V>(m1: map<K, V>, m2: map<K, V>, keys: set<K>)
    requires m1 - keys == m2 - keys
    requires forall k :: k in keys ==> (k in m1 <==> k in m2)
    requires forall k :: k in keys && k in m1 ==> m1[k] == m2[k]
    ensures m1 == m2
  {
    forall k | k in m1
      ensures k in m2 && m1[k] == m2[k]
    {
      if k !in keys {
        assert k in m1 - keys;
      }
    }
    forall k | k in m2
      ensures k in m1
    {
      if k !in keys {
        assert k in m2 - keys;
      }
    }
  }

  class FileSystem {
    var files: map<Path, Content>
    var dirs: set<Path>

    constructor (files: map<Path, Content>, dirs: set<Path>)
      ensures Snapshot() == Disk(files, dirs)
    {
      this.files := files;
      this.dirs := dirs;
    }

    /** The current contents of the disk, as a value. */
    function Snapshot(): Disk
      reads this
    {
      Disk(files, dirs)
    }

    predicate HasFile(p: Option<Path>)
      reads this
    {
      FileExists(Snapshot(), p)
    }

    predicate HasDirectory(p: Option<Path>)
      reads this
    {
      DirectoryExists(Snapshot(), p)
    }

    /** `File.Delete(p)`, throwing (and changing nothing) when `fails`. */
    method Delete(p: Path, fails: bool) returns (threw: bool)
      modifies this
      ensures threw == fails
      ensures Snapshot() == if fails then old(Snapshot()) else DeleteFile(old(Snapshot()), p)
    {
      threw := fails;
      if !fails {
        files := files - {p};
      }
    }

    /** `File.Copy(src, dst, true)`. */
    method Copy(src: Path, dst: Path)
      requires src in files
      modifies this
      ensures Snapshot() == CopyFile(old(Snapshot()), src, dst)
    {
      files := files[dst := files[src]];
    }

    /** `File.Move(src, dst)`, throwing (and changing nothing) when `fails`. */
    method Move(src: Path, dst: Path, fails: bool) returns (threw: bool)
      requires src in files && dst !in files
      modifies this
      ensures threw == fails
      ensures Snapshot() == if fails then old(Snapshot()) else MoveFile(old(Snapshot()), src, dst)
    {
      threw := fails;
      if !fails {
        files := (files - {src})[dst := files[src]];
      }
    }

    /** `FileSystem.CreateDirectoryStructure(p, false)`. */
    method CreateDirectoryStructure(p: Path)
      modifies this
      ensures Snapshot() == CreateDirectory(old(Snapshot()), p)
    {
      dirs := dirs + {p};
    }
  }
}
