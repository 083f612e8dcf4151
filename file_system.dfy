/** The filesystem both scripts act on, reduced to what they ask of it: which
    paths are regular files and which are directories. `FileUtils.mkdir_p`
    and `FileUtils.mv` are updates of these two sets. */
module FileSystems {
  import opened Paths

  /** A snapshot of the filesystem. */
  datatype Disk = Disk(files: set<Path>, dirs: set<Path>) {

    /** `File.exists?`: something, file or directory, is at `p`. */
    predicate Occupied(p: Path) {
      p in files || p in dirs
    }

    /** No path is both a regular file and a directory. */
    predicate Valid() {
      files !! dirs
    }
  }

  class FileSystem {
    var files: set<Path>
    var dirs: set<Path>

    ghost predicate Valid()
      reads this
    {
      Snapshot().Valid()
    }

    function Snapshot(): (d: Disk)
      reads this
      ensures d.files == files && d.dirs == dirs
    {
      Disk(files, dirs)
    }

    constructor (files: set<Path>, dirs: set<Path>)
      requires files !! dirs
      ensures Valid() && this.files == files && this.dirs == dirs
    {
      this.files := files;
      this.dirs := dirs;
    }

    /** `File.file?`. */
    predicate IsFile(p: Path)
      reads this
    {
      p in files
    }

    /** `File.directory?`. */
    predicate IsDirectory(p: Path)
      reads this
    {
      p in dirs
    }

    /** `File.exists?`. */
    predicate Exists(p: Path)
      reads this
    {
      Snapshot().Occupied(p)
    }

    /** `FileUtils.mkdir_p` for a directory whose missing ancestors are
        `chain`: it raises, changing nothing, when one of them is a regular
        file, and otherwise makes them all directories. */
    method MakeDirs(chain: set<Path>) returns (ok: bool)
      requires Valid()
      modifies this
      ensures Valid()
      ensures ok <==> chain !! old(files)
      ensures files == old(files)
      ensures dirs == if ok then old(dirs) + chain else old(dirs)
    {
      ok := chain !! files;
      if ok {
        dirs := dirs + chain;
      }
    }

    /** `FileUtils.mv(src, dst)` onto a free path: the file leaves `src` and
        appears at `dst`; nothing else changes. */
    method Move(src: Path, dst: Path)
      requires Valid() && src in files && !Exists(dst)
      modifies this
      ensures Valid()
      ensures files == old(files) - {src} + {dst} && dirs == old(dirs)
      ensures |files| == |old(files)|
    {
      assert files == (files - {src}) + {src};
      files := files - {src} + {dst};
    }
  }
}
