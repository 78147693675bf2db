/**
 Paths and an in-memory file tree, standing in for the file system that the
 scanner reads and the patch operations and runners write.
 */
module Files {
  import opened Text
  import opened Wrappers

  /** A path as its list of components (`Path::components`). */
  type Path = seq<Str>

  /** File contents by path; a directory is any proper prefix of a file's path. */
  type FileSystem = map<Path, Str>

  /** `Path::file_name`: the last component; none for an empty path or one ending in "..". */
  function FileName(p: Path): (r: Option<Str>)
    ensures r.Some? <==> |p| > 0 && p[|p| - 1] != ".."
    ensures r.Some? ==> r.value == p[|p| - 1]
  {
    if |p| == 0 || p[|p| - 1] == ".." then None else Some(p[|p| - 1])
  }

  /** `Path::strip_prefix`: the components after `root`, or an error when `p` is not under `root`. */
  function StripPrefix(p: Path, root: Path): (r: Option<Path>)
    ensures r.Some? <==> root <= p
    ensures r.Some? ==> root + r.value == p
  {
    if root <= p then
      assert root + p[|root|..] == p;
      Some(p[|root|..])
    else None
  }

  /** Stripping a root that was just prepended gives the relative path back. */
  lemma StripPrefixOfJoin(root: Path, rel: Path)
    ensures StripPrefix(root + rel, root) == Some(rel)
  {
    assert (root + rel)[|root|..] == rel;
  }

  /** Re-rooting is injective: different roots give different paths for one relative path. */
  lemma JoinInjective(a: Path, b: Path, rel: Path)
    requires a + rel == b + rel
    ensures a == b
  {
    assert a == (a + rel)[..|a|];
    assert b == (b + rel)[..|b|];
  }

  /** A recursive copy of the tree under `root` to `dst` (the `cp_r` copy of the project). */
  function CopyTree(fs: FileSystem, root: Path, dst: Path): (r: FileSystem)
    ensures forall rel :: root + rel in fs ==> dst + rel in r && r[dst + rel] == fs[root + rel]
    ensures forall p :: p in fs && !(dst <= p) ==> p in r && r[p] == fs[p]
    ensures forall p :: p in r && !(dst <= p) ==> p in fs
    ensures forall rel :: dst + rel in r ==> root + rel in fs || dst + rel in fs
  {
    var targets := set p | p in fs && root <= p :: dst + p[|root|..];
    assert forall q :: q in targets ==> dst <= q && root + q[|dst|..] in fs by {
      forall q | q in targets
        ensures dst <= q && root + q[|dst|..] in fs
      {
        var p :| p in fs && root <= p && q == dst + p[|root|..];
        assert q[|dst|..] == p[|root|..];
        assert root + p[|root|..] == p;
      }
    }
    var copied := map q | q in targets :: fs[root + q[|dst|..]];
    assert forall rel :: root + rel in fs ==> dst + rel in copied && copied[dst + rel] == fs[root + rel] by {
      forall rel | root + rel in fs
        ensures dst + rel in copied && copied[dst + rel] == fs[root + rel]
      {
        var p := root + rel;
        assert p[|root|..] == rel;
        assert dst + rel in targets;
        assert (dst + rel)[|dst|..] == rel;
      }
    }
    assert forall rel :: dst + rel in copied ==> root + rel in fs by {
      forall rel | dst + rel in copied
        ensures root + rel in fs
      {
        assert (dst + rel)[|dst|..] == rel;
      }
    }
    fs + copied
  }

  /** The tree under `dir` deleted (`TempDir` cleanup). */
  function RemoveTree(fs: FileSystem, dir: Path): (r: FileSystem)
    ensures forall p :: p in r <==> p in fs && !(dir <= p)
    ensures forall p :: p in r ==> r[p] == fs[p]
  {
    map p | p in fs && !(dir <= p) :: fs[p]
  }

  /** Two trees that differ only under `dir` are equal once `dir` is removed. */
  lemma RemoveTreeOfAgreeing(fs: FileSystem, fs': FileSystem, dir: Path)
    requires forall p :: !(dir <= p) ==> (p in fs <==> p in fs')
    requires forall p :: p in fs && !(dir <= p) ==> fs[p] == fs'[p]
    ensures RemoveTree(fs, dir) == RemoveTree(fs', dir)
  {
  }

  /** Removing a directory that holds no file changes nothing. */
  lemma RemoveAbsentTree(fs: FileSystem, dir: Path)
    requires forall p :: p in fs ==> !(dir <= p)
    ensures RemoveTree(fs, dir) == fs
  {
  }

  /** The tree as seen from `dir`: each file below it, by its path relative to `dir`. */
  function View(fs: FileSystem, dir: Path): (v: map<Path, Str>)
    ensures forall rel :: rel in v <==> dir + rel in fs
    ensures forall rel :: rel in v ==> v[rel] == fs[dir + rel]
  {
    var rels := set p | p in fs && dir <= p :: p[|dir|..];
    assert forall rel :: rel in rels <==> dir + rel in fs by {
      forall rel
        ensures rel in rels <==> dir + rel in fs
      {
        if dir + rel in fs {
          assert (dir + rel)[|dir|..] == rel;
        }
        if rel in rels {
          var p :| p in fs && dir <= p && rel == p[|dir|..];
          assert dir + rel == p;
        }
      }
    }
    map rel | rel in rels :: fs[dir + rel]
  }

  /** A tree that differs from another at most at `p` is that tree with `p` updated. */
  lemma ChangedOnlyAt(fs: FileSystem, fs': FileSystem, p: Path)
    requires fs'.Keys == fs.Keys && p in fs'
    requires forall q :: q in fs && q != p ==> fs'[q] == fs[q]
    ensures fs' == fs[p := fs'[p]]
  {
  }

  /** Writing a file and then writing back its old text gives the tree as it was. */
  lemma UndoUpdate(fs: FileSystem, p: Path, v: Str)
    requires p in fs
    ensures fs[p := v][p := fs[p]] == fs
  {
  }

  /** Writing one file below `dir` changes the view from `dir` at that file only. */
  lemma ViewOfUpdate(fs: FileSystem, dir: Path, rel: Path, v: Str)
    ensures View(fs[dir + rel := v], dir) == View(fs, dir)[rel := v]
  {
    forall r
      ensures dir + r == dir + rel <==> r == rel
    {
      assert (dir + r)[|dir|..] == r;
      assert (dir + rel)[|dir|..] == rel;
    }
  }

  /** The copy, seen from where it was put, is the original seen from its root (when nothing was there before). */
  lemma CopyView(fs: FileSystem, root: Path, dst: Path)
    requires forall p :: p in fs ==> !(dst <= p)
    ensures View(CopyTree(fs, root, dst), dst) == View(fs, root)
  {
    forall rel
      ensures dst + rel !in fs
    {
      assert dst <= dst + rel;
    }
  }
}
