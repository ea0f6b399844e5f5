/** The part of the disk the server touches: files by full path, the
    directories that exist, and the files the operating system refuses to
    delete (held open elsewhere, or without permission), for which `File.Delete`
    throws. */
module FileSystems {
  import opened Encoding
  import opened Text
  import Paths

  /** `path` names an entry directly inside `dir`. */
  predicate DirectlyIn(path: string, dir: string) {
    |path| > |dir| + 1 && path[..|dir| + 1] == dir + "/" && '/' !in path[|dir| + 1..]
  }

  /** `path` lies somewhere below `dir`. */
  predicate Below(path: string, dir: string) {
    |path| > |dir| + 1 && path[..|dir| + 1] == dir + "/"
  }

  lemma CombineIsDirectlyIn(dir: string, name: string)
    requires dir != [] && !EndsWithChar(dir, '/') && name != [] && '/' !in name
    ensures DirectlyIn(Paths.Combine(dir, name), dir)
  {
    var p := Paths.Combine(dir, name);
    assert p == dir + "/" + name;
    assert p[..|dir| + 1] == dir + "/";
    assert p[|dir| + 1..] == name;
  }

  /** The name a directory is kept under: one trailing separator names the same directory. */
  function DirectoryKey(path: string): string
  {
    if |path| > 1 && EndsWithChar(path, '/') then path[..|path| - 1] else path
  }

  /** `Directory.Exists`. */
  predicate DirectoryExists(dirs: set<string>, path: string) {
    DirectoryKey(path) in dirs
  }

  class FileSystem {
    var files: map<string, seq<byte>>
    var dirs: set<string>
    var locked: set<string>

    constructor(files0: map<string, seq<byte>>, dirs0: set<string>, locked0: set<string>)
      ensures files == files0 && dirs == dirs0 && locked == locked0
    {
      files := files0;
      dirs := dirs0;
      locked := locked0;
    }

    /** `Directory.CreateDirectory`: succeeds whether or not the directory exists, and
        fails (an `IOException`) when a file sits at `path`. `Directory.CreateDirectory`
        also creates missing parent directories; only `path` is added here, since the
        model asks only about the directories the server names. */
    method CreateDirectory(path: string) returns (ok: bool)
      modifies this
      ensures ok <==> path !in old(files)
      ensures dirs == if ok then old(dirs) + {path} else old(dirs)
      ensures files == old(files) && locked == old(locked)
    {
      if path in files {
        return false;
      }
      dirs := dirs + {path};
      return true;
    }

    /** `Directory.GetDirectories(dir)`: the full paths of the directories directly in
        `dir`, each once, in whatever order the file system lists them. */
    method GetDirectories(dir: string) returns (paths: seq<string>)
      ensures forall p :: p in paths <==> p in dirs && DirectlyIn(p, dir)
      ensures Distinct(paths)
    {
      var left := set d | d in dirs && DirectlyIn(d, dir);
      paths := [];
      while left != {}
        invariant forall p :: p in paths || p in left <==> p in dirs && DirectlyIn(p, dir)
        invariant forall p :: p in paths ==> p !in left
        invariant Distinct(paths)
        decreases |left|
      {
        var d :| d in left;
        paths := paths + [d];
        left := left - {d};
      }
    }

    /** `Directory.GetFiles(dir)`: the full paths of the files directly in `dir`, each
        once, in whatever order the file system lists them. */
    method GetFiles(dir: string) returns (paths: seq<string>)
      ensures forall p :: p in paths <==> p in files && DirectlyIn(p, dir)
      ensures Distinct(paths)
    {
      var left := set f | f in files && DirectlyIn(f, dir);
      paths := [];
      while left != {}
        invariant forall p :: p in paths || p in left <==> p in files && DirectlyIn(p, dir)
        invariant forall p :: p in paths ==> p !in left
        invariant Distinct(paths)
        decreases |left|
      {
        var f :| f in left;
        paths := paths + [f];
        left := left - {f};
      }
    }

    /** `File.WriteAllBytes`: creates or overwrites; fails (an `UnauthorizedAccessException`)
        when `path` is a directory. */
    method WriteAllBytes(path: string, content: seq<byte>) returns (ok: bool)
      modifies this
      ensures ok <==> !DirectoryExists(old(dirs), path)
      ensures files == if ok then old(files)[path := content] else old(files)
      ensures dirs == old(dirs) && locked == old(locked)
    {
      if DirectoryExists(dirs, path) {
        return false;
      }
      files := files[path := content];
      return true;
    }

    /** `File.Copy(from, to, overwrite: true)`: fails (an `UnauthorizedAccessException`)
        when `to` is a directory. */
    method Copy(from: string, to: string) returns (ok: bool)
      requires from in files
      modifies this
      ensures ok <==> !DirectoryExists(old(dirs), to)
      ensures files == if ok then old(files)[to := old(files)[from]] else old(files)
      ensures dirs == old(dirs) && locked == old(locked)
    {
      if DirectoryExists(dirs, to) {
        return false;
      }
      files := files[to := files[from]];
      return true;
    }

    /** `File.Delete`: false where the operating system refuses, which the source sees as an exception. */
    method Delete(path: string) returns (ok: bool)
      modifies this
      ensures ok <==> path !in old(locked)
      ensures files == if ok then old(files) - {path} else old(files)
      ensures dirs == old(dirs) && locked == old(locked)
    {
      if path in locked {
        return false;
      }
      files := files - {path};
      return true;
    }

    /** `Directory.Delete(dir, recursive: true)`: everything below `dir` and `dir` itself go,
        unless a file below it cannot be deleted; then only the deletable files go. */
    method DeleteTree(dir: string) returns (ok: bool)
      modifies this
      ensures ok <==> forall p :: p in old(locked) ==> !(Below(p, dir) && p in old(files))
      ensures files == map p | p in old(files) && (!Below(p, dir) || p in old(locked)) :: old(files)[p]
      ensures dirs == if ok then set d | d in old(dirs) && d != dir && !Below(d, dir) else old(dirs)
      ensures locked == old(locked)
    {
      ok := forall p :: p in locked ==> !(Below(p, dir) && p in files);
      files := map p | p in files && (!Below(p, dir) || p in locked) :: files[p];
      if ok {
        dirs := set d | d in dirs && d != dir && !Below(d, dir);
      }
    }
  }
}
