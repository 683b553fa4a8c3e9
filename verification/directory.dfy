/** The log's directory: which files it lists. */
module Directories {
  import opened Wire
  import opened Stores
  import opened Names

  class Directory {
    var present: bool
    var files: map<FileName, File>

    /** Different names are different files. */
    ghost predicate Valid()
      reads this
    {
      present && forall m, n :: m in files && n in files && m != n ==> files[m] != files[n]
    }

    /** An empty directory. */
    constructor ()
      ensures Valid() && files == map[]
    {
      present, files := true, map[];
    }

    ghost function Opened(name: FileName): set<object>
      reads this
    {
      if name in files then {files[name]} else {}
    }

    /** The bytes a file of this name holds when it is opened: none when it does not exist yet. */
    ghost function DataOf(name: FileName): Bytes
      reads this, Opened(name)
    {
      if name in files then files[name].data else []
    }

    /** `os.OpenFile` with `O_CREATE`. */
    method Open(name: FileName) returns (f: File)
      requires Valid()
      requires forall n :: n in files ==> allocated(files[n])
      modifies this`files
      ensures Valid() && files == old(files)[name := f]
      ensures name in old(files) ==> f == old(files)[name]
      ensures name !in old(files) ==> fresh(f) && f.data == []
    {
      if name in files {
        f := files[name];
      } else {
        f := new File();
        files := files[name := f];
      }
    }

    /** `os.Remove`. */
    method Remove(name: FileName)
      requires Valid()
      modifies this`files
      ensures Valid() && files == old(files) - {name}
    {
      files := files - {name};
    }

    /** `os.RemoveAll` of the directory itself. */
    method RemoveAll()
      modifies this
      ensures !present && files == map[]
    {
      present, files := false, map[];
    }

    /** `ioutil.ReadDir`: every name once, in some order, or an error when the directory is gone. */
    method ReadDir() returns (r: Result<seq<string>>, ghost names: seq<FileName>)
      ensures !present ==> r == Err(NotExist)
      ensures present ==> r == Ok(Texts(names)) && multiset(names) == multiset(files.Keys)
    {
      names := [];
      if !present {
        r := Err(NotExist);
        return;
      }
      var texts, left := [], files.Keys;
      while left != {}
        invariant left <= files.Keys
        invariant multiset(names) + multiset(left) == multiset(files.Keys)
        invariant texts == Texts(names)
        decreases left
      {
        var n :| n in left;
        texts, left := texts + [n.Text()], left - {n};
        names := names + [n];
      }
      r := Ok(texts);
    }
  }
}
