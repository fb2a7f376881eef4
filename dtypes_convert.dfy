/** `src/oas/dtypes/Convert.py`: the settings of the `convert` mode and their face-validity
    check over the file system. */
module DtypesConvert {
  import opened PyCore
  import opened PyPath
  import PyInt

  /** `_folder(path)`: a path that does not exist and an existing path that is not a
      directory are refused, each with its own `ValueError` message; an existing directory
      passes. The same helper is written out again in `Metadata.py`. */
  function CheckFolder(fs: FileSystem, path: Path): (r: Outcome<()>)
    ensures r.Ok? <==> path in fs && fs[path] == Directory
    ensures r.Raise? ==> IsValueError(r.error)
    ensures path !in fs ==> r == Raise(SettingsError(PathString(path) + " is does not exist"))
    ensures path in fs && fs[path] != Directory ==> r == Raise(SettingsError(PathString(path) + " is not a folder"))
  {
    if path !in fs then Raise(SettingsError(PathString(path) + " is does not exist"))
    else if fs[path] != Directory then Raise(SettingsError(PathString(path) + " is not a folder"))
    else Ok(())
  }

  /** `_nonzero_int(val)`: zero and negative values are refused. */
  function CheckPositive(val: int): (r: Outcome<()>)
    ensures r.Ok? <==> val > 0
    ensures r.Raise? ==> r == Raise(SettingsError(PyInt.IntToString(val) + " must be > 0")) && IsValueError(r.error)
  {
    if val <= 0 then Raise(SettingsError(PyInt.IntToString(val) + " must be > 0")) else Ok(())
  }

  /** The `Convert` settings object. Its four fields are set once by the constructor and
      never reassigned; the read-only properties `source`, `dest`, `count` and
      `dest_pattern` are the fields themselves. */
  class Convert {
    /** The folder holding the JATS files. */
    const source: Path
    /** The folder the converted files go to. */
    const dest: Path
    /** The number of articles per output file. */
    const count: int
    /** The format of an output file name. */
    const destPattern: string

    /** `__init__`: the properties return exactly the arguments given here. */
    constructor (source: Path, dest: Path, count: int, destPattern: string)
      ensures this.source == source && this.dest == dest
      ensures this.count == count && this.destPattern == destPattern
    {
      this.source := source;
      this.dest := dest;
      this.count := count;
      this.destPattern := destPattern;
    }

    /** `validate`: the source folder, then the destination folder, then the count; the
        first failing check raises and the later ones are not made. Passing means all three
        hold. Nothing is modified. */
    method Validate(fs: FileSystem) returns (r: Outcome<()>)
      ensures r.Ok? <==> (source in fs && fs[source] == Directory && dest in fs && fs[dest] == Directory && count > 0)
      ensures CheckFolder(fs, source).Raise? ==> r == CheckFolder(fs, source)
      ensures CheckFolder(fs, source).Ok? && CheckFolder(fs, dest).Raise? ==> r == CheckFolder(fs, dest)
      ensures CheckFolder(fs, source).Ok? && CheckFolder(fs, dest).Ok? ==> r == CheckPositive(count)
      ensures r.Raise? ==> IsValueError(r.error)
    {
      r := CheckFolder(fs, source);
      if r.Raise? {
        return;
      }
      r := CheckFolder(fs, dest);
      if r.Raise? {
        return;
      }
      r := CheckPositive(count);
    }
  }

  /** The missing-folder message and the count message differ, so which check failed
      first is visible in the error. */
  lemma MissingSourceReportedFirst(fs: FileSystem, source: Path, count: int)
    requires source !in fs && count <= 0
    ensures CheckFolder(fs, source) == Raise(SettingsError(PathString(source) + " is does not exist"))
    ensures CheckFolder(fs, source) != CheckPositive(count)
  {
    var e := PathString(source) + " is does not exist";
    var f := PyInt.IntToString(count) + " must be > 0";
    assert e[|e| - 1] == 't' && f[|f| - 1] == '0';
  }
}
