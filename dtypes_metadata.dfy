/** `src/oas/dtypes/Metadata.py`: the settings of the `metadata` mode and their
    face-validity check over the file system. */
module DtypesMetadata {
  import opened PyCore
  import opened PyPath
  import opened DtypesConvert

  /** The `Metadata` settings object; `source` and `dest` are set once and read through
      read-only properties. */
  class Metadata {
    /** The folder holding the JATS files. */
    const source: Path
    /** The CSV file the metadata is written to. */
    const dest: Path

    /** `__init__`: the properties return exactly the arguments given here. */
    constructor (source: Path, dest: Path)
      ensures this.source == source && this.dest == dest
    {
      this.source := source;
      this.dest := dest;
    }

    /** `validate`: the source folder, then the folder that will contain `dest`; the first
        failing check raises. `dest` itself is never looked at. Nothing is modified. */
    method Validate(fs: FileSystem) returns (r: Outcome<()>)
      ensures r.Ok? <==> (source in fs && fs[source] == Directory && Parent(dest) in fs && fs[Parent(dest)] == Directory)
      ensures CheckFolder(fs, source).Raise? ==> r == CheckFolder(fs, source)
      ensures CheckFolder(fs, source).Ok? ==> r == CheckFolder(fs, Parent(dest))
      ensures r.Raise? ==> IsValueError(r.error)
    {
      r := CheckFolder(fs, source);
      if r.Raise? {
        return;
      }
      r := CheckFolder(fs, Parent(dest));
    }
  }

  /** Whether `dest` exists, and what it is, has no bearing on either check: adding,
      removing or retyping `dest` (a path other than the source) leaves both results as
      they were. */
  lemma DestItselfNotChecked(fs: FileSystem, source: Path, dest: Path, k: Option<Kind>)
    requires dest.parts != [] && source != dest
    ensures var fs' := if k.Some? then fs[dest := k.value] else fs - {dest};
      CheckFolder(fs', source) == CheckFolder(fs, source) && CheckFolder(fs', Parent(dest)) == CheckFolder(fs, Parent(dest))
  {
    assert Parent(dest) != dest by {
      assert |Parent(dest).parts| < |dest.parts|;
    }
  }
}
