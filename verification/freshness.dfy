/** `needs_update`: whether an output file has to be rebuilt from its
    sources, decided from modification times. */
module Freshness {

  /** What the file system says about one path: it does not exist, it
      exists with a modification time, or it exists but reading its time
      raises. */
  datatype FileStat = Missing | Stamp(mtime: int) | Unstatable

  /** A source that forces a rebuild: one strictly newer than the output,
      or one whose time cannot be read (the exception makes the answer
      true). */
  predicate Forces(src: FileStat, dest: int) {
    src.Unstatable? || (src.Stamp? && src.mtime > dest)
  }

  /** The loop of `needs_update`, with its early return. */
  method NeedsUpdate(sources: seq<FileStat>, dest: FileStat) returns (update: bool)
    ensures dest.Missing? ==> update
    ensures dest.Unstatable? ==> update
    ensures dest.Stamp? ==>
      (update <==> exists k :: 0 <= k < |sources| && Forces(sources[k], dest.mtime))
  {
    if dest.Missing? {
      return true;
    }
    if dest.Unstatable? {
      return true;
    }
    var d := dest.mtime;
    var i := 0;
    while i < |sources|
      invariant i <= |sources|
      invariant forall k :: 0 <= k < i ==> !Forces(sources[k], d)
    {
      match sources[i] {
        case Missing =>
        case Unstatable =>
          return true;
        case Stamp(t) =>
          if t > d {
            return true;
          }
      }
      i := i + 1;
    }
    return false;
  }
}
