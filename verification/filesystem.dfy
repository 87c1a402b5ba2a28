/**
 * The file system as the server sees it: an unchanging map from path strings
 * to what lives there, and Ruby's `File.join` for building those strings.
 *
 * The map is keyed by the exact spelling of a path. Whether "a/b/.." and "a"
 * name the same node is the map's business; nothing here normalises a path.
 */
module FileSystem {

  /** A directory with the names `Dir.entries` enumerates (in that order,
      "." and ".." included when the system reports them), a regular file
      with its contents, or anything else (device, socket, FIFO, ...). */
  datatype Node = Dir(entries: seq<string>) | File(contents: string) | Other

  type FileSystem = map<string, Node>

  /** `File.directory?` */
  predicate IsDirectory(fs: FileSystem, path: string)
  {
    path in fs && fs[path].Dir?
  }

  /** `File.file?`: a regular file, not merely something that exists. */
  predicate IsRegularFile(fs: FileSystem, path: string)
  {
    path in fs && fs[path].File?
  }

  const Separator: char := '/'

  predicate AllSeparators(s: string)
  {
    forall i | 0 <= i < |s| :: s[i] == Separator
  }

  predicate EndsWithSeparator(s: string)
  {
    |s| > 0 && s[|s| - 1] == Separator
  }

  predicate StartsWithSeparator(s: string)
  {
    |s| > 0 && s[0] == Separator
  }

  /** `path` without its trailing run of separators. */
  function TrimTrailingSeparators(path: string): (r: string)
    ensures |r| <= |path| && r == path[..|r|]
    ensures AllSeparators(path[|r|..])
    ensures !EndsWithSeparator(r)
    decreases |path|
  {
    if EndsWithSeparator(path) then TrimTrailingSeparators(path[..|path| - 1]) else path
  }

  /**
   * `File.join(dir, name)` for two strings. When `name` starts with a
   * separator, `dir` loses its trailing separators; when neither side has
   * one, a separator is added; otherwise the two are simply concatenated.
   * Nothing inside either string is touched: ".." and "." survive verbatim.
   */
  function JoinPath(dir: string, name: string): (r: string)
    ensures var base := TrimTrailingSeparators(dir);
      && |base| + |name| <= |r|
      && r[..|base|] == base
      && r[|r| - |name|..] == name
      && AllSeparators(r[|base|..|r| - |name|])
      && |base| < |r| && r[|base|] == Separator
    ensures !EndsWithSeparator(dir) && !StartsWithSeparator(name) ==> r == dir + [Separator] + name
    ensures EndsWithSeparator(dir) && !StartsWithSeparator(name) ==> |r| == |dir| + |name|
    ensures StartsWithSeparator(name) ==> |r| == |TrimTrailingSeparators(dir)| + |name|
  {
    if StartsWithSeparator(name) then TrimTrailingSeparators(dir) + name
    else if EndsWithSeparator(dir) then dir + name
    else dir + [Separator] + name
  }
}
