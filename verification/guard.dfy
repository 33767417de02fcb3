/** `is_restricted_directory`: the refusal to walk the user's home
    directory, the Unix root, or, on Windows, the root of drive C. */
module Guard {
  import opened Common

  /** `os.name`: "nt" on Windows, something else ("posix") elsewhere. */
  datatype OsName = Nt | Posix

  /** What the guard learns from the running system: the platform,
      `Path.home()`, and `Path.resolve()` as a function from a path to its
      canonical absolute form. */
  datatype Host = Host(os: OsName, home: Path, resolve: Path -> Path)

  const UnixRoot: Path := "/"
  const WindowsDriveRoot: Path := "C:\\"

  /** The `restricted_paths` list, in the order the source builds it. */
  function RestrictedPaths(host: Host): (r: seq<Path>)
    ensures |r| == if host.os == Nt then 3 else 2
    ensures r[0] == host.home && r[1] == UnixRoot
    ensures host.os == Nt ==> r[2] == WindowsDriveRoot
  {
    [host.home, UnixRoot] + if host.os == Nt then [WindowsDriveRoot] else []
  }

  /** `Path(directory).resolve() in restricted_paths`. */
  function IsRestrictedDirectory(directory: Path, host: Host): (r: bool)
    ensures r <==> (
      || host.resolve(directory) == host.home
      || host.resolve(directory) == UnixRoot
      || (host.os == Nt && host.resolve(directory) == WindowsDriveRoot))
  {
    host.resolve(directory) in RestrictedPaths(host)
  }

  /** The guard looks only at the resolved path: two spellings that
      resolve to the same place (a symlink, a relative path, "..") are
      refused or admitted together. */
  lemma GuardSeesResolvedPath(d1: Path, d2: Path, host: Host)
    requires host.resolve(d1) == host.resolve(d2)
    ensures IsRestrictedDirectory(d1, host) == IsRestrictedDirectory(d2, host)
  {
  }

  /** Off Windows the drive root is no more protected than any other
      directory: it is refused only if it is the home directory. */
  lemma DriveRootOnlyOnWindows(directory: Path, host: Host)
    requires host.os == Posix && host.resolve(directory) == WindowsDriveRoot
    ensures IsRestrictedDirectory(directory, host) <==> host.home == WindowsDriveRoot
  {
  }
}
