/**
 * What the commands learn from the filesystem.  `os.Stat`, `IsDir`,
 * `filepath.Abs` and `filepath.Glob` are parameters of the model, fixed for
 * one command run; nothing is read from a real disk.
 */
module FileSystem {
  import opened Wrappers

  datatype Env = Env(
    stat: string -> bool,           // os.Stat(p) returns no error
    isDir: string -> bool,          // ... and the entry is a directory
    abs: string -> Option<string>,  // filepath.Abs(p), None on error
    glob: string -> seq<string>)    // filepath.Glob(p), errors give no matches

  /** main.go `fileExists`: the path exists and is not a directory. */
  predicate FileExists(env: Env, p: string) {
    env.stat(p) && !env.isDir(p)
  }

  /** `full, _ := filepath.Abs(file)`: on error the path is the empty string. */
  function AbsOrEmpty(env: Env, p: string): string {
    if env.abs(p).Some? then env.abs(p).value else ""
  }
}
