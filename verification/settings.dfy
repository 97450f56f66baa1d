/** The fixed paths and defaults of the mover. */
module Settings {

  /** The cache pool, the only tree searched for candidates. */
  const CachePath: string := "/mnt/cache"

  /** The array share that receives the moved files. */
  const ArrayPath: string := "/mnt/user"

  /** The two roots a mover works between: `cache_path` and `array_path`. */
  datatype Roots = Roots(cachePath: string, arrayPath: string)

  /** The roots every loaded configuration has. */
  const DefaultRoots: Roots := Roots(CachePath, ArrayPath)

  /** `cache_threshold` when the configuration does not set it. */
  const DefaultThreshold: real := 90.0

  /** Suffixes of the candidate files, in the order they are gathered. */
  const VideoExtensions: seq<string> := [".mp4", ".mkv", ".avi", ".m4v"]
}
