/**
 * The two records the components pass between them (core/types.py).
 */
module Types {
  /** A filesystem path as `pathlib.Path` keeps it: its components, in order. */
  type Path = seq<string>

  /** `AnimeMeta` (core/types.py:15-21): the identity the parser extracts from a
      filename. `rawFilename` is the filename after the bracket preprocessing. */
  datatype AnimeMeta = AnimeMeta(title: string, season: int, episode: int, rawFilename: string)

  /** `VideoFile` (core/types.py:4-10): a video on disk. The linker updates `path` and
      `filename` in place, so it is an object. `filename` is the name without its
      extension; `extension` starts with the dot. */
  class VideoFile {
    var path: Path
    var filename: string
    var extension: string

    constructor (path: Path, filename: string, extension: string)
      ensures this.path == path && this.filename == filename && this.extension == extension
    {
      this.path := path;
      this.filename := filename;
      this.extension := extension;
    }
  }
}
