/** The parts of the file system and of the image decoder the pipeline
    consults, as plain values: every query the program makes of the disk is
    one field of a `FileSystem`. */
module Files {
  import opened Wrappers
  import opened Paths

  /** A pixel dimension reported by the decoder of a loaded image. */
  type Dim = x: int | x > 0 witness 1

  /** A decoded image: its size, the channel count the file itself has, and
      the 8-bit RGB samples the decoder was asked for. */
  datatype Bitmap = Bitmap(width: Dim, height: Dim, channels: int, pixels: seq<int>)

  datatype FileSystem = FileSystem(
    /** std::filesystem::exists */
    present: Path -> bool,
    /** the entry names directory_iterator yields, in its order; None where
        it cannot open the directory */
    listing: Path -> Option<seq<string>>,
    /** stbi_load of a file; None where the file cannot be decoded */
    load: Path -> Option<Bitmap>,
    /** QFileInfo::lastModified() in milliseconds since the Unix epoch */
    lastModifiedMs: Path -> int,
    /** std::filesystem::canonical of an existing path */
    canonical: Path -> Path,
    /** what() of the filesystem_error raised for a path */
    errorText: Path -> string)

  /** directory_iterator: the entries of `dir`, or the exception it throws. */
  function Entries(fs: FileSystem, dir: Path): Result<seq<string>>
  {
    match fs.listing(dir)
    case Some(names) => Ok(names)
    case None => Exception(fs.errorText(dir))
  }

  /** std::filesystem::canonical: throws for a path that does not exist. */
  function Canonical(fs: FileSystem, p: Path): Result<Path>
  {
    if fs.present(p) then Ok(fs.canonical(p)) else Exception(fs.errorText(p))
  }
}
