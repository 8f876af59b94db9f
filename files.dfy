/** The filesystem as touchp sees it: each existing path with its two timestamps. */
module Files {

  type Path = string

  /** A file's access time, modification time (integral seconds since the epoch) and contents. */
  datatype Entry = Entry(atime: int, mtime: int, content: string)
}
