/** The failures the core reports, and the Result/Option wrappers that carry
    them in place of Go's `(value, error)` pairs and nil pointers. */
module Errors {
  import opened Strings

  datatype Error =
    | Bounds                    // archive.ErrBounds: "Image index out of bounds."
    | NotADirectory(dir: Bytes) // dir + " is not a directory!"
    | NoImagesInZip(name: Bytes)  // name + ": no images in the zip file"
    | NoImagesInDir(name: Bytes)  // name + ": no images in the directory"
    | UnknownArchiveType
    | CurrentNotFound           // ErrCurrentNotFound
    | NoMoreArchives            // "No more archives in the directory"
    | OS(code: int)             // an error passed through from the OS or a library

  datatype Result<T> = Ok(value: T) | Err(error: Error)

  datatype Option<T> = None | Some(value: T)
}
