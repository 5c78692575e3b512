/** A directory on disk, as the curation scripts see it: a mutable map from
    entry name to what the entry holds. Deleting a file (`os.remove`) and
    writing one (`cv2.imwrite`) are its two operations. */
module Storage {

  class Folder<T> {
    var files: map<string, T>

    constructor (files: map<string, T>)
      ensures this.files == files
    {
      this.files := files;
    }

    /** `os.remove(path)`: the entry must exist; only it disappears. */
    method Remove(name: string)
      requires name in files
      modifies this
      ensures files == old(files) - {name}
    {
      files := files - {name};
    }

    /** `cv2.imwrite(path, frame)`: creates the entry or overwrites it. */
    method Write(name: string, content: T)
      modifies this
      ensures files == old(files)[name := content]
    {
      files := files[name := content];
    }
  }
}
