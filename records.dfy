/**
 * The records the renamer passes around: tags, images and file paths, plus
 * the two shapes a Java call can end in (a value or a thrown exception).
 */
module Records {
  import opened Strings

  /** An absolute file path as java.io.File.getAbsolutePath gives it. */
  type Path = string

  /** A javax.swing.ImageIcon, treated as an opaque handle. */
  type Icon = nat

  /** A Java reference that may be null. */
  datatype Option<T> = None | Some(value: T)

  /** The Java exceptions the core can raise. */
  datatype Exception =
    | NullPointer             // a method called on a null reference
    | IndexOutOfBounds        // ArrayList.get with an index outside the list
    | StringIndexOutOfBounds  // String.substring with indices outside the string

  /** How a Java call ends: it returns a value or it throws. */
  datatype Outcome<T> = Return(value: T) | Throw(error: Exception)

  /** The path separator. The renamer hard-codes the Windows one. */
  const Separator: char := '\\'

  /** java.io.File.getName: the text after the last separator of the path. */
  function FileName(p: Path): (r: string)
    ensures Separator !in r
  {
    var sep := LastIndexOfChar(p, Separator);
    var r := p[sep + 1..];
    assert Separator !in r by {
      forall i | 0 <= i < |r| ensures r[i] != Separator {
        assert r[i] == p[sep + 1 + i];
      }
    }
    r
  }

  /** A tag of the registry. Its creation time is kept as the text LocalDateTime.toString gives it. */
  datatype Tag = Tag(name: string, createdAt: string)
  {
    /** Tag.toString: the name, a space and the creation time. */
    function ToString(): string
    {
      name + " " + createdAt
    }
  }

  /**
   * An image: the name it was created with, its file and its icon. The
   * creation timestamp of Image.java is not kept.
   */
  datatype Image = Image(name: string, file: Path, icon: Icon)
  {
    /** Image.getName: the name of the image's FILE, not the name field. */
    function Name(): string
    {
      FileName(file)
    }
  }
}
