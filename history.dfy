/**
 * The rename log of History.java: a map from the absolute path of an image to
 * the list of its versions, oldest first. The Java HashMap may map a key to
 * null (putInLog stores whatever removeFromLog returned, null included), so
 * an entry is an Option.
 */
module RenameLog {
  import opened Records

  /** The log: for each tracked path, its versions or null. */
  type Log = map<Path, Option<seq<Image>>>

  /** What `addEvent` keeps true: every list of versions in the log holds at least one version. */
  predicate Valid(log: Log)
  {
    forall p :: p in log && log[p].Some? ==> log[p].value != []
  }

  /** HashMap.get: the versions stored for `p`, None for an untracked path and for a null entry alike. */
  function Lookup(log: Log, p: Path): Option<seq<Image>>
  {
    if p in log then log[p] else None
  }

  /**
   * addEvent: appends `img` to the versions of its path, or starts a list
   * with it when the path is untracked. A path mapped to null makes
   * `get(...).add(img)` throw NullPointerException and leaves the log alone.
   */
  function WithEvent(log: Log, img: Image): (r: Outcome<Log>)
    ensures r.Throw? <==> img.file in log && log[img.file].None?
    ensures r.Throw? ==> r.error == NullPointer
    ensures r.Return? ==> r.value.Keys == log.Keys + {img.file}
    ensures r.Return? ==>
      r.value[img.file] == Some((if img.file in log then log[img.file].value else []) + [img])
    ensures r.Return? ==> forall q :: q in log && q != img.file ==> r.value[q] == log[q]
  {
    var p := img.file;
    if p in log then
      match log[p]
      case None => Throw(NullPointer)
      case Some(versions) => Return(log[p := Some(versions + [img])])
    else
      assert [] + [img] == [img];
      Return(log[p := Some([img])])
  }

  /**
   * The key rotation of addTag, removeTag and revertBackTo,
   * `putInLog(to, removeFromLog(from))`: the versions of `from` move to `to`;
   * an untracked `from` leaves null at `to`.
   */
  function Rotated(log: Log, from: Path, to: Path): Log
  {
    (log - {from})[to := Lookup(log, from)]
  }

  /**
   * getInitial: the first version of the image's path. None for an
   * untracked path; a null entry throws NullPointerException and an empty
   * list IndexOutOfBoundsException.
   */
  function Initial(log: Log, p: Path): (r: Outcome<Option<Image>>)
    ensures p !in log <==> r == Return(None)
    ensures r == Throw(NullPointer) <==> p in log && log[p].None?
    ensures r == Throw(IndexOutOfBounds) <==> p in log && log[p] == Some([])
    ensures r.Return? && r.value.Some? ==> p in log && log[p].Some? && log[p].value[0] == r.value.value
  {
    if p !in log then Return(None)
    else
      match log[p]
      case None => Throw(NullPointer)
      case Some(versions) => if versions == [] then Throw(IndexOutOfBounds) else Return(Some(versions[0]))
  }

  /** The two results of revertBackTo: the new log and the image it returns. */
  datatype Reversion = Reversion(log: Log, image: Image)

  /**
   * revertBackTo(img, i): version `i` of the image's path names the path to
   * go back to. The versions move to that path and a fresh version for it,
   * with the image's icon, is appended. An untracked or null path throws
   * NullPointerException and an index outside the list
   * IndexOutOfBoundsException, both before anything changes.
   */
  function Reverted(log: Log, img: Image, i: int): (r: Outcome<Reversion>)
    ensures r == Throw(NullPointer) <==> Lookup(log, img.file).None?
    ensures r == Throw(IndexOutOfBounds) <==>
      Lookup(log, img.file).Some? && !(0 <= i < |Lookup(log, img.file).value|)
  {
    match Lookup(log, img.file)
    case None => Throw(NullPointer)
    case Some(versions) =>
      if !(0 <= i < |versions|) then Throw(IndexOutOfBounds)
      else
        var oldPath := versions[i].file;
        var oldImage := Image(FileName(oldPath), oldPath, img.icon);
        var moved := Rotated(log, img.file, oldPath);
        assert moved[oldPath] == Some(versions);
        Return(Reversion(moved[oldPath := Some(versions + [oldImage])], oldImage))
  }

  // ---------------------------------------------------------------------
  // addEvent

  /** addEvent keeps every list of versions non-empty. */
  lemma EventKeepsValid(log: Log, img: Image)
    requires Valid(log)
    ensures WithEvent(log, img).Return? ==> Valid(WithEvent(log, img).value)
  {
  }

  /**
   * On a tracked path addEvent appends exactly one version at the end: the
   * earlier versions stay as they were, the first one included.
   */
  lemma EventAppends(log: Log, img: Image)
    requires Lookup(log, img.file).Some?
    ensures WithEvent(log, img).Return?
    ensures var before, after := Lookup(log, img.file).value, Lookup(WithEvent(log, img).value, img.file);
      after.Some? && |after.value| == |before| + 1 && after.value[..|before|] == before
      && after.value[|before|] == img
    ensures Lookup(log, img.file).value != [] ==>
      Initial(WithEvent(log, img).value, img.file) == Initial(log, img.file)
  {
    var before := Lookup(log, img.file).value;
    assert (before + [img])[..|before|] == before;
  }

  /** On an untracked path addEvent starts a history whose first version is `img`. */
  lemma EventStarts(log: Log, img: Image)
    requires img.file !in log
    ensures WithEvent(log, img).Return?
    ensures WithEvent(log, img).value[img.file] == Some([img])
    ensures Initial(WithEvent(log, img).value, img.file) == Return(Some(img))
  {
  }

  /** addEvent touches no other path. */
  lemma EventOthers(log: Log, img: Image, q: Path)
    requires q != img.file && WithEvent(log, img).Return?
    ensures Lookup(WithEvent(log, img).value, q) == Lookup(log, q)
    ensures Initial(WithEvent(log, img).value, q) == Initial(log, q)
  {
  }

  // ---------------------------------------------------------------------
  // getInitial

  /** On a log that keeps its invariant, getInitial never indexes an empty list. */
  lemma InitialInBounds(log: Log, p: Path)
    requires Valid(log)
    ensures Initial(log, p) != Throw(IndexOutOfBounds)
  {
  }

  // ---------------------------------------------------------------------
  // Key rotation

  /**
   * Rotation moves what `from` held to `to`, null for an untracked `from`,
   * drops `from` unless it is `to`, and leaves every other path alone.
   */
  lemma RotateMoves(log: Log, from: Path, to: Path)
    ensures var r := Rotated(log, from, to);
      && to in r && r[to] == Lookup(log, from)
      && (from != to ==> from !in r)
      && (forall q :: q != from && q != to ==> Lookup(r, q) == Lookup(log, q) && (q in r <==> q in log))
  {
  }

  /** Rotating a tracked path onto itself changes nothing. */
  lemma RotateInPlace(log: Log, p: Path)
    requires p in log
    ensures Rotated(log, p, p) == log
  {
  }

  /** Rotation keeps the invariant. */
  lemma RotateKeepsValid(log: Log, from: Path, to: Path)
    requires Valid(log)
    ensures Valid(Rotated(log, from, to))
  {
  }

  /**
   * Rotating an untracked path leaves null at the new path, so the next
   * addEvent for it throws NullPointerException.
   */
  lemma RotateUntracked(log: Log, from: Path, img: Image)
    requires from !in log
    ensures WithEvent(Rotated(log, from, img.file), img) == Throw(NullPointer)
  {
  }

  // ---------------------------------------------------------------------
  // revertBackTo

  /**
   * revertBackTo moves the whole history to version i's path and makes it
   * one version longer: the old versions stay in order, and the new last one
   * is at that path and carries the image's icon. The returned image is that
   * last version.
   */
  lemma RevertGrows(log: Log, img: Image, i: int)
    requires Reverted(log, img, i).Return?
    ensures var versions, rv := Lookup(log, img.file).value, Reverted(log, img, i).value;
      var after := Lookup(rv.log, versions[i].file);
      after.Some? && |after.value| == |versions| + 1 && after.value[..|versions|] == versions
      && after.value[|versions|] == rv.image
      && rv.image.file == versions[i].file && rv.image.icon == img.icon
      && rv.image.Name() == FileName(versions[i].file)
  {
    var versions := Lookup(log, img.file).value;
    var oldPath := versions[i].file;
    var oldImage := Image(FileName(oldPath), oldPath, img.icon);
    assert (versions + [oldImage])[..|versions|] == versions;
  }

  /** revertBackTo drops the image's current path, unless version i is at that same path. */
  lemma RevertDropsOld(log: Log, img: Image, i: int)
    requires Reverted(log, img, i).Return?
    ensures var versions := Lookup(log, img.file).value;
      versions[i].file != img.file ==> img.file !in Reverted(log, img, i).value.log
  {
  }

  /** revertBackTo touches no path other than the current one and version i's. */
  lemma RevertOthers(log: Log, img: Image, i: int, q: Path)
    requires Reverted(log, img, i).Return?
    requires q != img.file && q != Lookup(log, img.file).value[i].file
    ensures Lookup(Reverted(log, img, i).value.log, q) == Lookup(log, q)
  {
  }

  /** revertBackTo keeps the invariant. */
  lemma RevertKeepsValid(log: Log, img: Image, i: int)
    requires Valid(log) && Reverted(log, img, i).Return?
    ensures Valid(Reverted(log, img, i).value.log)
  {
    var versions := Lookup(log, img.file).value;
    RotateKeepsValid(log, img.file, versions[i].file);
  }

  /**
   * The singleton History: the log as the Java object holds it. Its methods
   * follow the statements of History.java one by one.
   */
  class History {
    var log: Log

    /** The log as readFromSerFile loaded it. */
    constructor (loaded: Log)
      ensures log == loaded
    {
      log := loaded;
    }

    /** putInLog: stores `value` under `key` and nothing else. */
    method PutInLog(key: Path, value: Option<seq<Image>>)
      modifies this
      ensures log == old(log)[key := value]
    {
      log := log[key := value];
    }

    /** removeFromLog: drops `path` and returns what it held, None when it was untracked. */
    method RemoveFromLog(path: Path) returns (removed: Option<seq<Image>>)
      modifies this
      ensures removed == Lookup(old(log), path)
      ensures log == old(log) - {path}
    {
      removed := if path in log then log[path] else None;
      log := log - {path};
    }

    /** getImageHistory(path): the versions of `path`; None when untracked or null. */
    method GetImageHistory(path: Path) returns (r: Option<seq<Image>>)
      ensures r.Some? <==> path in log && log[path].Some?
      ensures r.Some? ==> r.value == log[path].value
    {
      r := if path in log then log[path] else None;
    }

    /** getInitial(img): the first version of the image's path. */
    method GetInitial(img: Image) returns (r: Outcome<Option<Image>>)
      ensures r == Initial(log, img.file)
    {
      if img.file in log {
        var versions := log[img.file];
        if versions.None? {
          return Throw(NullPointer);
        }
        if versions.value == [] {
          return Throw(IndexOutOfBounds);
        }
        return Return(Some(versions.value[0]));
      }
      return Return(None);
    }

    /** addEvent(img): the log becomes `WithEvent(old(log), img)`, or stays as it was when that throws. */
    method AddEvent(img: Image) returns (thrown: Option<Exception>)
      modifies this
      ensures WithEvent(old(log), img).Return? ==> thrown == None && log == WithEvent(old(log), img).value
      ensures WithEvent(old(log), img).Throw? ==> thrown == Some(WithEvent(old(log), img).error) && log == old(log)
    {
      var p := img.file;
      if p in log {
        var versions := log[p];
        if versions.None? {
          return Some(NullPointer);
        }
        log := log[p := Some(versions.value + [img])];
      } else {
        PutInLog(p, Some([img]));
      }
      return None;
    }

    /**
     * revertBackTo(img, i), statement by statement: look version i up,
     * move the versions to its path, and add an event for it.
     */
    method RevertBackTo(img: Image, i: int) returns (r: Outcome<Image>)
      modifies this
      ensures Reverted(old(log), img, i).Throw? ==>
        r == Throw(Reverted(old(log), img, i).error) && log == old(log)
      ensures Reverted(old(log), img, i).Return? ==>
        r == Return(Reverted(old(log), img, i).value.image) && log == Reverted(old(log), img, i).value.log
    {
      var path := img.file;
      var versions := if path in log then log[path] else None;
      if versions.None? {
        return Throw(NullPointer);
      }
      if !(0 <= i < |versions.value|) {
        return Throw(IndexOutOfBounds);
      }
      var oldPath := versions.value[i].file;
      var oldImage := Image(FileName(oldPath), oldPath, img.icon);
      var moved := RemoveFromLog(path);
      PutInLog(oldPath, moved);
      var thrown := AddEvent(oldImage);
      assert thrown == None;
      return Return(Image(FileName(oldPath), oldPath, img.icon));
    }

    /** clearHistory: the log becomes empty. */
    method ClearHistory()
      modifies this
      ensures log == map[]
    {
      log := map[];
    }
  }
}
