/**
 * The apply button of the image viewer: the checked tags are added to the
 * selected image, then the unchecked ones removed, and a version is
 * recorded only when the file name changed.
 */
module Viewer {
  import opened Records
  import opened NameCodec
  import opened RenameLog
  import opened TagRegistry

  /** The log after the button and how the button ends. */
  datatype Applied = Applied(log: Log, result: Outcome<Image>)

  /**
   * What the button does to the log once the two tag calls are known to
   * have renamed `file` to `q1` and then `q1` to `q2` (`added` and
   * `removed` say whether each call had tags, and so moved the entry): the
   * final version is recorded only when the file name differs from the one
   * the image started with.
   */
  function Recorded(log: Log, file: Path, icon: Icon, added: bool, q1: Path, removed: bool, q2: Path): Applied
  {
    var log1 := if added then Rotated(log, file, q1) else log;
    var log2 := if removed then Rotated(log1, q1, q2) else log1;
    var updated := Image(FileName(q2), q2, icon);
    if FileName(file) == FileName(q2) then Applied(log2, Return(updated))
    else
      match WithEvent(log2, updated)
      case Throw(e) => Applied(log2, Throw(e))
      case Return(log3) => Applied(log3, Return(updated))
  }

  /**
   * The button pressed on the image of `file`: addTag, then removeTag, then
   * the version. A failing removeTag leaves the move addTag made in place.
   */
  function Applying(log: Log, file: Path, icon: Icon, checked: seq<string>, unchecked: seq<string>): Applied
  {
    match AddedPath(file, checked)
    case None => Applied(log, Throw(StringIndexOutOfBounds))
    case Some(q1) =>
      match RemovedPath(q1, unchecked)
      case None => Applied(if checked == [] then log else Rotated(log, file, q1), Throw(StringIndexOutOfBounds))
      case Some(q2) => Recorded(log, file, icon, checked != [], q1, unchecked != [], q2)
  }

  /** A tracked image keeps its versions through the moves, and never makes the button throw NullPointerException. */
  lemma RecordedTracked(log: Log, file: Path, icon: Icon, added: bool, q1: Path, removed: bool, q2: Path)
    requires Lookup(log, file).Some?
    requires !added ==> q1 == file
    requires !removed ==> q2 == q1
    ensures var a := Recorded(log, file, icon, added, q1, removed, q2);
      a.result != Throw(NullPointer) && a.result.Return? && a.result.value.file == q2 &&
      q2 in a.log && a.log[q2] ==
        if FileName(file) == FileName(q2) then Lookup(log, file)
        else Some(Lookup(log, file).value + [a.result.value])
  {
    RotateMoves(log, file, q1);
    var log1 := if added then Rotated(log, file, q1) else log;
    assert Lookup(log1, q1) == Lookup(log, file);
    RotateMoves(log1, q1, q2);
  }

  /**
   * The versions of a tracked image follow it through the button: they end
   * under the final path, one longer when the name changed, and the button
   * never throws NullPointerException for it.
   */
  lemma ApplyTracked(log: Log, file: Path, icon: Icon, checked: seq<string>, unchecked: seq<string>)
    requires Lookup(log, file).Some?
    ensures var a := Applying(log, file, icon, checked, unchecked);
      a.result != Throw(NullPointer) &&
      (a.result.Return? ==>
        var q := a.result.value.file;
        q in a.log && a.log[q] ==
          if FileName(file) == FileName(q) then Lookup(log, file)
          else Some(Lookup(log, file).value + [a.result.value]))
  {
    var q1 := AddedPath(file, checked);
    if q1.Some? {
      var q2 := RemovedPath(q1.value, unchecked);
      if q2.Some? {
        RecordedTracked(log, file, icon, checked != [], q1.value, unchecked != [], q2.value);
      }
    }
  }

  /** An untracked image, once renamed, is left with a null entry, so recording it throws. */
  lemma RecordedUntracked(log: Log, file: Path, icon: Icon, added: bool, q1: Path, removed: bool, q2: Path)
    requires file !in log && (added || removed)
    requires !added ==> q1 == file
    requires !removed ==> q2 == q1
    requires FileName(file) != FileName(q2)
    ensures Recorded(log, file, icon, added, q1, removed, q2).result == Throw(NullPointer)
  {
    RotateMoves(log, file, q1);
    var log1 := if added then Rotated(log, file, q1) else log;
    RotateMoves(log1, q1, q2);
  }

  /**
   * An image the log does not track, once renamed, is left with a null
   * entry, so recording its new version throws NullPointerException.
   */
  lemma ApplyUntracked(log: Log, file: Path, icon: Icon, checked: seq<string>, unchecked: seq<string>)
    requires file !in log && (checked != [] || unchecked != [])
    requires AddedPath(file, checked).Some? && RemovedPath(AddedPath(file, checked).value, unchecked).Some?
    requires FileName(file) != FileName(RemovedPath(AddedPath(file, checked).value, unchecked).value)
    ensures Applying(log, file, icon, checked, unchecked).result == Throw(NullPointer)
  {
    var q1 := AddedPath(file, checked).value;
    var q2 := RemovedPath(q1, unchecked).value;
    RecordedUntracked(log, file, icon, checked != [], q1, unchecked != [], q2);
  }

  lemma RecordedKeepsValid(log: Log, file: Path, icon: Icon, added: bool, q1: Path, removed: bool, q2: Path)
    requires Valid(log)
    ensures Valid(Recorded(log, file, icon, added, q1, removed, q2).log)
  {
    RotateKeepsValid(log, file, q1);
    var log1 := if added then Rotated(log, file, q1) else log;
    RotateKeepsValid(log1, q1, q2);
    var log2 := if removed then Rotated(log1, q1, q2) else log1;
    EventKeepsValid(log2, Image(FileName(q2), q2, icon));
  }

  /** The button keeps every list of versions non-empty. */
  lemma ApplyKeepsValid(log: Log, file: Path, icon: Icon, checked: seq<string>, unchecked: seq<string>)
    requires Valid(log)
    ensures Valid(Applying(log, file, icon, checked, unchecked).log)
  {
    var q1 := AddedPath(file, checked);
    if q1.Some? {
      RotateKeepsValid(log, file, q1.value);
      var q2 := RemovedPath(q1.value, unchecked);
      if q2.Some? {
        RecordedKeepsValid(log, file, icon, checked != [], q1.value, unchecked != [], q2.value);
      }
    }
  }

  /** A button that renames nothing records nothing and leaves the log alone. */
  lemma ApplyNothing(log: Log, file: Path, icon: Icon)
    ensures Applying(log, file, icon, [], []) == Applied(log, Return(Image(FileName(file), file, icon)))
  {
  }

  /**
   * The apply button, statement by statement. The image handed to the tag
   * calls is built from the selected file, named after it.
   */
  method Apply(handler: TagHandler, history: History, file: Path, icon: Icon,
               checked: seq<string>, unchecked: seq<string>) returns (r: Outcome<Image>)
    modifies history
    ensures Applied(history.log, r) == Applying(old(history.log), file, icon, checked, unchecked)
  {
    var oldImg := Image(FileName(file), file, icon);
    var updatedImg := Image(FileName(file), file, icon);
    var added := handler.AddTag(updatedImg, checked, history);
    if added.Throw? {
      return added;
    }
    updatedImg := added.value;
    var removed := handler.RemoveTag(updatedImg, unchecked, history);
    if removed.Throw? {
      return removed;
    }
    updatedImg := removed.value;
    if oldImg.Name() != updatedImg.Name() {
      var thrown := history.AddEvent(updatedImg);
      if thrown.Some? {
        return Throw(thrown.value);
      }
    }
    return Return(updatedImg);
  }
}
