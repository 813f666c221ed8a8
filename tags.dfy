/**
 * The tag registry of TagHandler.java: the list of all tags in insertion
 * order, and the two operations that rename an image by adding or removing
 * " @tag" markers and re-key the rename log.
 */
module TagRegistry {
  import opened Strings
  import opened Records
  import opened NameCodec
  import opened RenameLog

  /** The index of the first tag called `name` at `i` or after, or -1 when there is none. */
  function FirstFrom(tags: seq<Tag>, name: string, i: nat): (r: int)
    requires i <= |tags|
    ensures r == -1 || (i <= r < |tags| && tags[r].name == name)
    ensures forall j :: i <= j < |tags| && (r < 0 || j < r) ==> tags[j].name != name
    decreases |tags| - i
  {
    if i == |tags| then -1
    else if tags[i].name == name then i
    else FirstFrom(tags, name, i + 1)
  }

  /** The index of the first tag called `name`, or -1 when there is none. */
  function FirstNamed(tags: seq<Tag>, name: string): (r: int)
    ensures -1 <= r < |tags|
    ensures r >= 0 ==> tags[r].name == name
    ensures forall j :: 0 <= j < |tags| && (r < 0 || j < r) ==> tags[j].name != name
  {
    FirstFrom(tags, name, 0)
  }

  /** No two tags of the registry share a name: what createTag keeps true. */
  predicate Distinct(tags: seq<Tag>)
  {
    forall i, j :: 0 <= i < j < |tags| ==> tags[i].name != tags[j].name
  }

  /**
   * The registry after deleteTag(name): the tag findTag finds cut out, the
   * others in their order; no change when there is none.
   */
  function WithoutFirst(tags: seq<Tag>, name: string): seq<Tag>
  {
    var k := FirstNamed(tags, name);
    if k < 0 then tags else tags[..k] + tags[k + 1..]
  }

  /** The text the loop of toString builds: every tag's text followed by ", ". */
  function Listing(tags: seq<Tag>): string
  {
    if tags == [] then "" else Listing(tags[..|tags| - 1]) + tags[|tags| - 1].ToString() + ", "
  }

  /** The tags' texts separated by ", ", as toString is meant to print them. */
  function Joined(tags: seq<Tag>): string
  {
    if tags == [] then ""
    else if |tags| == 1 then tags[0].ToString()
    else Joined(tags[..|tags| - 1]) + ", " + tags[|tags| - 1].ToString()
  }

  // ---------------------------------------------------------------------
  // Properties of the registry

  /** createTag keeps the names distinct: it appends only a name that is absent. */
  lemma CreateKeepsDistinct(tags: seq<Tag>, name: string, now: string)
    requires Distinct(tags) && FirstNamed(tags, name) < 0
    ensures Distinct(tags + [Tag(name, now)])
  {
    var s := tags + [Tag(name, now)];
    forall i, j | 0 <= i < j < |s| ensures s[i].name != s[j].name {
      assert s[i] == tags[i];
    }
  }

  /** A created tag is found at the end of the registry. */
  lemma CreateThenFind(tags: seq<Tag>, name: string, now: string)
    requires FirstNamed(tags, name) < 0
    ensures FirstNamed(tags + [Tag(name, now)], name) == |tags|
  {
    var s := tags + [Tag(name, now)];
    assert s[|tags|].name == name;
    assert forall j :: 0 <= j < |tags| ==> s[j] == tags[j];
  }

  /** In a registry of distinct names, deleteTag leaves no tag of that name. */
  lemma DeleteRemovesName(tags: seq<Tag>, name: string)
    requires Distinct(tags)
    ensures FirstNamed(WithoutFirst(tags, name), name) < 0
  {
    var k := FirstNamed(tags, name);
    if k >= 0 {
      var r := WithoutFirst(tags, name);
      forall j | 0 <= j < |r| ensures r[j].name != name {
        if j < k {
          assert r[j] == tags[j];
        } else {
          assert r[j] == tags[j + 1];
        }
      }
    }
  }

  /** deleteTag keeps the names distinct. */
  lemma DeleteKeepsDistinct(tags: seq<Tag>, name: string)
    requires Distinct(tags)
    ensures Distinct(WithoutFirst(tags, name))
  {
    var k := FirstNamed(tags, name);
    if k >= 0 {
      var r := WithoutFirst(tags, name);
      forall i, j | 0 <= i < j < |r| ensures r[i].name != r[j].name {
        var i', j' := if i < k then i else i + 1, if j < k then j else j + 1;
        assert r[i] == tags[i'] && r[j] == tags[j'];
      }
    }
  }

  /** deleteTag removes exactly one tag when the name is present, and none otherwise. */
  lemma DeleteCount(tags: seq<Tag>, name: string)
    ensures var k := FirstNamed(tags, name);
      multiset(WithoutFirst(tags, name)) + (if k >= 0 then multiset{tags[k]} else multiset{}) == multiset(tags)
  {
    var k := FirstNamed(tags, name);
    if k >= 0 {
      assert WithoutFirst(tags, name) == tags[..k] + tags[k + 1..];
      CutOut(tags, k);
    } else {
      assert WithoutFirst(tags, name) == tags;
    }
  }

  /** Cutting element `k` out of a list drops one copy of it from the multiset. */
  lemma CutOut(s: seq<Tag>, k: nat)
    requires k < |s|
    ensures multiset(s[..k] + s[k + 1..]) + multiset{s[k]} == multiset(s)
  {
    var a, b := s[..k], s[k + 1..];
    assert s == a + [s[k]] + b;
    assert multiset(s) == multiset(a) + multiset{s[k]} + multiset(b);
  }

  /** The loop of toString leaves ", " after the joined text, so dropping two characters joins the tags. */
  lemma {:induction false} ListingJoined(tags: seq<Tag>)
    requires tags != []
    ensures Listing(tags) == Joined(tags) + ", "
  {
    var init, t := tags[..|tags| - 1], tags[|tags| - 1];
    if |tags| == 1 {
      assert init == [];
      assert "" + t.ToString() + ", " == t.ToString() + ", ";
    } else {
      ListingJoined(init);
      assert Listing(tags) == (Joined(init) + ", ") + t.ToString() + ", ";
      assert (Joined(init) + ", ") + t.ToString() + ", " == (Joined(init) + ", " + t.ToString()) + ", ";
    }
  }

  /** A non-empty listing is longer than the ", " toString drops. */
  lemma ListingLong(tags: seq<Tag>)
    requires tags != []
    ensures |Listing(tags)| > 2
  {
    var t := tags[|tags| - 1];
    assert |t.ToString()| >= 1;
  }

  /**
   * The registry cases of the unit tests: a search of an empty registry, of
   * an absent and of a present name; a second createTag of a name, which
   * finds the first one and so answers false; deletes of absent names and
   * of the first tag.
   */
  lemma RegistryExamples(a: string, b: string, now: string)
    ensures FirstNamed([], "NOTHING") == -1
    ensures var tags := [Tag("amir", a), Tag("alex", b)];
      FirstNamed(tags, "alex") == 1 && FirstNamed(tags, "missing") == -1 &&
      WithoutFirst(tags, "notAmirorAlex") == tags && WithoutFirst(tags, "amir") == [Tag("alex", b)]
    ensures FirstNamed([] + [Tag("amir", now)], "amir") == 0
    ensures WithoutFirst([], "non-existant") == []
  {
    var tags := [Tag("amir", a), Tag("alex", b)];
    assert tags[1..] == [Tag("alex", b)];
    assert "missing"[0] != "amir"[0] && "missing"[0] != "alex"[0];
    assert FirstFrom(tags, "missing", 1) == -1;
  }

  /**
   * The singleton TagHandler: the registry as the Java object holds it. The
   * rename log it re-keys is the History object passed in.
   */
  class TagHandler {
    var tags: seq<Tag>

    /** The registry as readFromSerFile loaded it. */
    constructor (loaded: seq<Tag>)
      ensures tags == loaded
    {
      tags := loaded;
    }

    /** findTag: the index of the first tag with that name, -1 when none has it or the name is null. */
    method FindTag(tagName: Option<string>) returns (r: int)
      ensures -1 <= r < |tags|
      ensures r >= 0 ==> tagName.Some? && tags[r].name == tagName.value
      ensures tagName.Some? ==> forall j :: 0 <= j < |tags| && (r < 0 || j < r) ==> tags[j].name != tagName.value
      ensures r == (if tagName.None? then -1 else FirstNamed(tags, tagName.value))
    {
      var i := 0;
      while i < |tags|
        invariant 0 <= i <= |tags|
        invariant tagName.Some? ==> forall j :: 0 <= j < i ==> tags[j].name != tagName.value
      {
        if tagName.Some? && tags[i].name == tagName.value {
          return i;
        }
        i := i + 1;
      }
      return -1;
    }

    /**
     * createTag: appends a tag created at `now` and answers true when the
     * name is not null and no tag has it; otherwise false, with no change.
     */
    method CreateTag(tagName: Option<string>, now: string) returns (created: bool)
      modifies this
      ensures created <==> tagName.Some? && FirstNamed(old(tags), tagName.value) < 0
      ensures tags == if created then old(tags) + [Tag(tagName.value, now)] else old(tags)
    {
      if tagName.Some? {
        var i := 0;
        while i < |tags|
          invariant 0 <= i <= |tags|
          invariant forall j :: 0 <= j < i ==> tags[j].name != tagName.value
        {
          if tags[i].name == tagName.value {
            return false;
          }
          i := i + 1;
        }
        tags := tags + [Tag(tagName.value, now)];
        return true;
      }
      return false;
    }

    /** deleteTag: removes the first tag with that name; a null name matches none. */
    method DeleteTag(tagName: Option<string>)
      modifies this
      ensures tags == if tagName.None? then old(tags) else WithoutFirst(old(tags), tagName.value)
    {
      var i := 0;
      while i < |tags|
        invariant 0 <= i <= |tags| && tags == old(tags)
        invariant tagName.Some? ==> forall j :: 0 <= j < i ==> tags[j].name != tagName.value
      {
        if tagName.Some? && tags[i].name == tagName.value {
          tags := tags[..i] + tags[i + 1..];
          return;
        }
        i := i + 1;
      }
    }

    /**
     * addTag: with no tags, the image as it is. Otherwise the image renamed
     * to `AddedPath`, keeping its icon, with the log entry of the old path
     * moved to the new one; StringIndexOutOfBoundsException, with nothing
     * changed, when the file name has no '.'.
     */
    method AddTag(img: Image, tagNames: seq<string>, history: History) returns (r: Outcome<Image>)
      modifies history
      ensures AddedPath(img.file, tagNames).None? ==>
        r == Throw(StringIndexOutOfBounds) && history.log == old(history.log)
      ensures tagNames == [] ==> r == Return(img) && history.log == old(history.log)
      ensures tagNames != [] && AddedPath(img.file, tagNames).Some? ==>
        var q := AddedPath(img.file, tagNames).value;
        r == Return(Image(FileName(q), q, img.icon)) && history.log == Rotated(old(history.log), img.file, q)
    {
      if tagNames == [] {
        return Return(img);
      }
      var absPath := img.file;
      var split := Split(absPath);
      if split.None? {
        return Throw(StringIndexOutOfBounds);
      }
      var pathNameBeforeExt := Trim(split.value.dir);
      var imgName := MarkName(img.Name(), Trim(split.value.base), tagNames);
      var ext := split.value.ext;
      imgName := Trim(imgName);
      var fileName := pathNameBeforeExt + imgName + ext;
      AddedPathOf(absPath, tagNames, split.value);
      var newImage := Image(FileName(fileName), fileName, img.icon);
      ghost var log0 := history.log;
      var moved := history.RemoveFromLog(absPath);
      history.PutInLog(fileName, moved);
      assert history.log == Rotated(log0, absPath, fileName);
      return Return(newImage);
    }

    /**
     * removeTag: with no tags, the image as it is. Otherwise the image
     * renamed to `RemovedPath`, keeping its icon, with the log entry of the
     * old path moved to the new one; StringIndexOutOfBoundsException, with
     * nothing changed, when the file name has no '.' or a marker the file
     * name holds is no longer in the name being built.
     */
    method RemoveTag(img: Image, tagNames: seq<string>, history: History) returns (r: Outcome<Image>)
      modifies history
      ensures RemovedPath(img.file, tagNames).None? ==>
        r == Throw(StringIndexOutOfBounds) && history.log == old(history.log)
      ensures tagNames == [] ==> r == Return(img) && history.log == old(history.log)
      ensures tagNames != [] && RemovedPath(img.file, tagNames).Some? ==>
        var q := RemovedPath(img.file, tagNames).value;
        r == Return(Image(FileName(q), q, img.icon)) && history.log == Rotated(old(history.log), img.file, q)
    {
      if |tagNames| == 0 {
        return Return(img);
      }
      var absPath := img.file;
      var split := Split(absPath);
      if split.None? {
        return Throw(StringIndexOutOfBounds);
      }
      var pathNameBeforeExt := split.value.dir;
      var cut := CutName(img.Name(), split.value.base, tagNames);
      if cut.None? {
        return Throw(StringIndexOutOfBounds);
      }
      var imgName := cut.value;
      var ext := split.value.ext;
      RemovedPathOf(absPath, tagNames, split.value, imgName);
      imgName := Trim(imgName);
      var fileName := pathNameBeforeExt + imgName + ext;
      var newFile := Image(FileName(fileName), fileName, img.icon);
      ghost var log0 := history.log;
      var moved := history.RemoveFromLog(absPath);
      history.PutInLog(fileName, moved);
      assert history.log == Rotated(log0, absPath, fileName);
      return Return(newFile);
    }

    /**
     * The loop of addTag: appends " @t" to `base` for every tag t, in order,
     * whose marker the image's file name `name` does not hold.
     */
    static method MarkName(name: string, base: string, tagNames: seq<string>) returns (imgName: string)
      ensures imgName == base + Markers(name, tagNames)
    {
      imgName := base;
      var k := 0;
      assert base + "" == base;
      while k < |tagNames|
        invariant 0 <= k <= |tagNames|
        invariant imgName == base + Markers(name, tagNames[..k])
      {
        var tagName := tagNames[k];
        MarkersNext(name, base, tagNames, k);
        if !Contains(name, Marker(tagName)) {
          imgName := imgName + (" " + Marker(tagName));
        }
        k := k + 1;
      }
      assert tagNames[..k] == tagNames;
    }

    /**
     * The loop of removeTag: for every tag t, in order, whose marker the
     * image's file name `name` holds, keeps the trimmed text before the first
     * marker and the text after the last one. None where substring throws,
     * because the name being built no longer holds the marker.
     */
    static method CutName(name: string, base: string, tagNames: seq<string>) returns (r: Option<string>)
      ensures r == Cut(name, base, tagNames)
    {
      var imgName := base;
      var k := 0;
      while k < |tagNames|
        invariant 0 <= k <= |tagNames|
        invariant Cut(name, base, tagNames[..k]) == Some(imgName)
      {
        var tagName := tagNames[k];
        CutNext(name, base, tagNames, k, imgName);
        var m := Marker(tagName);
        if Contains(name, m) {
          var first := IndexOf(imgName, m);
          if first < 0 {
            CutStaysNone(name, base, tagNames, k + 1);
            return None;
          }
          var last := LastIndexOf(imgName, m);
          assert first <= last && last + |tagName| + 1 <= |imgName| by {
            CutMarkerAt(name, imgName, tagName);
          }
          var cut := Trim(imgName[..first]) + imgName[last + |tagName| + 1..];
          assert CutMarker(name, imgName, tagName) == Some(cut) by {
            CutMarkerAt(name, imgName, tagName);
          }
          imgName := cut;
        } else {
          assert CutMarker(name, imgName, tagName) == Some(imgName);
        }
        k := k + 1;
      }
      assert tagNames[..k] == tagNames;
      return Some(imgName);
    }

    /** clearTags: the registry becomes empty. */
    method ClearTags()
      modifies this
      ensures tags == []
    {
      tags := [];
    }

    /** toString: the tags' texts separated by ", ". */
    method ToString() returns (s: string)
      ensures s == Joined(tags)
    {
      s := "";
      var k := 0;
      while k < |tags|
        invariant 0 <= k <= |tags|
        invariant s == Listing(tags[..k])
      {
        assert tags[..k + 1][..k] == tags[..k];
        s := s + tags[k].ToString() + ", ";
        k := k + 1;
      }
      assert tags[..k] == tags;
      if tags != [] {
        ListingLong(tags);
      }
      if |s| > 2 {
        ListingJoined(tags);
        s := s[..|s| - 2];
      }
    }
  }
}
