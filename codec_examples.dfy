/**
 * The renames TagHandlerTest.java checks, and the quirks of the marker
 * search, worked out on concrete Windows paths.
 */
module CodecExamples {
  import opened Strings
  import opened Records
  import opened NameCodec

  /** A file name without '@' contains no marker at all. */
  lemma Unmarked(name: string, t: string)
    requires '@' !in name
    ensures !Contains(name, Marker(t))
  {
    AbsentHead(name, Marker(t));
  }

  /** How Split cuts a path that is given as its three parts. */
  lemma SplitsAs(path: Path, dir: string, base: string, ext: string)
    requires path == dir + base + ext
    requires dir == [] || dir[|dir| - 1] == Separator
    requires Separator !in base && Separator !in ext
    requires |ext| > 0 && ext[0] == '.' && '.' !in ext[1..]
    ensures Split(path) == Some(Parts(dir, base, ext))
    ensures FileName(path) == base + ext
  {
    SplitOf(dir, base, ext);
  }

  /**
   * addTag on a trimmed, unmarked path: the markers of the (distinct) new
   * tags follow the base name.
   */
  lemma AddedToUnmarked(path: Path, dir: string, base: string, ext: string, tags: seq<string>, marks: string)
    requires Split(path) == Some(Parts(dir, base, ext)) && FileName(path) == base + ext
    requires Trimmed(dir) && Trimmed(base) && Trimmed(base + marks) && tags != []
    requires Markers(base + ext, tags) == marks
    ensures AddedPath(path, tags) == Some(dir + (base + marks) + ext)
  {
    AddedPathOf(path, tags, Parts(dir, base, ext));
    TrimOfTrimmed(dir);
    TrimOfTrimmed(base);
    TrimOfTrimmed(base + marks);
  }

  // ---------------------------------------------------------------------
  // The image a.jpg of TagHandlerTest.java, in any directory `dir`

  /** A directory as getAbsolutePath prints it: not blank at the front, a separator at the end. */
  predicate Folder(dir: string)
  {
    dir != [] && !Blank(dir[0]) && dir[|dir| - 1] == Separator
  }

  /** How Split cuts the file `name`, that is `base + ".jpg"`, in `dir`. */
  lemma SplitJpg(dir: string, base: string, name: string)
    requires Folder(dir) && Separator !in base && name == base + ".jpg"
    ensures Split(dir + name) == Some(Parts(dir, base, ".jpg"))
    ensures FileName(dir + name) == name
    ensures Trimmed(dir)
  {
    assert Separator !in ".jpg";
    assert '.' !in ".jpg"[1..];
    Joined(dir, base, ".jpg", name);
    SplitsAs(dir + name, dir, base, ".jpg");
  }

  /** The path `dir + u + ".jpg"` is the file `name` in `dir`. */
  lemma Joined(dir: string, u: string, ext: string, name: string)
    requires name == u + ext
    ensures dir + u + ext == dir + name
  {
  }

  /** removeTag of one tag on a .jpg in `dir` whose base name holds that tag's marker once. */
  lemma RemovedJpg(dir: string, x: string, t: string, y: string, base: string)
    requires Folder(dir) && base == x + Marker(t) + y && Separator !in base
    requires '@' !in x && '@' !in t && !Contains(y, Marker(t))
    ensures RemovedPath(dir + base + ".jpg", [t]) == Some(dir + Trim(Trim(x) + y) + ".jpg")
  {
    SplitJpg(dir, base, base + ".jpg");
    assert dir + (base + ".jpg") == dir + base + ".jpg";
    RemovedOnce(dir + base + ".jpg", x, t, y);
  }

  /** removeTag of one tag on a trimmed .jpg in `dir` that holds no marker of it leaves the path alone. */
  lemma KeptJpg(dir: string, base: string, t: string)
    requires Folder(dir) && Separator !in base && Trimmed(base)
    requires !Contains(base + ".jpg", Marker(t))
    ensures RemovedPath(dir + base + ".jpg", [t]) == Some(dir + base + ".jpg")
  {
    SplitJpg(dir, base, base + ".jpg");
    assert dir + (base + ".jpg") == dir + base + ".jpg";
    KeptWhole(dir + base + ".jpg", dir, base, ".jpg", t);
  }

  /** removeTag of one tag the file name lacks, on a path whose base name is trimmed, leaves it alone. */
  lemma KeptWhole(path: Path, dir: string, base: string, ext: string, t: string)
    requires Split(path) == Some(Parts(dir, base, ext)) && Trimmed(base)
    requires !Contains(FileName(path), Marker(t))
    ensures RemovedPath(path, [t]) == Some(path)
  {
    assert [t][..0] == [];
    assert Cut(FileName(path), base, [t]) == Some(base);
    TrimOfTrimmed(base);
  }

  /** The marker addTag appends for amir to a.jpg. */
  lemma MarksPlain()
    ensures Markers("a.jpg", ["amir"]) == " @amir"
  {
    Unmarked("a.jpg", "amir");
    MarkersOne("a.jpg", "amir");
  }

  /** The base names of the examples, and how they join. */
  lemma TrimmedPlain()
    ensures Trimmed("a") && Trimmed("a" + " @amir") && Separator !in "a"
    ensures "a" + ".jpg" == "a.jpg" && ("a" + " @amir") + ".jpg" == "a @amir.jpg"
  {
  }

  /** testAddTag: tagging a.jpg with amir renames it to a @amir.jpg. */
  lemma AddAmir(dir: string)
    requires Folder(dir)
    ensures AddedPath(dir + "a.jpg", ["amir"]) == Some(dir + "a @amir.jpg")
  {
    TrimmedPlain();
    SplitJpg(dir, "a", "a.jpg");
    MarksPlain();
    AddedToUnmarked(dir + "a.jpg", dir, "a", ".jpg", ["amir"], " @amir");
    Joined(dir, "a" + " @amir", ".jpg", "a @amir.jpg");
  }

  /** The markers of two tags whose markers the name lacks, in input order. */
  lemma MarkersTwo(name: string, t: string, u: string)
    requires !Contains(name, Marker(t)) && !Contains(name, Marker(u))
    ensures Markers(name, [t, u]) == " " + Marker(t) + " " + Marker(u)
  {
    assert [t, u][..1] == [t];
    MarkersOne(name, t);
  }

  /** The markers addTag appends for amir and alex to a.jpg. */
  lemma MarksPlainTwo()
    ensures Markers("a.jpg", ["amir", "alex"]) == " @amir @alex"
  {
    Unmarked("a.jpg", "amir");
    Unmarked("a.jpg", "alex");
    MarkersTwo("a.jpg", "amir", "alex");
    assert " " + Marker("amir") + " " + Marker("alex") == " @amir @alex";
  }

  /** The two-tag base name, and how it joins. */
  lemma TrimmedTwo()
    ensures Trimmed("a" + " @amir @alex")
    ensures " " + Marker("amir") + " " + Marker("alex") == " @amir @alex"
    ensures ("a" + " @amir @alex") + ".jpg" == "a @amir @alex.jpg"
  {
  }

  /** testRemoveTag: tagging a.jpg with amir and alex renames it to a @amir @alex.jpg. */
  lemma AddAmirAlex(dir: string)
    requires Folder(dir)
    ensures AddedPath(dir + "a.jpg", ["amir", "alex"]) == Some(dir + "a @amir @alex.jpg")
  {
    TrimmedPlain();
    SplitJpg(dir, "a", "a.jpg");
    MarksPlainTwo();
    TrimmedTwo();
    AddedToUnmarked(dir + "a.jpg", dir, "a", ".jpg", ["amir", "alex"], " @amir @alex");
    Joined(dir, "a" + " @amir @alex", ".jpg", "a @amir @alex.jpg");
  }

  /** testRemoveTag: removing amir from a.jpg, which has no marker, leaves the path as it is. */
  lemma RemoveAmirFromPlain(dir: string)
    requires Folder(dir)
    ensures RemovedPath(dir + "a.jpg", ["amir"]) == Some(dir + "a.jpg")
  {
    TrimmedPlain();
    Unmarked("a.jpg", "amir");
    KeptJpg(dir, "a", "amir");
    Joined(dir, "a", ".jpg", "a.jpg");
  }

  /** The two-tag base name holds one marker of amir, with " @alex" after it. */
  lemma AmirThenAlex()
    ensures "a @amir @alex" == "a " + Marker("amir") + " @alex"
    ensures Separator !in "a @amir @alex" && '@' !in "a " && '@' !in "amir"
    ensures !Contains(" @alex", Marker("amir"))
    ensures "a @amir @alex" + ".jpg" == "a @amir @alex.jpg" && "a @alex" + ".jpg" == "a @alex.jpg"
  {
    var s, m := " @alex", Marker("amir");
    IndexFromMiss(s, m, 0, 0);
    IndexFromMiss(s, m, 1, 2);
  }

  /** The rest of the removal example. */
  lemma TrimmedAlex()
    ensures Trim("a ") == "a" && Trim("a" + " @alex") == "a @alex"
  {
    TrimDropsSpace("a");
    assert Trimmed("a" + " @alex");
    TrimOfTrimmed("a" + " @alex");
  }

  /** testRemoveTag: removing amir from a @amir @alex.jpg gives a @alex.jpg. */
  lemma RemoveAmirFromTwo(dir: string)
    requires Folder(dir)
    ensures RemovedPath(dir + "a @amir @alex.jpg", ["amir"]) == Some(dir + "a @alex.jpg")
  {
    AmirThenAlex();
    TrimmedAlex();
    RemovedJpg(dir, "a ", "amir", " @alex", "a @amir @alex");
    Joined(dir, "a @amir @alex", ".jpg", "a @amir @alex.jpg");
    Joined(dir, "a @alex", ".jpg", "a @alex.jpg");
  }

  /** The base name of the prefix example holds the marker of amir, with "ite" after it. */
  lemma AmirThenIte()
    ensures "a @amirite" == "a " + Marker("amir") + "ite"
    ensures Separator !in "a @amirite" && '@' !in "a " && '@' !in "amir"
    ensures "a @amirite" + ".jpg" == "a @amirite.jpg" && "aite" + ".jpg" == "aite.jpg"
  {
  }

  /** What is left of the prefix example once the marker is cut. */
  lemma TrimmedIte()
    ensures Trim("a ") == "a" && Trim("a" + "ite") == "aite"
  {
    TrimDropsSpace("a");
    assert Trimmed("a" + "ite");
    TrimOfTrimmed("a" + "ite");
  }

  /**
   * Removing amir from a file tagged amirite cuts "@amir" out of "@amirite":
   * the marker is found by substring search.
   */
  lemma RemoveAmirFromAmirite(dir: string)
    requires Folder(dir)
    ensures RemovedPath(dir + "a @amirite.jpg", ["amir"]) == Some(dir + "aite.jpg")
  {
    AmirThenIte();
    TrimmedIte();
    Unmarked("ite", "amir");
    RemovedJpg(dir, "a ", "amir", "ite", "a @amirite");
    Joined(dir, "a @amirite", ".jpg", "a @amirite.jpg");
    Joined(dir, "aite", ".jpg", "aite.jpg");
  }

  /** The one-tag base name holds one marker of amir, with nothing after it. */
  lemma AmirAlone()
    ensures "a @amir" == "a " + Marker("amir") + ""
    ensures Separator !in "a @amir" && '@' !in "a " && '@' !in "amir"
    ensures Trim("a ") + "" == "a"
    ensures "a @amir" + ".jpg" == "a @amir.jpg"
  {
    TrimDropsSpace("a");
  }

  /**
   * removeTag with the same tag twice throws: the second turn looks for the
   * marker again, because the file name it started from still holds it.
   */
  lemma RemoveAmirTwice(dir: string)
    requires Folder(dir)
    ensures RemovedPath(dir + "a @amir.jpg", ["amir", "amir"]) == None
  {
    AmirAlone();
    SplitJpg(dir, "a @amir", "a @amir.jpg");
    Unmarked("", "amir");
    Unmarked("a", "amir");
    MarkedName("a @amir", ".jpg", "a ", "amir", "");
    CutTwice("a @amir.jpg", "a ", "amir");
  }

  /** The removal loop over [t, t]: the second turn finds no marker left in `Trim(x)`. */
  lemma CutTwice(name: string, x: string, t: string)
    requires Contains(name, Marker(t)) && '@' !in x && '@' !in t
    requires !Contains("", Marker(t)) && !Contains(Trim(x), Marker(t))
    ensures Cut(name, x + Marker(t) + "", [t, t]) == None
  {
    CutOnce(name, x, t, "");
    assert Trim(x) + "" == Trim(x);
    assert [t, t][..1] == [t];
  }
}
