/**
 * The name codec of TagHandler.addTag and TagHandler.removeTag: how a file
 * path is cut into directory, base name and extension, how " @tag" markers
 * are appended to the base name, and how they are cut out again. Everything
 * here follows the index arithmetic of the Java code, quirks included:
 *  - whether a marker is already present is decided against the file name the
 *    image had on entry, not the name being built;
 *  - a marker is recognised by substring search, so "@amir" is found inside
 *    "@amirite";
 *  - removal keeps the text before the FIRST occurrence of the marker and the
 *    text after the LAST one.
 */
module NameCodec {
  import opened Strings
  import opened Records

  /** The three parts addTag and removeTag cut a path into. */
  datatype Parts = Parts(dir: string, base: string, ext: string)

  /**
   * `absPath.substring(0, sep)`, `absPath.substring(sep, dot)` and
   * `absPath.substring(dot)`, where `sep` is one past the last separator and
   * `dot` is the last '.'. None where substring throws: when the file name
   * has no '.'.
   */
  function Split(path: Path): (r: Option<Parts>)
    ensures r.None? <==> '.' !in FileName(path)
    ensures r.Some? ==> r.value.dir + r.value.base + r.value.ext == path
    ensures r.Some? ==> r.value.base + r.value.ext == FileName(path)
    ensures r.Some? ==> r.value.dir == [] || r.value.dir[|r.value.dir| - 1] == Separator
    ensures r.Some? ==> |r.value.ext| > 0 && r.value.ext[0] == '.' && '.' !in r.value.ext[1..]
  {
    var sep := LastIndexOfChar(path, Separator) + 1;
    var dot := LastIndexOfChar(path, '.');
    SplitIndices(path);
    if dot < sep then None
    else
      Pieces(path, sep, dot);
      Some(Parts(path[..sep], path[sep..dot], path[dot..]))
  }

  /** Three consecutive slices put back together. */
  lemma Pieces(s: string, i: int, j: int)
    requires 0 <= i <= j <= |s|
    ensures s[..i] + s[i..j] + s[j..] == s && s[i..j] + s[j..] == s[i..]
  {
    assert s[..i] + s[i..] == s;
  }

  /** The facts about the two indices of Split that its contract rests on. */
  lemma SplitIndices(path: Path)
    ensures var sep, dot := LastIndexOfChar(path, Separator) + 1, LastIndexOfChar(path, '.');
      && FileName(path) == path[sep..]
      && (dot < sep <==> '.' !in FileName(path))
      && (sep <= dot ==> '.' !in path[dot + 1..])
  {
    var sep, dot := LastIndexOfChar(path, Separator) + 1, LastIndexOfChar(path, '.');
    if dot < sep {
      AbsentFromSlice(path, '.', sep, |path|);
    } else {
      assert path[sep..][dot - sep] == '.';
      AbsentFromSlice(path, '.', dot + 1, |path|);
    }
  }

  /** The pieces of a path determine how Split cuts it. */
  lemma SplitOf(dir: string, base: string, ext: string)
    requires dir == [] || dir[|dir| - 1] == Separator
    requires Separator !in base && Separator !in ext
    requires |ext| > 0 && ext[0] == '.' && '.' !in ext[1..]
    ensures Split(dir + base + ext) == Some(Parts(dir, base, ext))
  {
    var path := dir + base + ext;
    var sep := LastIndexOfChar(path, Separator);
    var dot := LastIndexOfChar(path, '.');
    forall j | |dir| <= j < |path| ensures path[j] != Separator {
      if j < |dir| + |base| {
        assert path[j] == base[j - |dir|];
      } else {
        assert path[j] == ext[j - |dir| - |base|];
      }
    }
    assert sep == |dir| - 1 by {
      if dir != [] {
        assert path[|dir| - 1] == Separator;
      }
    }
    assert path[|dir| + |base|] == '.';
    forall j | |dir| + |base| < j < |path| ensures path[j] != '.' {
      assert path[j] == ext[1..][j - |dir| - |base| - 1];
    }
    assert dot == |dir| + |base|;
    assert path[..sep + 1] == dir;
    assert path[sep + 1..dot] == base;
    assert path[dot..] == ext;
  }

  /** The marker a tag leaves in a file name. */
  function Marker(t: string): string
  {
    "@" + t
  }

  /**
   * A tag name the codec handles well: no blank character (trim would eat
   * its end), no separator (it would move the directory boundary) and no '.'
   * (a marker could then run into the extension).
   */
  predicate TagWord(t: string)
  {
    NoBlank(t) && Separator !in t && '.' !in t
  }

  /**
   * The text the loop of addTag appends to the base name, in input order:
   * " @t" for every tag t whose marker `name` does not contain.
   */
  function Markers(name: string, tags: seq<string>): string
  {
    if tags == [] then ""
    else
      var t := tags[|tags| - 1];
      Markers(name, tags[..|tags| - 1]) + (if Contains(name, Marker(t)) then "" else " " + Marker(t))
  }

  /** One more turn of the loop of addTag, on a base name `b`. */
  lemma MarkersNext(name: string, b: string, tags: seq<string>, k: nat)
    requires k < |tags|
    ensures var m, before := Marker(tags[k]), b + Markers(name, tags[..k]);
      b + Markers(name, tags[..k + 1]) == if Contains(name, m) then before else before + (" " + m)
  {
    var m := Marker(tags[k]);
    var ms := Markers(name, tags[..k]);
    assert tags[..k + 1][..k] == tags[..k];
    if Contains(name, m) {
      assert ms + "" == ms;
    } else {
      assert b + (ms + (" " + m)) == (b + ms) + (" " + m);
    }
  }

  /**
   * The path addTag gives an image whose file is at `path`: unchanged for an
   * empty tag list; otherwise the trimmed directory, the trimmed base name
   * with the new markers, trimmed again, and the extension. None where the
   * Java code throws StringIndexOutOfBoundsException.
   */
  function AddedPath(path: Path, tags: seq<string>): (r: Option<Path>)
    ensures tags == [] ==> r == Some(path)
    ensures r.None? <==> tags != [] && '.' !in FileName(path)
  {
    if tags == [] then Some(path)
    else
      match Split(path)
      case None => None
      case Some(parts) =>
        Some(Trim(parts.dir) + Trim(Trim(parts.base) + Markers(FileName(path), tags)) + parts.ext)
  }

  /**
   * One turn of the loop of removeTag: when `name` contains the marker of
   * `t`, keep the trimmed text of `cur` before the first occurrence of the
   * marker and the text after its last occurrence. None where
   * `cur.indexOf(marker)` is -1 and substring throws.
   */
  function CutMarker(name: string, cur: string, t: string): (r: Option<string>)
    ensures !Contains(name, Marker(t)) ==> r == Some(cur)
    ensures Contains(name, Marker(t)) ==> (r.None? <==> !Contains(cur, Marker(t)))
    ensures r.Some? ==> |r.value| <= |cur|
  {
    var m := Marker(t);
    if !Contains(name, m) then Some(cur)
    else
      var first := IndexOf(cur, m);
      if first < 0 then None
      else
        var last := LastIndexOf(cur, m);
        assert first <= last;
        Some(Trim(cur[..first]) + cur[last + |m|..])
  }

  /** The loop of removeTag over `tags`, in input order, starting from `base`. */
  function Cut(name: string, base: string, tags: seq<string>): Option<string>
  {
    if tags == [] then Some(base)
    else
      match Cut(name, base, tags[..|tags| - 1])
      case None => None
      case Some(cur) => CutMarker(name, cur, tags[|tags| - 1])
  }

  /**
   * The path removeTag gives an image whose file is at `path`: unchanged for
   * an empty tag list; otherwise the directory, the base name with the
   * markers cut, trimmed, and the extension. None where the Java code throws
   * StringIndexOutOfBoundsException.
   */
  function RemovedPath(path: Path, tags: seq<string>): (r: Option<Path>)
    ensures tags == [] ==> r == Some(path)
    ensures tags != [] && '.' !in FileName(path) ==> r.None?
  {
    if tags == [] then Some(path)
    else
      match Split(path)
      case None => None
      case Some(parts) =>
        match Cut(FileName(path), parts.base, tags)
        case None => None
        case Some(b) => Some(parts.dir + Trim(b) + parts.ext)
  }

  /** removeTag on a path that splits into `parts` and whose loop ends with `b`, unfolded. */
  lemma RemovedPathOf(path: Path, tags: seq<string>, parts: Parts, b: string)
    requires tags != [] && Split(path) == Some(parts) && Cut(FileName(path), parts.base, tags) == Some(b)
    ensures RemovedPath(path, tags) == Some(parts.dir + Trim(b) + parts.ext)
  {
  }

  // ---------------------------------------------------------------------
  // Properties of the markers addTag appends

  /** A marker is never empty and holds the characters of its tag and '@'. */
  lemma MarkerShape(t: string)
    ensures Marker(t) != []
    ensures NoBlank(t) ==> NoBlank(Marker(t))
    ensures '.' !in t ==> '.' !in Marker(t)
  {
    assert forall i :: 0 < i < |Marker(t)| ==> Marker(t)[i] == t[i - 1];
  }

  /** Every tag whose marker `name` lacks leaves its marker in the appended text. */
  lemma {:induction false} MarkersContain(name: string, tags: seq<string>, j: nat)
    requires j < |tags| && !Contains(name, Marker(tags[j]))
    ensures Contains(Markers(name, tags), Marker(tags[j]))
  {
    var init, t := tags[..|tags| - 1], tags[|tags| - 1];
    var tail := if Contains(name, Marker(t)) then "" else " " + Marker(t);
    assert Markers(name, tags) == Markers(name, init) + tail;
    if j == |tags| - 1 {
      assert (" " + Marker(t))[1..] == Marker(t);
      ContainsAt(" " + Marker(t), Marker(t), 1);
      ContainsInConcat(tail, Markers(name, init), Marker(t));
    } else {
      assert init[j] == tags[j];
      MarkersContain(name, init, j);
      ContainsInConcat(Markers(name, init), tail, Marker(tags[j]));
    }
  }

  /** Nothing is appended when `name` already carries every marker. */
  lemma {:induction false} MarkersEmpty(name: string, tags: seq<string>)
    requires forall t :: t in tags ==> Contains(name, Marker(t))
    ensures Markers(name, tags) == ""
  {
    if tags != [] {
      MarkersEmpty(name, tags[..|tags| - 1]);
    }
  }

  /** The appended text holds no character that no tag holds, other than ' ' and '@'. */
  lemma {:induction false} MarkersAvoid(name: string, tags: seq<string>, c: char)
    requires c != ' ' && c != '@'
    requires forall t :: t in tags ==> c !in t
    ensures c !in Markers(name, tags)
  {
    if tags != [] {
      MarkersAvoid(name, tags[..|tags| - 1], c);
    }
  }

  /** A marker without '.' found in a base name and extension lies in one of them. */
  lemma ContainsAcross(b: string, e: string, m: string)
    requires Contains(b + e, m) && '.' !in m
    requires |e| > 0 && e[0] == '.'
    ensures Contains(b, m) || Contains(e, m)
  {
    var s := b + e;
    var k := IndexOf(s, m);
    if k + |m| <= |b| {
      assert s[k..k + |m|] == b[k..k + |m|];
      ContainsAt(b, m, k);
    } else if k >= |b| {
      assert s[k..k + |m|] == e[k - |b|..k - |b| + |m|];
      ContainsAt(e, m, k - |b|);
    } else {
      OccurrenceChar(s, m, k, |b| - k);
      assert false;
    }
  }

  /** The directory part keeps ending in a separator once trimmed. */
  lemma TrimDir(d: string)
    requires d == [] || d[|d| - 1] == Separator
    ensures Trim(d) == [] || Trim(d)[|Trim(d)| - 1] == Separator
  {
    if d != [] {
      TrimKeepsLast(d);
    }
  }

  // ---------------------------------------------------------------------
  // addTag

  /**
   * addTag keeps the directory part (trimmed) and the extension, when no tag
   * holds a separator; the new base name is the trimmed old one with the
   * markers, trimmed.
   */
  lemma AddedPathSplit(path: Path, tags: seq<string>)
    requires tags != [] && Split(path).Some?
    requires forall t :: t in tags ==> Separator !in t
    ensures AddedPath(path, tags).Some?
    ensures var parts := Split(path).value;
      Split(AddedPath(path, tags).value)
        == Some(Parts(Trim(parts.dir), Trim(Trim(parts.base) + Markers(FileName(path), tags)), parts.ext))
  {
    var parts := Split(path).value;
    var ms := Markers(FileName(path), tags);
    var b0 := Trim(parts.base);
    var b1 := Trim(b0 + ms);
    var d := Trim(parts.dir);
    assert Separator !in parts.ext && Separator !in b1 by {
      AbsentFromParts(parts.base, parts.ext, Separator);
      TrimAvoids(parts.base, Separator);
      MarkersAvoid(FileName(path), tags, Separator);
      TrimAvoids(b0 + ms, Separator);
    }
    assert d == [] || d[|d| - 1] == Separator by {
      TrimDir(parts.dir);
    }
    assert |parts.ext| > 0 && parts.ext[0] == '.' && '.' !in parts.ext[1..];
    SplitOf(d, b1, parts.ext);
  }

  /** addTag on a path that splits into `parts`, unfolded. */
  lemma AddedPathOf(path: Path, tags: seq<string>, parts: Parts)
    requires tags != [] && Split(path) == Some(parts)
    ensures AddedPath(path, tags) == Some(Trim(parts.dir) + Trim(Trim(parts.base) + Markers(FileName(path), tags)) + parts.ext)
  {
  }

  /**
   * A blank-free marker without '.' that the old file name or the appended
   * text holds is in the new file name.
   */
  lemma MarkSurvives(base: string, ext: string, ms: string, m: string)
    requires m != [] && NoBlank(m) && '.' !in m
    requires |ext| > 0 && ext[0] == '.'
    requires Contains(base + ext, m) || Contains(ms, m)
    ensures Contains(Trim(Trim(base) + ms) + ext, m)
  {
    var joined := Trim(base) + ms;
    if Contains(base + ext, m) {
      ContainsAcross(base, ext, m);
      if Contains(base, m) {
        TrimKeepsWord(base, m);
        ContainsInConcat(Trim(base), ms, m);
        TrimKeepsWord(joined, m);
        ContainsInConcat(Trim(joined), ext, m);
      } else {
        ContainsInConcat(ext, Trim(joined), m);
      }
    } else {
      ContainsInConcat(ms, Trim(base), m);
      TrimKeepsWord(joined, m);
      ContainsInConcat(Trim(joined), ext, m);
    }
  }

  /** After addTag, the file name carries the marker of every requested tag. */
  lemma AddedMarksAll(path: Path, tags: seq<string>, j: nat)
    requires j < |tags| && Split(path).Some?
    requires forall t :: t in tags ==> TagWord(t)
    ensures AddedPath(path, tags).Some?
    ensures Contains(FileName(AddedPath(path, tags).value), Marker(tags[j]))
  {
    var parts := Split(path).value;
    var name := FileName(path);
    var m := Marker(tags[j]);
    var ms := Markers(name, tags);
    AddedPathSplit(path, tags);
    var q := AddedPath(path, tags).value;
    assert FileName(q) == Trim(Trim(parts.base) + ms) + parts.ext;
    assert TagWord(tags[j]) by { assert tags[j] in tags; }
    MarkerShape(tags[j]);
    assert Contains(parts.base + parts.ext, m) || Contains(ms, m) by {
      assert name == parts.base + parts.ext;
      if !Contains(name, m) {
        MarkersContain(name, tags, j);
      }
    }
    MarkSurvives(parts.base, parts.ext, ms, m);
  }

  /** After addTag, the file name carries the markers of all requested tags. */
  lemma AddedMarksEvery(path: Path, tags: seq<string>)
    requires Split(path).Some?
    requires forall t :: t in tags ==> TagWord(t)
    ensures AddedPath(path, tags).Some?
    ensures forall t :: t in tags ==> Contains(FileName(AddedPath(path, tags).value), Marker(t))
  {
    forall t | t in tags ensures Contains(FileName(AddedPath(path, tags).value), Marker(t)) {
      var j :| 0 <= j < |tags| && tags[j] == t;
      AddedMarksAll(path, tags, j);
    }
  }

  /** addTag changes nothing on a path whose parts are trimmed and that already carries every marker. */
  lemma AddedToMarked(q: Path, tags: seq<string>, parts: Parts)
    requires tags != [] && Split(q) == Some(parts)
    requires Trimmed(parts.dir) && Trimmed(parts.base)
    requires forall t :: t in tags ==> Contains(FileName(q), Marker(t))
    ensures AddedPath(q, tags) == Some(q)
  {
    MarkersEmpty(FileName(q), tags);
    TrimOfTrimmedEmpty(parts.base);
    TrimOfTrimmed(parts.dir);
  }

  /**
   * addTag is idempotent: applying it a second time with the same tags
   * changes nothing, because every marker is then present.
   */
  lemma AddIdempotent(path: Path, tags: seq<string>)
    requires Split(path).Some?
    requires forall t :: t in tags ==> TagWord(t)
    ensures AddedPath(path, tags).Some?
    ensures AddedPath(AddedPath(path, tags).value, tags) == AddedPath(path, tags)
  {
    if tags != [] {
      var parts := Split(path).value;
      AddedPathSplit(path, tags);
      var q := AddedPath(path, tags).value;
      AddedMarksEvery(path, tags);
      TrimIsTrimmed(parts.dir);
      TrimIsTrimmed(Trim(parts.base) + Markers(FileName(path), tags));
      AddedToMarked(q, tags, Split(q).value);
    }
  }

  // ---------------------------------------------------------------------
  // removeTag

  /** The removal loop leaves the base name alone when no tag's marker is in `name`. */
  lemma {:induction false} CutAbsent(name: string, base: string, tags: seq<string>)
    requires forall t :: t in tags ==> !Contains(name, Marker(t))
    ensures Cut(name, base, tags) == Some(base)
  {
    if tags != [] {
      CutAbsent(name, base, tags[..|tags| - 1]);
    }
  }

  /** One more turn of the loop of removeTag. */
  lemma CutNext(name: string, base: string, tags: seq<string>, k: nat, cur: string)
    requires k < |tags| && Cut(name, base, tags[..k]) == Some(cur)
    ensures Cut(name, base, tags[..k + 1]) == CutMarker(name, cur, tags[k])
  {
    assert tags[..k + 1][..k] == tags[..k];
  }

  /** A turn of the loop of removeTag that finds the marker, in the index arithmetic of the Java code. */
  lemma CutMarkerAt(name: string, cur: string, t: string)
    requires Contains(name, Marker(t)) && IndexOf(cur, Marker(t)) >= 0
    ensures IndexOf(cur, Marker(t)) <= LastIndexOf(cur, Marker(t))
    ensures LastIndexOf(cur, Marker(t)) + |t| + 1 <= |cur|
    ensures CutMarker(name, cur, t)
      == Some(Trim(cur[..IndexOf(cur, Marker(t))]) + cur[LastIndexOf(cur, Marker(t)) + |t| + 1..])
  {
  }

  /**
   * The text one turn of removeTag keeps, told by the occurrences of the
   * marker alone: the trimmed text before its first occurrence `i`, then
   * the text after its last occurrence `j`.
   */
  lemma CutMarkerBetween(name: string, cur: string, t: string, i: int, j: int)
    requires Contains(name, Marker(t)) && OccursAt(cur, Marker(t), i) && OccursAt(cur, Marker(t), j)
    requires forall k :: 0 <= k < i ==> !OccursAt(cur, Marker(t), k)
    requires forall k :: j < k ==> !OccursAt(cur, Marker(t), k)
    ensures i <= j && j + |t| + 1 <= |cur|
    ensures CutMarker(name, cur, t) == Some(Trim(cur[..i]) + cur[j + |t| + 1..])
  {
    FirstOccurrence(cur, Marker(t), i);
    LastOccurrence(cur, Marker(t), j);
    CutMarkerAt(name, cur, t);
  }

  /** An occurrence with none before it is the one indexOf finds. */
  lemma FirstOccurrence(s: string, p: string, i: int)
    requires OccursAt(s, p, i) && forall k :: 0 <= k < i ==> !OccursAt(s, p, k)
    ensures IndexOf(s, p) == i
  {
  }

  /** An occurrence with none after it is the one lastIndexOf finds. */
  lemma LastOccurrence(s: string, p: string, j: int)
    requires OccursAt(s, p, j) && forall k :: j < k ==> !OccursAt(s, p, k)
    ensures LastIndexOf(s, p) == j
  {
  }

  /** Once a turn of the removal loop throws, the whole loop throws. */
  lemma {:induction false} CutStaysNone(name: string, base: string, tags: seq<string>, k: nat)
    requires k <= |tags| && Cut(name, base, tags[..k]) == None
    ensures Cut(name, base, tags) == None
    decreases |tags| - k
  {
    if k < |tags| {
      assert tags[..k + 1][..k] == tags[..k];
      CutStaysNone(name, base, tags, k + 1);
    } else {
      assert tags[..k] == tags;
    }
  }

  /** removeTag skips the tags whose marker is absent: only the trims remain. */
  lemma RemoveAbsent(path: Path, tags: seq<string>)
    requires tags != [] && Split(path).Some?
    requires forall t :: t in tags ==> !Contains(FileName(path), Marker(t))
    ensures var parts := Split(path).value;
      RemovedPath(path, tags) == Some(parts.dir + Trim(parts.base) + parts.ext)
  {
    CutAbsent(FileName(path), Split(path).value.base, tags);
  }

  /** The base name addTag builds from a trimmed base `bt` and one new tag. */
  function Appended(bt: string, t: string): string
  {
    if bt == [] then Marker(t) else bt + " " + Marker(t)
  }

  /**
   * Cutting the marker of `t` out of `Appended(bt, t)` gives back `bt`,
   * when `bt` is trimmed and does not hold that marker itself.
   */
  lemma CutAppended(name: string, bt: string, t: string)
    requires Trimmed(bt) && TagWord(t) && !Contains(bt, Marker(t))
    ensures Contains(Appended(bt, t), Marker(t))
    ensures Contains(name, Marker(t)) ==> CutMarker(name, Appended(bt, t), t) == Some(bt)
  {
    var m := Marker(t);
    var b1 := Appended(bt, t);
    MarkerShape(t);
    if bt == [] {
      assert OccursAt(m, m, 0);
      ContainsAt(m, m, 0);
      if Contains(name, m) {
        assert CutMarker(name, b1, t) == Some(Trim(m[..0]) + m[|m|..]);
      }
    } else {
      assert b1 == bt + " " + m;
      OnlyAtEnd(bt, m);
      assert IndexOf(b1, m) == |bt| + 1 && LastIndexOf(b1, m) == |bt| + 1;
      assert Contains(b1, m);
      assert b1[..|bt| + 1] == bt + " ";
      TrimDropsSpace(bt);
      assert b1[|bt| + 1 + |m|..] == [];
      assert Trim(b1[..|bt| + 1]) + b1[|bt| + 1 + |m|..] == bt + [];
      assert bt + [] == bt;
      if Contains(name, m) {
        assert CutMarker(name, b1, t) == Some(Trim(b1[..|bt| + 1]) + b1[|bt| + 1 + |m|..]);
      }
    }
  }

  /** addTag with one new tag appends its marker to the trimmed base name. */
  lemma AddedOne(path: Path, t: string)
    requires Split(path).Some? && TagWord(t)
    requires !Contains(FileName(path), Marker(t))
    ensures AddedPath(path, [t]).Some?
    ensures var parts := Split(path).value;
      Split(AddedPath(path, [t]).value) == Some(Parts(Trim(parts.dir), Appended(Trim(parts.base), t), parts.ext))
  {
    var parts := Split(path).value;
    assert Split(AddedPath(path, [t]).value)
        == Some(Parts(Trim(parts.dir), Trim(Trim(parts.base) + Markers(FileName(path), [t])), parts.ext)) by {
      assert forall u :: u in [t] ==> Separator !in u;
      AddedPathSplit(path, [t]);
    }
    TrimAppended(FileName(path), parts.base, t);
  }

  /** The markers of a single tag whose marker the name lacks. */
  lemma MarkersOne(name: string, t: string)
    requires !Contains(name, Marker(t))
    ensures Markers(name, [t]) == " " + Marker(t)
  {
    assert [t][..0] == [];
    assert "" + (" " + Marker(t)) == " " + Marker(t);
  }

  /** The base name addTag builds from `base` and one tag whose marker `name` lacks. */
  lemma TrimAppended(name: string, base: string, t: string)
    requires TagWord(t) && !Contains(name, Marker(t))
    ensures Trim(Trim(base) + Markers(name, [t])) == Appended(Trim(base), t)
  {
    var bt := Trim(base);
    var m := Marker(t);
    MarkerShape(t);
    MarkersOne(name, t);
    assert bt + (" " + m) == bt + " " + m;
    TrimIsTrimmed(base);
    TrimJoin(bt, m);
  }

  /** removeTag of one tag cuts its marker back out of the base name `Appended(bt, t)`. */
  lemma RemovedOne(q: Path, parts: Parts, bt: string, t: string)
    requires Split(q) == Some(parts) && parts.base == Appended(bt, t)
    requires Trimmed(bt) && TagWord(t) && !Contains(bt, Marker(t))
    ensures RemovedPath(q, [t]) == Some(parts.dir + bt + parts.ext)
  {
    var m := Marker(t);
    MarkerShape(t);
    CutAppended(FileName(q), bt, t);
    assert Contains(FileName(q), m) by {
      assert FileName(q) == parts.base + parts.ext;
      ContainsInConcat(parts.base, parts.ext, m);
    }
    assert Cut(FileName(q), parts.base, [t]) == Some(bt) by {
      assert [t][..0] == [];
    }
    TrimOfTrimmed(bt);
  }

  /**
   * The marker of `t` occurs in `x + Marker(t) + y` only right after `x`,
   * when neither `x` nor `t` holds an '@' and `y` holds no such marker.
   */
  lemma MarkerOnce(x: string, t: string, y: string)
    requires '@' !in x && '@' !in t && !Contains(y, Marker(t))
    ensures IndexOf(x + Marker(t) + y, Marker(t)) == |x|
    ensures LastIndexOf(x + Marker(t) + y, Marker(t)) == |x|
  {
    var m := Marker(t);
    var s := x + m + y;
    assert s[|x|..|x| + |m|] == m;
    assert OccursAt(s, m, |x|);
    FirstMarker(s, x, m);
    LastMarker(s, x, t, y);
  }

  /** No occurrence of `m` starts inside `x`, an '@'-free prefix of `s`. */
  lemma FirstMarker(s: string, x: string, m: string)
    requires OccursAt(s, m, |x|) && s[..|x|] == x && m != [] && m[0] == '@' && '@' !in x
    ensures IndexOf(s, m) == |x|
  {
    var f := IndexOf(s, m);
    if f < |x| {
      PrefixOccurrence(s, x, m, f);
      assert false;
    }
  }

  /** An occurrence of `m` starting inside the prefix `x` puts `m`'s first character in `x`. */
  lemma PrefixOccurrence(s: string, x: string, m: string, f: int)
    ensures 0 <= f < |x| <= |s| && s[..|x|] == x && OccursAt(s, m, f) && m != [] ==> m[0] in x
  {
    if 0 <= f < |x| <= |s| && s[..|x|] == x && OccursAt(s, m, f) && m != [] {
      OccurrenceChar(s, m, f, 0);
      assert s[..|x|][f] == s[f];
    }
  }

  /** No occurrence of the marker starts after the one right after `x`. */
  lemma LastMarker(s: string, x: string, t: string, y: string)
    requires s == x + Marker(t) + y && OccursAt(s, Marker(t), |x|)
    requires '@' !in t && !Contains(y, Marker(t))
    ensures LastIndexOf(s, Marker(t)) == |x|
  {
    var m := Marker(t);
    var l := LastIndexOf(s, m);
    if |x| < l < |x| + |m| {
      OccurrenceChar(s, m, l, 0);
      assert false;
    }
    if l >= |x| + |m| {
      LaterOccurrence(x + m, y, m, l - |x| - |m|);
      assert false;
    }
  }

  /** An occurrence inside the second operand of a concatenation is an occurrence in it. */
  lemma LaterOccurrence(a: string, y: string, m: string, k: int)
    ensures 0 <= k && OccursAt(a + y, m, |a| + k) ==> OccursAt(y, m, k)
  {
    if 0 <= k && OccursAt(a + y, m, |a| + k) {
      SliceOfRight(a, y, k, |m|);
    }
  }

  /**
   * removeTag of one tag whose marker sits once in the base name keeps the
   * trimmed text before the marker and ALL the text after it: a marker that
   * is only the start of a longer word leaves the rest of that word behind.
   */
  lemma RemovedOnce(q: Path, x: string, t: string, y: string)
    requires Split(q).Some? && Split(q).value.base == x + Marker(t) + y
    requires '@' !in x && '@' !in t && !Contains(y, Marker(t))
    ensures var parts := Split(q).value;
      RemovedPath(q, [t]) == Some(parts.dir + Trim(Trim(x) + y) + parts.ext)
  {
    var parts := Split(q).value;
    MarkedName(parts.base, parts.ext, x, t, y);
    CutOnce(FileName(q), x, t, y);
  }

  /** A name whose base holds a marker holds it too. */
  lemma MarkedName(base: string, ext: string, x: string, t: string, y: string)
    requires base == x + Marker(t) + y
    ensures Contains(base + ext, Marker(t))
  {
    var m := Marker(t);
    assert base[|x|..|x| + |m|] == m;
    assert OccursAt(base, m, |x|);
    ContainsAt(base, m, |x|);
    ContainsInConcat(base, ext, m);
  }

  /** The removal loop over the single tag `t` whose marker sits once in the base name. */
  lemma CutOnce(name: string, x: string, t: string, y: string)
    requires Contains(name, Marker(t))
    requires '@' !in x && '@' !in t && !Contains(y, Marker(t))
    ensures Cut(name, x + Marker(t) + y, [t]) == Some(Trim(x) + y)
  {
    var m := Marker(t);
    var b := x + m + y;
    MarkerOnce(x, t, y);
    assert b[..|x|] == x;
    assert b[|x| + |m|..] == y;
    assert [t][..0] == [];
  }

  /**
   * Round trip: removing a tag that addTag has just added gives back the
   * trimmed directory, the trimmed base name and the extension, for a tag
   * whose marker the name did not hold.
   */
  lemma AddThenRemove(path: Path, t: string)
    requires Split(path).Some? && TagWord(t)
    requires !Contains(FileName(path), Marker(t))
    ensures AddedPath(path, [t]).Some?
    ensures var parts := Split(path).value;
      RemovedPath(AddedPath(path, [t]).value, [t]) == Some(Trim(parts.dir) + Trim(parts.base) + parts.ext)
  {
    var parts := Split(path).value;
    var bt := Trim(parts.base);
    AddedOne(path, t);
    var q := AddedPath(path, [t]).value;
    assert !Contains(bt, Marker(t)) by {
      if Contains(bt, Marker(t)) {
        ContainsInTrim(parts.base, Marker(t));
        ContainsInConcat(parts.base, parts.ext, Marker(t));
      }
    }
    RemovedOne(q, Split(q).value, bt, t);
  }

  /** The round trip restores a path whose directory and base name carry no stray blanks. */
  lemma AddThenRemoveRestores(path: Path, t: string)
    requires Split(path).Some? && TagWord(t)
    requires Trimmed(Split(path).value.dir) && Trimmed(Split(path).value.base)
    requires !Contains(FileName(path), Marker(t))
    ensures AddedPath(path, [t]).Some?
    ensures RemovedPath(AddedPath(path, [t]).value, [t]) == Some(path)
  {
    var parts := Split(path).value;
    AddThenRemove(path, t);
    TrimOfTrimmed(parts.dir);
    TrimOfTrimmed(parts.base);
  }
}
