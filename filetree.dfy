/**
 * The directory tree of FileNode.java: which files a directory scan keeps
 * (the image-extension filter), how the tree of nodes is built from the
 * file system, how a node is looked up anywhere below a node, and the list
 * of selected files that a tree is flattened into.
 *
 * The file system arrives as an `Entry` value (what File.isDirectory and
 * File.listFiles report). A node is a value whose children map each child
 * file to its node.
 */
module FileTree {
  import opened Strings
  import opened Records

  /** A file system entry: a plain file, or a directory with its listing in listFiles order. */
  datatype Entry = FileEntry(path: Path) | DirEntry(path: Path, listing: seq<Entry>)
  {
    /** File.getName of the entry. */
    function Name(): string
    {
      FileName(path)
    }
  }

  /** FileType: whether a node stands for a file or a directory. */
  datatype FileType = File | Directory

  /** A node of the tree: its name, its file, its type and its children keyed by their files. */
  datatype FileNode = FileNode(name: string, file: Path, kind: FileType, children: map<Path, FileNode>)

  /** A node with no children yet, as the FileNode constructor makes it. */
  function Leaf(name: string, file: Path, kind: FileType): (r: FileNode)
    ensures r.name == name && r.file == file && r.kind == kind && r.children == map[]
  {
    FileNode(name, file, kind, map[])
  }

  // ---------------------------------------------------------------------
  // The image filter
  // ---------------------------------------------------------------------

  /** IMG_EXT, in its order. The last one has no dot. */
  const ImageExtensions: seq<string> := [".JPG", ".JPEG", ".jpg", "jpeg"]

  /** A non-blank suffix test, used to state what the filter amounts to. */
  predicate EndsWith(s: string, x: string)
  {
    |x| <= |s| && s[|s| - |x|..] == x
  }

  lemma ContainsLast(s: string, p: string)
    requires Contains(s, p)
    ensures LastIndexOf(s, p) >= IndexOf(s, p) >= 0
  {
  }

  /** A dot in `s` is an occurrence of ".". */
  lemma DotAt(s: string, k: int)
    ensures 0 <= k < |s| && s[k] == '.' ==> OccursAt(s, ".", k)
  {
    if 0 <= k < |s| && s[k] == '.' {
      assert s[k..k + 1] == ".";
    }
  }

  /** name.substring(name.lastIndexOf(".")): the text from the last dot on. */
  function Extension(name: string): (r: string)
    requires Contains(name, ".")
    ensures r != [] && r[0] == '.' && '.' !in r[1..]
    ensures |r| <= |name| && r == name[|name| - |r|..]
  {
    ContainsLast(name, ".");
    var i := LastIndexOf(name, ".");
    var r := name[i..];
    assert r[0] == name[i..i + 1][0];
    assert '.' !in r[1..] by {
      forall j | 0 <= j < |r| - 1 ensures r[1..][j] != '.' {
        assert r[1..][j] == name[i + 1 + j];
        if name[i + 1 + j] == '.' {
          DotAt(name, i + 1 + j);
          assert false;
        }
      }
    }
    r
  }

  /** The test buildTree puts a plain file through before adding it. */
  predicate IsImageName(name: string)
  {
    Contains(name, ".") && Extension(name) in ImageExtensions
  }

  /** A name ending in a suffix with exactly one dot, at its head, has that suffix as its extension. */
  lemma ExtensionOfSuffix(name: string, x: string)
    requires x != [] && x[0] == '.' && '.' !in x[1..] && EndsWith(name, x)
    ensures Contains(name, ".") && Extension(name) == x
  {
    var k := |name| - |x|;
    assert name[k..][0] == x[0];
    assert name[k..k + 1] == ".";
    assert OccursAt(name, ".", k);
    ContainsAt(name, ".", k);
    ContainsLast(name, ".");
    var i := LastIndexOf(name, ".");
    assert k <= i < |name|;
    if i != k {
      OccurrenceChar(name, ".", i, 0);
      assert false;
    }
  }

  /** A kept name ends with one of the three dotted extensions. */
  lemma ImageNameEnds(name: string)
    requires IsImageName(name)
    ensures EndsWith(name, ".JPG") || EndsWith(name, ".JPEG") || EndsWith(name, ".jpg")
  {
    var r := Extension(name);
    assert "jpeg"[0] != '.';
    assert r == ".JPG" || r == ".JPEG" || r == ".jpg";
    assert EndsWith(name, r);
  }

  /**
   * The filter is exact and case-sensitive: a name is kept iff it ends with
   * ".JPG", ".JPEG" or ".jpg". The dotless "jpeg" of the list never matches,
   * since the suffix always starts with the dot.
   */
  lemma ImageNameIff(name: string)
    ensures IsImageName(name) <==>
      EndsWith(name, ".JPG") || EndsWith(name, ".JPEG") || EndsWith(name, ".jpg")
  {
    if EndsWith(name, ".JPG") || EndsWith(name, ".JPEG") || EndsWith(name, ".jpg") {
      EndsImage(name);
    }
    if IsImageName(name) {
      ImageNameEnds(name);
    }
  }

  /** A name ending with one of the three dotted extensions is kept. */
  lemma EndsImage(name: string)
    requires EndsWith(name, ".JPG") || EndsWith(name, ".JPEG") || EndsWith(name, ".jpg")
    ensures IsImageName(name)
  {
    if EndsWith(name, ".JPG") {
      assert '.' !in ".JPG"[1..];
      ExtensionOfSuffix(name, ".JPG");
    } else if EndsWith(name, ".JPEG") {
      assert '.' !in ".JPEG"[1..];
      ExtensionOfSuffix(name, ".JPEG");
    } else {
      assert '.' !in ".jpg"[1..];
      ExtensionOfSuffix(name, ".jpg");
    }
  }

  /** Names the filter keeps. */
  lemma ImageNameKept()
    ensures IsImageName("IMG_01.jpg") && IsImageName("a.b.JPEG")
  {
    ImageNameIff("IMG_01.jpg");
    ImageNameIff("a.b.JPEG");
  }

  /** Names the filter drops: lower-case jpeg, mixed case, and a name without a dot. */
  lemma ImageNameDropped()
    ensures !IsImageName("x.jpeg") && !IsImageName("x.Jpg") && !IsImageName("jpeg")
  {
    ImageNameIff("x.jpeg");
    ImageNameIff("x.Jpg");
    ImageNameIff("jpeg");
  }

  // ---------------------------------------------------------------------
  // addChild and the tree built from the file system
  // ---------------------------------------------------------------------

  /** addChild: the node with `child` stored under `f`, replacing any child already there. */
  function AddChild(n: FileNode, f: Path, child: FileNode): (r: FileNode)
    ensures r.name == n.name && r.file == n.file && r.kind == n.kind
    ensures r.children.Keys == n.children.Keys + {f}
    ensures r.children[f] == child
    ensures forall k :: k in n.children && k != f ==> r.children[k] == n.children[k]
  {
    n.(children := n.children[f := child])
  }

  /**
   * What one entry of a directory listing adds to the node `curr`: a
   * sub-directory becomes a DIRECTORY child holding the tree built from its
   * own listing; a plain file becomes a FILE child when its name passes the
   * filter, and is skipped otherwise.
   */
  function Step(curr: FileNode, e: Entry): (r: FileNode)
    ensures r.name == curr.name && r.file == curr.file && r.kind == curr.kind
    ensures curr.children.Keys <= r.children.Keys
    decreases e, 0
  {
    match e
    case DirEntry(p, listing) => AddChild(curr, p, Into(listing, Leaf(FileName(p), p, Directory)))
    case FileEntry(p) =>
      if IsImageName(FileName(p)) then AddChild(curr, p, Leaf(FileName(p), p, File)) else curr
  }

  /** `Step` over a whole listing, in order. */
  function Into(listing: seq<Entry>, curr: FileNode): (r: FileNode)
    ensures r.name == curr.name && r.file == curr.file && r.kind == curr.kind
    ensures curr.children.Keys <= r.children.Keys
    decreases listing, 1
  {
    if listing == [] then curr
    else Step(Into(listing[..|listing| - 1], curr), listing[|listing| - 1])
  }

  /** One more entry of the listing is one more `Step`. */
  lemma IntoNext(listing: seq<Entry>, curr: FileNode, k: nat)
    requires k < |listing|
    ensures Into(listing[..k + 1], curr) == Step(Into(listing[..k], curr), listing[k])
  {
    var prefix := listing[..k + 1];
    assert prefix[..|prefix| - 1] == listing[..k];
  }

  /** A second addChild under the same key overwrites the first. */
  lemma AddChildTwice(n: FileNode, f: Path, c: FileNode, d: FileNode)
    ensures AddChild(AddChild(n, f, c), f, d) == AddChild(n, f, d)
  {
    assert n.children[f := c][f := d] == n.children[f := d];
  }

  /**
   * The node `curr` after buildTree(file, curr): the listing of a directory
   * folded in; a root that is not a directory added as a single FILE child
   * of itself, with no filter.
   */
  function Built(e: Entry, curr: FileNode): FileNode
  {
    match e
    case DirEntry(_, listing) => Into(listing, curr)
    case FileEntry(p) => AddChild(curr, p, Leaf(FileName(p), p, File))
  }

  /** addChild with a key already present replaces that child and no other. */
  lemma AddChildReplaces(n: FileNode, f: Path, child: FileNode)
    requires f in n.children
    ensures AddChild(n, f, child).children.Keys == n.children.Keys
    ensures |AddChild(n, f, child).children| == |n.children|
  {
    assert n.children.Keys + {f} == n.children.Keys;
  }

  /** Every FILE node at or below `n` stands for a file with an image name. */
  ghost predicate FilesAreImages(n: FileNode)
    decreases n
  {
    (n.kind == File ==> IsImageName(FileName(n.file))) &&
    forall k :: k in n.children ==> FilesAreImages(n.children[k])
  }

  /** Every FILE node strictly below `n` carries an image name. */
  ghost predicate ChildrenAreImages(n: FileNode)
  {
    forall k :: k in n.children ==> FilesAreImages(n.children[k])
  }

  lemma {:induction false} StepKeepsImages(curr: FileNode, e: Entry)
    requires ChildrenAreImages(curr)
    ensures ChildrenAreImages(Step(curr, e))
    decreases e, 0
  {
    match e
    case DirEntry(p, listing) =>
      IntoKeepsImages(listing, Leaf(FileName(p), p, Directory));
    case FileEntry(p) =>
  }

  lemma {:induction false} IntoKeepsImages(listing: seq<Entry>, curr: FileNode)
    requires ChildrenAreImages(curr)
    ensures ChildrenAreImages(Into(listing, curr))
    decreases listing, 1
  {
    if listing != [] {
      IntoKeepsImages(listing[..|listing| - 1], curr);
      StepKeepsImages(Into(listing[..|listing| - 1], curr), listing[|listing| - 1]);
    }
  }

  /**
   * Scanning a directory adds only images as FILE nodes, at every depth:
   * a root whose FILE descendants are images keeps that property.
   */
  lemma BuiltFilesAreImages(e: Entry, curr: FileNode)
    requires e.DirEntry? && ChildrenAreImages(curr)
    ensures ChildrenAreImages(Built(e, curr))
  {
    IntoKeepsImages(e.listing, curr);
  }

  /** After a listing is folded in, each key keeps its child unless a later entry has that path. */
  lemma {:induction false} IntoKeepsKey(listing: seq<Entry>, curr: FileNode, i: nat, p: Path)
    requires i <= |listing| && p in Into(listing[..i], curr).children
    requires forall j :: i <= j < |listing| ==> listing[j].path != p
    ensures p in Into(listing, curr).children
    ensures Into(listing, curr).children[p] == Into(listing[..i], curr).children[p]
    decreases |listing| - i
  {
    if i < |listing| {
      IntoNext(listing, curr, i);
      StepKeepsKey(Into(listing[..i], curr), listing[i], p);
      IntoKeepsKey(listing, curr, i + 1, p);
    } else {
      assert listing[..i] == listing;
    }
  }

  /** An entry with another path leaves the child under `p` alone. */
  lemma StepKeepsKey(n: FileNode, e: Entry, p: Path)
    requires p in n.children && e.path != p
    ensures p in Step(n, e).children && Step(n, e).children[p] == n.children[p]
  {
  }

  /**
   * Every sub-directory of a listing becomes a DIRECTORY child holding the
   * tree of its own listing, whatever that holds, unless a later entry of
   * the listing has the same path.
   */
  lemma DirectoryChild(listing: seq<Entry>, curr: FileNode, i: nat)
    requires i < |listing| && listing[i].DirEntry?
    requires forall j :: i < j < |listing| ==> listing[j].path != listing[i].path
    ensures var c := Into(listing, curr).children;
      var d := listing[i];
      d.path in c && c[d.path] == Into(d.listing, Leaf(d.Name(), d.path, Directory))
  {
    var prefix := listing[..i + 1];
    assert prefix[..|prefix| - 1] == listing[..i];
    assert prefix[|prefix| - 1] == listing[i];
    IntoKeepsKey(listing, curr, i + 1, listing[i].path);
  }

  /** A plain file whose name passes the filter becomes a FILE child with no children. */
  lemma ImageChild(listing: seq<Entry>, curr: FileNode, i: nat)
    requires i < |listing| && listing[i].FileEntry? && IsImageName(listing[i].Name())
    requires forall j :: i < j < |listing| ==> listing[j].path != listing[i].path
    ensures var c := Into(listing, curr).children;
      var d := listing[i];
      d.path in c && c[d.path] == Leaf(d.Name(), d.path, File)
  {
    var prefix := listing[..i + 1];
    assert prefix[..|prefix| - 1] == listing[..i];
    assert prefix[|prefix| - 1] == listing[i];
    IntoKeepsKey(listing, curr, i + 1, listing[i].path);
  }

  /** A key no entry of the listing adds is present after the fold iff it was before. */
  lemma {:induction false} IntoOtherKeys(listing: seq<Entry>, curr: FileNode, p: Path)
    requires forall j :: 0 <= j < |listing| && listing[j].path == p ==>
      listing[j].FileEntry? && !IsImageName(listing[j].Name())
    ensures p in Into(listing, curr).children <==> p in curr.children
    decreases listing
  {
    if listing != [] {
      var n := |listing| - 1;
      IntoOtherKeys(listing[..n], curr, p);
    }
  }

  /** A plain file whose name fails the filter is not added to the tree. */
  lemma SkippedFile(listing: seq<Entry>, curr: FileNode, i: nat)
    requires i < |listing| && listing[i].FileEntry? && !IsImageName(listing[i].Name())
    requires forall j :: 0 <= j < |listing| && j != i ==> listing[j].path != listing[i].path
    requires listing[i].path !in curr.children
    ensures listing[i].path !in Into(listing, curr).children
  {
    IntoOtherKeys(listing, curr, listing[i].path);
  }

  /** A root that is not a directory gets exactly one FILE child, for itself, with no filter. */
  lemma NonDirectoryRoot(p: Path, curr: FileNode)
    requires curr.children == map[]
    ensures var c := Built(FileEntry(p), curr).children;
      c.Keys == {p} && c[p] == Leaf(FileName(p), p, File)
  {
  }

  lemma NonDirectoryRootExample()
    ensures !IsImageName("notes.txt")
    ensures "notes.txt" in Built(FileEntry("notes.txt"), Leaf("notes.txt", "notes.txt", Directory)).children
  {
    ImageNameIff("notes.txt");
  }

  // ---------------------------------------------------------------------
  // findChild
  // ---------------------------------------------------------------------

  /** Some node at or below `n` has a child keyed by `f`. */
  ghost predicate KeyBelow(n: FileNode, f: Path)
    decreases n
  {
    f in n.children || exists k :: k in n.children && KeyBelow(n.children[k], f)
  }

  /** `c` is the child keyed by `f` of `n` or of some node below `n`. */
  ghost predicate HasBelow(n: FileNode, f: Path, c: FileNode)
    decreases n
  {
    (f in n.children && n.children[f] == c) ||
    exists k :: k in n.children && HasBelow(n.children[k], f, c)
  }

  /**
   * findChild: the direct child keyed by `f` if there is one; otherwise the
   * first match found searching the children in turn; null iff no node
   * below has a child keyed by `f`.
   */
  method FindChild(node: FileNode, f: Path) returns (r: Option<FileNode>)
    ensures f in node.children ==> r == Some(node.children[f])
    ensures r.Some? ==> HasBelow(node, f, r.value)
    ensures r.None? <==> !KeyBelow(node, f)
    decreases node
  {
    if f in node.children {
      return Some(node.children[f]);
    }
    r := None;
    var rest := node.children.Keys;
    while rest != {}
      invariant rest <= node.children.Keys
      invariant r.Some? ==> HasBelow(node, f, r.value) && KeyBelow(node, f)
      invariant r.None? ==> forall j :: j in node.children && j !in rest ==> !KeyBelow(node.children[j], f)
      decreases rest
    {
      var k :| k in rest;
      if r == None {
        r := FindChild(node.children[k], f);
      }
      rest := rest - {k};
    }
  }

  // ---------------------------------------------------------------------
  // buildTree
  // ---------------------------------------------------------------------

  /**
   * buildTree(file, curr): `curr` with the tree under `e` added, as `Built`
   * describes it. The node findChild returns for a new sub-directory is
   * filled by the recursive call; nodes are values, so the filled node is
   * then stored back under its key.
   */
  method BuildTree(e: Entry, curr: FileNode) returns (r: FileNode)
    ensures r == Built(e, curr)
    decreases e
  {
    if e.DirEntry? {
      r := curr;
      var k := 0;
      while k < |e.listing|
        invariant 0 <= k <= |e.listing|
        invariant r == Into(e.listing[..k], curr)
      {
        var element := e.listing[k];
        var name := element.Name();
        IntoNext(e.listing, curr, k);
        if element.DirEntry? {
          ghost var r0 := r;
          r := AddChild(r, element.path, Leaf(name, element.path, Directory));
          var found := FindChild(r, element.path);
          var sub := BuildTree(element, found.value);
          AddChildTwice(r0, element.path, Leaf(name, element.path, Directory), sub);
          r := AddChild(r, element.path, sub);
        } else if Contains(name, ".") && Extension(name) in ImageExtensions {
          r := AddChild(r, element.path, Leaf(name, element.path, File));
        }
        k := k + 1;
      }
      assert e.listing[..k] == e.listing;
    } else {
      r := AddChild(curr, e.path, Leaf(e.Name(), e.path, File));
    }
  }

  // ---------------------------------------------------------------------
  // buildDirectoryContents
  // ---------------------------------------------------------------------

  /** The files of the FILE nodes at or below `n`, each counted once per node. */
  ghost function Files(n: FileNode): multiset<Path>
    decreases n
  {
    (if n.kind == File then multiset{n.file} else multiset{}) + FilesUnder(n, n.children.Keys)
  }

  /** The files of the FILE nodes at or below the children of `n` keyed by `ks`. */
  ghost function FilesUnder(n: FileNode, ks: set<Path>): multiset<Path>
    requires ks <= n.children.Keys
    decreases n, ks
  {
    if ks == {} then multiset{} else var k :| k in ks; Files(n.children[k]) + FilesUnder(n, ks - {k})
  }

  /** `FilesUnder` does not depend on the order the children are taken in. */
  lemma {:induction false} FilesUnderPick(n: FileNode, ks: set<Path>, k: Path)
    requires ks <= n.children.Keys && k in ks
    ensures FilesUnder(n, ks) == Files(n.children[k]) + FilesUnder(n, ks - {k})
    decreases ks
  {
    var j :| j in ks && FilesUnder(n, ks) == Files(n.children[j]) + FilesUnder(n, ks - {j});
    if j != k {
      FilesUnderPick(n, ks - {j}, k);
      FilesUnderPick(n, ks - {k}, j);
      assert ks - {j} - {k} == ks - {k} - {j};
    }
  }

  /** Text appended after `a` keeps what `a` held from `m` on, and adds its own files. */
  lemma AppendedSlice(a: seq<Path>, b: seq<Path>, m: nat)
    requires m <= |a| <= |b| && b[..|a|] == a
    ensures b[..m] == a[..m]
    ensures multiset(b[m..]) == multiset(a[m..]) + multiset(b[|a|..])
  {
    assert b[m..] == a[m..] + b[|a|..];
  }

  /** One turn of the loop of buildDirectoryContents: the files of child `k` join those of `done`. */
  lemma ChildAppended(node: FileNode, done: set<Path>, k: Path, own: multiset<Path>,
                      before: seq<Path>, files: seq<Path>, m: nat)
    requires done <= node.children.Keys && k in node.children && k !in done
    requires m <= |before| <= |files| && files[..|before|] == before
    requires multiset(before[m..]) == own + FilesUnder(node, done)
    requires multiset(files[|before|..]) == Files(node.children[k])
    ensures files[..m] == before[..m]
    ensures multiset(files[m..]) == own + FilesUnder(node, done + {k})
  {
    AppendedSlice(before, files, m);
    FilesUnderPick(node, done + {k}, k);
    assert done + {k} - {k} == done;
  }

  /** Every file a tree of images yields has an image name. */
  lemma {:induction false} FilesImages(n: FileNode)
    requires FilesAreImages(n)
    ensures forall p :: p in Files(n) ==> IsImageName(FileName(p))
    decreases n, 1
  {
    FilesUnderImages(n, n.children.Keys);
  }

  lemma {:induction false} FilesUnderImages(n: FileNode, ks: set<Path>)
    requires ks <= n.children.Keys && FilesAreImages(n)
    ensures forall p :: p in FilesUnder(n, ks) ==> IsImageName(FileName(p))
    decreases n, 0, ks
  {
    if ks != {} {
      var k :| k in ks;
      FilesUnderPick(n, ks, k);
      FilesImages(n.children[k]);
      FilesUnderImages(n, ks - {k});
    }
  }

  /** The list of selected files (the static selectedFiles of FileNode). */
  class Selection {
    var files: seq<Path>

    /** The list starts empty. */
    constructor()
      ensures files == []
    {
      files := [];
    }

    /** clearSelectedFiles: the list becomes empty. */
    method ClearSelectedFiles()
      modifies this
      ensures files == []
    {
      files := [];
    }

    /**
     * A directory or photo chosen in the viewer: a DIRECTORY root for it,
     * the tree built under it, the list cleared and then filled from the
     * tree. For a directory, only images are selected.
     */
    method Open(selected: Entry) returns (root: FileNode)
      modifies this
      ensures root == Built(selected, Leaf(selected.Name(), selected.path, Directory))
      ensures multiset(files) == Files(root)
      ensures selected.DirEntry? ==> forall p :: p in files ==> IsImageName(FileName(p))
    {
      root := Leaf(selected.Name(), selected.path, Directory);
      root := BuildTree(selected, root);
      ClearSelectedFiles();
      BuildDirectoryContents(root);
      assert files[0..] == files;
      if selected.DirEntry? {
        BuiltFilesAreImages(selected, Leaf(selected.Name(), selected.path, Directory));
        FilesImages(root);
      }
    }

    /**
     * buildDirectoryContents: appends, without clearing, the file of every
     * FILE node at or below `node`, each exactly once; DIRECTORY nodes add
     * nothing.
     */
    method BuildDirectoryContents(node: FileNode)
      modifies this
      ensures |files| >= |old(files)| && files[..|old(files)|] == old(files)
      ensures multiset(files[|old(files)|..]) == Files(node)
      decreases node
    {
      ghost var m := |files|;
      ghost var own := if node.kind == File then multiset{node.file} else multiset{};
      if node.kind == File {
        files := files + [node.file];
      }
      assert multiset(files[m..]) == own;
      var rest := node.children.Keys;
      ghost var done: set<Path> := {};
      while rest != {}
        invariant rest + done == node.children.Keys && rest !! done
        invariant |files| >= m && files[..m] == old(files)
        invariant multiset(files[m..]) == own + FilesUnder(node, done)
        decreases rest
      {
        var k :| k in rest;
        ghost var before := files;
        BuildDirectoryContents(node.children[k]);
        ChildAppended(node, done, k, own, before, files, m);
        rest := rest - {k};
        done := done + {k};
      }
    }
  }
}
