/** The card scan of `upload-photos.rb`: every regular file on the mounted
    cards whose extension names a photo or a video is collected, in the
    order `Find.find` visits it, skipping every directory whose name starts
    with a dot together with all it holds. */
module UploadPhotos {
  import opened Text
  import opened Paths

  /** A node of a card's file tree under its name in its parent directory: a
      regular file, a directory with its entries in the order `Find.find`
      visits them, or anything else (a device, a socket, a dangling link). */
  datatype Entry = File(name: string) | Dir(name: string, children: seq<Entry>) | Other(name: string)

  /** A mounted card: the path the volume glob gave for it, and the tree there. */
  datatype Card = Card(path: Path, root: Entry)

  /** The alternatives of `PHOTO_EXT`, with `jpe?g` written out as its two words. */
  const PhotoWords: seq<string> := ["jpg", "jpeg", "png", "mov", "mp4", "avi", "gif"]

  /** The extensions that name a photo or a video, in lower case. */
  const PhotoExtensions: set<string> := {".jpg", ".jpeg", ".png", ".mov", ".mp4", ".avi", ".gif"}

  /** `w`, ignoring case, at position `j` of `s`, followed by a place where
      Ruby's `$` matches: the end of the string or a line break. */
  predicate WordAt(s: string, j: int, w: string) {
    0 <= j && j + |w| <= |s| && Lower(s[j..j + |w|]) == w && (j + |w| == |s| || s[j + |w|] == '\n')
  }

  /** One of the words `ws` at position `j` of `s`, tried in order. */
  predicate SomeWordAt(s: string, j: int, ws: seq<string>) {
    ws != [] && (WordAt(s, j, ws[0]) || SomeWordAt(s, j, ws[1..]))
  }

  /** The regex search from position `i` on: a dot followed by an alternative. */
  predicate MatchesFrom(s: string, i: nat)
    decreases |s| - i
  {
    i < |s| && ((s[i] == '.' && SomeWordAt(s, i + 1, PhotoWords)) || MatchesFrom(s, i + 1))
  }

  /** `s =~ /\.(jpe?g|png|mov|mp4|avi|gif)$/i`; the match may start anywhere. */
  predicate MatchesPhotoExp(s: string) {
    MatchesFrom(s, 0)
  }

  /** With no dot left from position `i` on, the search fails. */
  lemma {:induction false} NoDotNoMatch(s: string, i: nat)
    requires forall k | i <= k < |s| :: s[k] != '.'
    ensures !MatchesFrom(s, i)
    decreases |s| - i
  {
    if i < |s| {
      NoDotNoMatch(s, i + 1);
    }
  }

  /** In a string without line breaks, `$` matches only at the end, so an
      alternative matches at `j` exactly when the rest of `s` is that word
      ignoring case. */
  lemma {:induction false} SomeWordAtEnd(s: string, j: int, ws: seq<string>)
    requires 0 <= j <= |s| && '\n' !in s
    ensures SomeWordAt(s, j, ws) <==> Lower(s[j..]) in ws
    decreases ws
  {
    if ws != [] {
      var w := ws[0];
      if WordAt(s, j, w) {
        assert s[j..j + |w|] == s[j..];
      }
      if Lower(s[j..]) == w {
        assert j + |w| == |s| && s[j..j + |w|] == s[j..];
      }
      SomeWordAtEnd(s, j, ws[1..]);
      assert ws == [w] + ws[1..];
    }
  }

  /** The extensions are the words, each after a dot. */
  lemma DotWords(x: string)
    ensures "." + x in PhotoExtensions <==> x in PhotoWords
  {
    var y := "." + x;
    assert y[1..] == x;
    assert ".jpg"[1..] == "jpg" && ".jpeg"[1..] == "jpeg" && ".png"[1..] == "png" && ".mov"[1..] == "mov";
    assert ".mp4"[1..] == "mp4" && ".avi"[1..] == "avi" && ".gif"[1..] == "gif";
    assert "." + "jpg" == ".jpg" && "." + "jpeg" == ".jpeg" && "." + "png" == ".png" && "." + "mov" == ".mov";
    assert "." + "mp4" == ".mp4" && "." + "avi" == ".avi" && "." + "gif" == ".gif";
  }

  /** For a path without line breaks, `File.extname(path) =~ photo_exp` holds
      exactly when the extension is one of `.jpg .jpeg .png .mov .mp4 .avi
      .gif` ignoring case. */
  lemma ExtNameMatchesIffPhotoExtension(p: Path)
    requires '\n' !in p
    ensures MatchesPhotoExp(ExtName(p)) <==> Lower(ExtName(p)) in PhotoExtensions
  {
    var e := ExtName(p);
    ExtNameParts(p);
    ExtNameIsTail(p);
    assert forall k | 0 <= k < |e| :: e[k] == p[|p| - |e| + k];
    assert '\n' !in e;
    if e == [] {
      assert Lower(e) == [];
    } else {
      assert forall k | 1 <= k < |e| :: e[k] == e[1..][k - 1];
      NoDotNoMatch(e, 1);
      SomeWordAtEnd(e, 1, PhotoWords);
      assert Lower(e) == "." + Lower(e[1..]);
      DotWords(Lower(e[1..]));
    }
  }

  /** `File.basename(path)[0] == ?.` */
  predicate IsDotName(name: string) {
    |name| > 0 && name[0] == '.'
  }

  /** The test of the `elsif`: a regular file whose `File.extname` matches. */
  predicate IsPhotoFile(path: Path, e: Entry) {
    e.File? && MatchesPhotoExp(ExtName(path))
  }

  /** The test of the `if`: a directory whose name starts with a dot, which is pruned. */
  predicate IsPruned(path: Path, e: Entry) {
    e.Dir? && IsDotName(LastComponent(path))
  }

  /** The paths the `Find.find` block appends for the tree `e` found at `path`. */
  function Walk(path: Path, e: Entry): seq<Path>
    decreases e
  {
    if IsPruned(path, e) then []
    else if IsPhotoFile(path, e) then [path]
    else if e.Dir? then WalkChildren(path, e.children)
    else []
  }

  /** The same for the entries `cs` of the directory at `dir`, in order. */
  function WalkChildren(dir: Path, cs: seq<Entry>): seq<Path>
    decreases cs
  {
    if cs == [] then [] else Walk(Join(dir, cs[0].name), cs[0]) + WalkChildren(dir, cs[1..])
  }

  /** `photo_files` at the end of the `Dir[FLASH_CARD].each` loop: each
      card's paths, card after card. */
  function ScanAll(cards: seq<Card>): seq<Path> {
    if cards == [] then [] else ScanAll(cards[..|cards| - 1]) + Walk(cards[|cards| - 1].path, cards[|cards| - 1].root)
  }

  // An independent reference: every node of the tree, in pre-order, with
  // its extension and whether some directory at or above its parent has a
  // dot name.

  datatype Visit = Visit(path: Path, entry: Entry, extension: string, hidden: bool)

  function Traverse(path: Path, e: Entry, hidden: bool): seq<Visit>
    decreases e
  {
    [Visit(path, e, ExtName(path), hidden)]
      + if e.Dir? then TraverseChildren(path, e.children, hidden || IsDotName(LastComponent(path))) else []
  }

  function TraverseChildren(dir: Path, cs: seq<Entry>, hidden: bool): seq<Visit>
    decreases cs
  {
    if cs == [] then [] else Traverse(Join(dir, cs[0].name), cs[0], hidden) + TraverseChildren(dir, cs[1..], hidden)
  }

  /** A node the script should upload: a regular file with a photo extension
      and no dot-named directory above it. */
  predicate Collectable(v: Visit) {
    !v.hidden && v.entry.File? && MatchesPhotoExp(v.extension)
  }

  /** The paths of the collectable nodes, in order. */
  function Select(vs: seq<Visit>): seq<Path> {
    if vs == [] then [] else (if Collectable(vs[0]) then [vs[0].path] else []) + Select(vs[1..])
  }

  /** A path is selected exactly when some collectable node has it. */
  lemma {:induction false} SelectMembers(vs: seq<Visit>, p: Path)
    ensures p in Select(vs) <==> exists i | 0 <= i < |vs| :: Collectable(vs[i]) && vs[i].path == p
  {
    if vs != [] {
      SelectMembers(vs[1..], p);
      if p in Select(vs[1..]) {
        var i :| 0 <= i < |vs[1..]| && Collectable(vs[1..][i]) && vs[1..][i].path == p;
        assert vs[i + 1] == vs[1..][i];
      }
      if exists i | 0 <= i < |vs| :: Collectable(vs[i]) && vs[i].path == p {
        var i :| 0 <= i < |vs| && Collectable(vs[i]) && vs[i].path == p;
        if i > 0 {
          assert vs[1..][i - 1] == vs[i];
        }
      }
    }
  }

  lemma {:induction false} SelectAppend(a: seq<Visit>, b: seq<Visit>)
    ensures Select(a + b) == Select(a) + Select(b)
  {
    if a != [] {
      var head := if Collectable(a[0]) then [a[0].path] else [];
      assert (a + b)[0] == a[0] && (a + b)[1..] == a[1..] + b;
      assert Select(a + b) == head + Select(a[1..] + b);
      SelectAppend(a[1..], b);
      assert head + (Select(a[1..]) + Select(b)) == (head + Select(a[1..])) + Select(b);
    } else {
      assert a + b == b;
    }
  }

  /** Below a dot-named directory, every node is hidden. */
  lemma {:induction false} HiddenStaysHidden(path: Path, e: Entry)
    ensures forall v | v in Traverse(path, e, true) :: v.hidden
    decreases e
  {
    if e.Dir? {
      HiddenChildrenStayHidden(path, e.children);
    }
  }

  lemma {:induction false} HiddenChildrenStayHidden(dir: Path, cs: seq<Entry>)
    ensures forall v | v in TraverseChildren(dir, cs, true) :: v.hidden
    decreases cs
  {
    if cs != [] {
      HiddenStaysHidden(Join(dir, cs[0].name), cs[0]);
      HiddenChildrenStayHidden(dir, cs[1..]);
    }
  }

  /** Every visit records the extension of its own path. */
  lemma {:induction false} VisitExtensions(path: Path, e: Entry, hidden: bool)
    ensures forall v | v in Traverse(path, e, hidden) :: v.extension == ExtName(v.path)
    decreases e
  {
    if e.Dir? {
      VisitChildrenExtensions(path, e.children, hidden || IsDotName(LastComponent(path)));
    }
  }

  lemma {:induction false} VisitChildrenExtensions(dir: Path, cs: seq<Entry>, hidden: bool)
    ensures forall v | v in TraverseChildren(dir, cs, hidden) :: v.extension == ExtName(v.path)
    decreases cs
  {
    if cs != [] {
      VisitExtensions(Join(dir, cs[0].name), cs[0], hidden);
      VisitChildrenExtensions(dir, cs[1..], hidden);
    }
  }

  /** Nothing hidden is selected. */
  lemma {:induction false} SelectNothingHidden(vs: seq<Visit>)
    requires forall v | v in vs :: v.hidden
    ensures Select(vs) == []
  {
    if vs != [] {
      assert vs[0] in vs;
      assert forall v | v in vs[1..] :: v in vs;
      SelectNothingHidden(vs[1..]);
    }
  }

  /** The walk is the reference's selection: `Find.find` with pruning visits
      in pre-order exactly the nodes with no dot-named directory above them,
      and the block keeps the photo files among them. */
  lemma {:induction false} WalkIsSelection(path: Path, e: Entry)
    ensures Walk(path, e) == Select(Traverse(path, e, false))
    decreases e
  {
    var v := Visit(path, e, ExtName(path), false);
    var rest := if e.Dir? then TraverseChildren(path, e.children, IsDotName(LastComponent(path))) else [];
    assert Traverse(path, e, false) == [v] + rest;
    SelectAppend([v], rest);
    assert Select([v]) == (if Collectable(v) then [path] else []);
    if e.Dir? {
      if IsDotName(LastComponent(path)) {
        HiddenChildrenStayHidden(path, e.children);
        SelectNothingHidden(rest);
      } else {
        WalkChildrenIsSelection(path, e.children);
      }
    }
  }

  lemma {:induction false} WalkChildrenIsSelection(dir: Path, cs: seq<Entry>)
    ensures WalkChildren(dir, cs) == Select(TraverseChildren(dir, cs, false))
    decreases cs
  {
    if cs != [] {
      WalkIsSelection(Join(dir, cs[0].name), cs[0]);
      WalkChildrenIsSelection(dir, cs[1..]);
      SelectAppend(Traverse(Join(dir, cs[0].name), cs[0], false), TraverseChildren(dir, cs[1..], false));
    }
  }

  /** Soundness and completeness of the walk on one card: a path is collected
      exactly when it is the path of a regular file whose extension matches
      `photo_exp` and which has no dot-named directory at or above its
      parent, the card itself included. */
  lemma WalkCollectsExactly(path: Path, e: Entry, p: Path)
    ensures var vs := Traverse(path, e, false);
      p in Walk(path, e) <==>
        exists i | 0 <= i < |vs| :: vs[i].path == p && vs[i].entry.File? && !vs[i].hidden && MatchesPhotoExp(ExtName(p))
  {
    var vs := Traverse(path, e, false);
    WalkIsSelection(path, e);
    SelectMembers(vs, p);
    VisitExtensions(path, e, false);
    assert forall i | 0 <= i < |vs| :: vs[i] in vs;
  }

  /** A card whose own name starts with a dot yields nothing, and neither does
      any dot-named directory anywhere below it. */
  lemma DotDirectoryYieldsNothing(path: Path, e: Entry)
    requires e.Dir? && IsDotName(LastComponent(path))
    ensures Walk(path, e) == []
    ensures Select(Traverse(path, e, false)) == []
  {
    WalkIsSelection(path, e);
  }

  /** Pruning is for directories only: an AppleDouble file such as
      `._IMG.JPG` in a card's top directory is collected like any other photo. */
  lemma DotFileIsCollected(card: Path, root: string)
    requires !IsDotName(LastComponent(card))
    ensures Walk(card, Dir(root, [File("._IMG.JPG")])) == [Join(card, "._IMG.JPG")]
  {
    var name := "._IMG.JPG";
    DotFileExtName(card);
    assert MatchesPhotoExp(".JPG") by {
      assert WordAt(".JPG", 1, "jpg");
    }
    assert Walk(Join(card, name), File(name)) == [Join(card, name)];
    assert WalkChildren(card, [File(name)]) == Walk(Join(card, name), File(name)) + WalkChildren(card, []);
  }

  lemma DotFileExtName(card: Path)
    ensures ExtName(Join(card, "._IMG.JPG")) == ".JPG"
  {
    var name, ext := "._IMG.JPG", "JPG";
    assert forall i | 0 <= i < |name| :: name[i] != '/';
    JoinLastComponent(card, name);
    assert SkipDots(name) == "_IMG.JPG";
    assert "_IMG.JPG" == "_IMG" + "." + ext;
    assert forall i | 0 <= i < |ext| :: ext[i] != '.';
    FromLastDotOf("_IMG", ext);
  }

  /** Ruby's `$` also matches before a line break, so a file whose name has a
      photo extension followed by a new line and more text is collected,
      although its extension is none of the photo extensions. */
  lemma LineBreakAfterExtensionMatches()
    ensures ExtName("IMG.jpg\nx") == ".jpg\nx"
    ensures MatchesPhotoExp(".jpg\nx") && Lower(".jpg\nx") !in PhotoExtensions
  {
    LineBreakExtName();
    assert SomeWordAt(".jpg\nx", 1, PhotoWords) by {
      assert WordAt(".jpg\nx", 1, "jpg");
    }
    LowerLineBreakExtension();
  }

  lemma LineBreakExtName()
    ensures ExtName("IMG.jpg\nx") == ".jpg\nx"
  {
    var name, ext := "IMG.jpg\nx", "jpg\nx";
    assert forall i | 0 <= i < |name| :: name[i] != '/';
    NameIsLastComponent(name);
    assert name == "IMG" + "." + ext;
    assert forall i | 0 <= i < |ext| :: ext[i] != '.';
    FromLastDotOf("IMG", ext);
  }

  lemma LowerLineBreakExtension()
    ensures Lower(".jpg\nx") == ".jpg\nx" && ".jpg\nx" !in PhotoExtensions
  {
  }

  /** `photo_files` only grows at its end: what the first cards give is a
      prefix of what all of them give. */
  lemma {:induction false} ScanAllExtends(cards: seq<Card>, n: nat)
    requires n <= |cards|
    ensures ScanAll(cards[..n]) <= ScanAll(cards)
    decreases |cards| - n
  {
    if n < |cards| {
      ScanAllExtends(cards, n + 1);
      assert cards[..n + 1][..n] == cards[..n];
    } else {
      assert cards[..n] == cards;
    }
  }

  /** A path is uploaded exactly when some card's walk collects it. */
  lemma {:induction false} ScanAllMembers(cards: seq<Card>, p: Path)
    ensures p in ScanAll(cards) <==> exists k | 0 <= k < |cards| :: p in Walk(cards[k].path, cards[k].root)
  {
    if cards != [] {
      var init := cards[..|cards| - 1];
      ScanAllMembers(init, p);
      assert forall k | 0 <= k < |init| :: init[k] == cards[k];
    }
  }

  // The walk as `Find.find` runs it: a list `ps` of paths still to visit,
  // taken from the front, with a directory's entries put in front of the
  // rest, in order, when it is not pruned.

  datatype Item = Item(path: Path, entry: Entry)

  function Size(e: Entry): nat
    decreases e
  {
    if e.Dir? then 1 + SizeAll(e.children) else 1
  }

  function SizeAll(cs: seq<Entry>): nat
    decreases cs
  {
    if cs == [] then 0 else Size(cs[0]) + SizeAll(cs[1..])
  }

  function SizeItems(ps: seq<Item>): nat {
    if ps == [] then 0 else Size(ps[0].entry) + SizeItems(ps[1..])
  }

  /** What the block appends for the paths still to visit, in order. */
  function WalkItems(ps: seq<Item>): seq<Path> {
    if ps == [] then [] else Walk(ps[0].path, ps[0].entry) + WalkItems(ps[1..])
  }

  /** `fs.reverse_each { |f| ps.unshift File.join(file, f) }`, as one list. */
  function ChildItems(dir: Path, cs: seq<Entry>): (r: seq<Item>)
    ensures |r| == |cs|
  {
    if cs == [] then [] else [Item(Join(dir, cs[0].name), cs[0])] + ChildItems(dir, cs[1..])
  }

  /** Pushing a directory's entries keeps what is left to collect. */
  lemma {:induction false} ChildItemsWalk(dir: Path, cs: seq<Entry>, rest: seq<Item>)
    ensures WalkItems(ChildItems(dir, cs) + rest) == WalkChildren(dir, cs) + WalkItems(rest)
    decreases cs
  {
    if cs != [] {
      var head := Item(Join(dir, cs[0].name), cs[0]);
      var tail := ChildItems(dir, cs[1..]) + rest;
      assert ChildItems(dir, cs) + rest == [head] + tail;
      assert ([head] + tail)[0] == head && ([head] + tail)[1..] == tail;
      ChildItemsWalk(dir, cs[1..], rest);
      assert WalkItems([head] + tail) == Walk(head.path, head.entry) + WalkItems(tail);
    } else {
      assert ChildItems(dir, cs) + rest == rest;
    }
  }

  /** ... and shrinks what is left to visit by the directory itself. */
  lemma {:induction false} ChildItemsSize(dir: Path, cs: seq<Entry>, rest: seq<Item>)
    ensures SizeItems(ChildItems(dir, cs) + rest) == SizeAll(cs) + SizeItems(rest)
    decreases cs
  {
    if cs != [] {
      var head := Item(Join(dir, cs[0].name), cs[0]);
      var tail := ChildItems(dir, cs[1..]) + rest;
      assert ChildItems(dir, cs) + rest == [head] + tail;
      assert ([head] + tail)[0] == head && ([head] + tail)[1..] == tail;
      ChildItemsSize(dir, cs[1..], rest);
    } else {
      assert ChildItems(dir, cs) + rest == rest;
    }
  }

  /** One card's `Find.find(dir) do |path| ... end`, appending to `photoFiles`. */
  method ScanCard(card: Card, photoFiles: seq<Path>) returns (acc: seq<Path>)
    ensures acc == photoFiles + Walk(card.path, card.root)
  {
    acc := photoFiles;
    var ps := [Item(card.path, card.root)];
    while ps != []
      invariant acc + WalkItems(ps) == photoFiles + Walk(card.path, card.root)
      decreases SizeItems(ps)
    {
      var item := ps[0];
      ps := ps[1..];
      assert acc + WalkItems([item] + ps) == acc + Walk(item.path, item.entry) + WalkItems(ps) by {
        assert ([item] + ps)[1..] == ps;
      }
      if IsPruned(item.path, item.entry) {
        // Find.prune: the directory's entries are not visited.
      } else {
        if IsPhotoFile(item.path, item.entry) {
          acc := acc + [item.path];
        }
        if item.entry.Dir? {
          ChildItemsWalk(item.path, item.entry.children, ps);
          ChildItemsSize(item.path, item.entry.children, ps);
          ps := ChildItems(item.path, item.entry.children) + ps;
        }
      }
    }
  }

  /** `Dir[FLASH_CARD].each do |dir| ... end`: the cards in glob order. */
  method ScanCards(cards: seq<Card>) returns (photoFiles: seq<Path>)
    ensures photoFiles == ScanAll(cards)
  {
    photoFiles := [];
    for i := 0 to |cards|
      invariant photoFiles == ScanAll(cards[..i])
    {
      photoFiles := ScanCard(cards[i], photoFiles);
      assert cards[..i + 1][..i] == cards[..i];
    }
    assert cards[..|cards|] == cards;
  }

  /** How the script ends: aborted for a missing rename script, or
      `system(RENAME_PHOTOS, *photo_files)` on the collected paths. */
  datatype Upload = MissingRenameScript | RunRename(photoFiles: seq<Path>)

  /** The whole script, with `File.executable?(RENAME_PHOTOS)` as `executable`. */
  method UploadPhotos(executable: bool, cards: seq<Card>) returns (u: Upload)
    ensures !executable <==> u == MissingRenameScript
    ensures executable ==> u == RunRename(ScanAll(cards))
  {
    if !executable {
      return MissingRenameScript;
    }
    var photoFiles := ScanCards(cards);
    u := RunRename(photoFiles);
  }
}
