/** `CompressionService.compressComic`: pack a directory of images into a `.cbz` archive
    with a normalised name, leaving out excluded extensions and, on request, obvious
    garbage (scanner credits, flyers), packing from the single sub-directory that holds
    every image when there is one, and removing the directory once the archive is
    written.  The file system is a `FileTree.Node`; writing the archive and removing the
    directory are effects the model records rather than performs. */
module CompressionService {
  import opened Text
  import opened FileTree
  import opened NameConverter

  /** `DEFAULT_FILE_EXCLUSIONS`. */
  const DefaultFileExclusions: seq<string> := ["txt", "xml", "db", "nfo"]

  /** The two shapes of the garbage patterns: `c.+` and `.+word.+`. */
  datatype GarbagePattern = Prefix(c: char) | Infix(word: string)

  /** `DEFAULT_GARBAGE_PATTERNS`: `z.+`, `.+nerd.+`, `.+colab.+`, `.+collab.+`,
      `.+flyer.+`. */
  const DefaultGarbagePatterns: seq<GarbagePattern> :=
    [Prefix('z'), Infix("nerd"), Infix("colab"), Infix("collab"), Infix("flyer")]

  predicate NoLineTerminator(s: string) {
    forall i :: 0 <= i < |s| ==> !IsLineTerminator(s[i])
  }

  /** `Pattern.matcher(s).matches()`: the whole of `s` matches, and the regex `.` takes
      any character but a line terminator. */
  predicate Matches(p: GarbagePattern, s: string) {
    NoLineTerminator(s) &&
    match p
    case Prefix(c) => |s| >= 2 && s[0] == c
    case Infix(w) => exists i :: 1 <= i && i + |w| < |s| && OccursAt(w, s, i)
  }

  predicate OccursAt(w: string, s: string, i: nat) {
    i + |w| <= |s| && s[i..i + |w|] == w
  }

  /** `isExcluded`: the name, lower-cased, ends in a dot and one of the extensions,
      lower-cased; a missing (`null`) array excludes nothing. */
  predicate Excluded(name: string, exclusions: Option<seq<string>>) {
    exclusions.Some? &&
    exists k :: 0 <= k < |exclusions.value| && EndsWith(LowerStr(name), "." + LowerStr(exclusions.value[k]))
  }

  method IsExcluded(name: string, exclusions: Option<seq<string>>) returns (excluded: bool)
    ensures excluded <==> Excluded(name, exclusions)
  {
    excluded := false;
    if exclusions.Some? {
      var ex := exclusions.value;
      for k := 0 to |ex|
        invariant excluded <==> exists j :: 0 <= j < k && EndsWith(LowerStr(name), "." + LowerStr(ex[j]))
      {
        excluded := excluded || EndsWith(LowerStr(name), "." + LowerStr(ex[k]));
      }
    }
  }

  /** The filter of `collectGarbage` on a plain file: not excluded, and its lower-cased
      name matches one of the garbage patterns. */
  predicate GarbageName(name: string, exclusions: Option<seq<string>>) {
    !Excluded(name, exclusions) &&
    exists k :: 0 <= k < |DefaultGarbagePatterns| && Matches(DefaultGarbagePatterns[k], LowerStr(name))
  }

  method IsGarbage(name: string, exclusions: Option<seq<string>>) returns (garbage: bool)
    ensures garbage <==> GarbageName(name, exclusions)
  {
    garbage := false;
    var excluded := IsExcluded(name, exclusions);
    if !excluded {
      var patterns := DefaultGarbagePatterns;
      for k := 0 to |patterns|
        invariant garbage <==> exists j :: 0 <= j < k && Matches(patterns[j], LowerStr(name))
      {
        garbage := garbage || Matches(patterns[k], LowerStr(name));
      }
    }
  }

  /** An extension excluded from the archive excludes the file whatever the case of its
      name. */
  lemma DefaultExclusionIgnoresCase(base: string)
    ensures Excluded(base + ".TXT", Some(DefaultFileExclusions))
    ensures Excluded(base + ".txt", Some(DefaultFileExclusions))
  {
    LowerStrConcat(base, ".TXT");
    LowerStrConcat(base, ".txt");
    assert LowerStr(".TXT") == ".txt" == LowerStr(".txt") == "." + LowerStr(DefaultFileExclusions[0]);
    assert LowerStr(base + ".TXT")[|LowerStr(base + ".TXT")| - 4..] == ".txt";
    assert LowerStr(base + ".txt")[|LowerStr(base + ".txt")| - 4..] == ".txt";
  }

  /** Any kept name that starts with `z` or `Z`, and has more after it, is garbage. */
  lemma ZNamesAreGarbage(c: char, rest: string, exclusions: Option<seq<string>>)
    requires c == 'z' || c == 'Z'
    requires rest != [] && NoLineTerminator(rest)
    requires !Excluded([c] + rest, exclusions)
    ensures GarbageName([c] + rest, exclusions)
  {
    var low := LowerStr([c] + rest);
    assert low[0] == 'z';
    assert Matches(DefaultGarbagePatterns[0], low);
  }

  /** Any kept name with one of the words `nerd`, `colab`, `collab` or `flyer`, in any
      case, strictly inside it is garbage, as `theNerdOfHell.jpg` and `club Flyer.jpg`
      are. */
  lemma InfixNamesAreGarbage(pre: string, w: string, post: string, k: nat,
                             exclusions: Option<seq<string>>)
    requires 1 <= k < |DefaultGarbagePatterns| && LowerStr(w) == DefaultGarbagePatterns[k].word
    requires pre != [] && post != [] && NoLineTerminator(pre + w + post)
    requires !Excluded(pre + w + post, exclusions)
    ensures GarbageName(pre + w + post, exclusions)
  {
    var name := pre + w + post;
    LowerStrConcat(pre + w, post);
    LowerStrConcat(pre, w);
    var low := LowerStr(name);
    var word := DefaultGarbagePatterns[k].word;
    assert low == LowerStr(pre) + word + LowerStr(post);
    assert low[|pre|..|pre| + |word|] == word;
    assert OccursAt(word, low, |pre|);
    assert Matches(DefaultGarbagePatterns[k], low);
  }

  // ---- paths of the tree ----

  /** The files of the tree being packed, by path. */
  function Files(root: Node): set<Path>
  {
    ItemFiles(Item([], root))
  }

  /** A path `collectGarbage` reports. */
  predicate GarbagePath(p: Path, exclusions: Option<seq<string>>) {
    p != [] && GarbageName(Last(p), exclusions)
  }

  function GarbageIn(s: set<Path>, exclusions: Option<seq<string>>): set<Path>
  {
    set p | p in s && GarbagePath(p, exclusions)
  }

  lemma GarbageInUnion(a: set<Path>, b: set<Path>, exclusions: Option<seq<string>>)
    ensures GarbageIn(a + b, exclusions) == GarbageIn(a, exclusions) + GarbageIn(b, exclusions)
  {
  }

  /** `collectGarbage`: a breadth-first walk of the directories that collects every
      plain file whose name marks it as garbage. */
  method CollectGarbage(root: Node, exclusions: Option<seq<string>>) returns (garbage: seq<Path>)
    ensures (set p | p in garbage) == GarbageIn(Files(root), exclusions)
  {
    garbage := [];
    var queue := [Item([], root)];
    QueueStart(root);
    while queue != []
      invariant (set p | p in garbage) + GarbageIn(QueueFiles(queue), exclusions) == GarbageIn(Files(root), exclusions)
      decreases QueueSize(queue)
    {
      var it := queue[0];
      if it.node.Dir? {
        var path, cs := it.path, it.node.children;
        QueueStepDir(queue);
        GarbageInUnion(PlainFiles(path, cs, |cs|), QueueFiles(queue[1..] + DirItems(path, cs)), exclusions);
        queue := queue[1..] + DirItems(path, cs);
        var found := GarbageOfListing(path, cs, exclusions);
        garbage := garbage + found;
      } else {
        QueueStepFile(queue);
        queue := queue[1..];
      }
    }
  }

  /** The filter of `collectGarbage` over one directory listing. */
  method GarbageOfListing(path: Path, cs: seq<Node>, exclusions: Option<seq<string>>) returns (found: seq<Path>)
    ensures (set p | p in found) == GarbageIn(PlainFiles(path, cs, |cs|), exclusions)
  {
    found := [];
    for i := 0 to |cs|
      invariant (set p | p in found) == GarbageIn(PlainFiles(path, cs, i), exclusions)
    {
      GarbageNext(path, cs, i, exclusions);
      if cs[i].File? {
        var g := IsGarbage(cs[i].name, exclusions);
        if g {
          SetSnoc(found, path + [cs[i].name]);
          found := found + [path + [cs[i].name]];
        }
      }
    }
  }

  lemma PlainFilesNext(path: Path, cs: seq<Node>, i: nat)
    requires i < |cs|
    ensures PlainFiles(path, cs, i + 1) == PlainFiles(path, cs, i) + (if cs[i].File? then {path + [cs[i].name]} else {})
  {
  }

  lemma SetSnoc(s: seq<Path>, x: Path)
    ensures (set p | p in s + [x]) == (set p | p in s) + {x}
  {
  }

  /** One more entry of a listing adds it to the garbage when it is a plain file with a
      garbage name. */
  lemma GarbageNext(path: Path, cs: seq<Node>, i: nat, exclusions: Option<seq<string>>)
    requires i < |cs|
    ensures GarbageIn(PlainFiles(path, cs, i + 1), exclusions) ==
      GarbageIn(PlainFiles(path, cs, i), exclusions) +
      (if cs[i].File? && GarbageName(cs[i].name, exclusions) then {path + [cs[i].name]} else {})
  {
    PlainFilesNext(path, cs, i);
    GarbageInUnion(PlainFiles(path, cs, i), if cs[i].File? then {path + [cs[i].name]} else {}, exclusions);
    assert Last(path + [cs[i].name]) == cs[i].name;
  }

  // ---- the trivial nesting case ----

  /** A file that goes into the archive: not excluded by extension and not collected as
      garbage. */
  predicate Kept(p: Path, exclusions: Option<seq<string>>, garbage: set<Path>) {
    p != [] && !Excluded(Last(p), exclusions) && p !in garbage
  }

  /** The directories that hold a file of `s` that goes into the archive. */
  function ParentsIn(s: set<Path>, exclusions: Option<seq<string>>, garbage: set<Path>): set<Path>
  {
    set p | p in s && Kept(p, exclusions, garbage) :: Parent(p)
  }

  lemma ParentsInUnion(a: set<Path>, b: set<Path>, exclusions: Option<seq<string>>, garbage: set<Path>)
    ensures ParentsIn(a + b, exclusions, garbage) == ParentsIn(a, exclusions, garbage) + ParentsIn(b, exclusions, garbage)
  {
  }

  /** Where the archive is packed from: the single directory that holds every kept file
      when there is one, the packed directory itself otherwise. */
  ghost function Source(root: Node, exclusions: Option<seq<string>>, garbage: set<Path>): Path
  {
    var ps := ParentsIn(Files(root), exclusions, garbage);
    if |ps| == 1 then Element(ps) else []
  }

  ghost function Element(s: set<Path>): (d: Path)
    requires s != {}
    ensures d in s
  {
    var d :| d in s; d
  }

  /** Some one of the first `i` entries of the listing at `path` is a kept file. */
  predicate AnyKept(path: Path, cs: seq<Node>, i: nat, exclusions: Option<seq<string>>, garbage: set<Path>)
    requires i <= |cs|
  {
    exists j :: 0 <= j < i && cs[j].File? && Kept(path + [cs[j].name], exclusions, garbage)
  }

  /** The directory of a listing holds a kept file exactly when one of its entries is. */
  lemma ParentsOfListing(path: Path, cs: seq<Node>, exclusions: Option<seq<string>>, garbage: set<Path>)
    ensures ParentsIn(PlainFiles(path, cs, |cs|), exclusions, garbage) ==
      if AnyKept(path, cs, |cs|, exclusions, garbage) then {path} else {}
  {
    forall j | 0 <= j < |cs|
      ensures Parent(path + [cs[j].name]) == path
    {
    }
  }

  /** The file `name` of the listing at `path` is kept exactly when it is neither
      excluded nor in the garbage list. */
  lemma KeptEntry(path: Path, name: string, exclusions: Option<seq<string>>, garbage: set<Path>, excluded: bool)
    requires excluded == Excluded(name, exclusions)
    ensures Kept(path + [name], exclusions, garbage) <==> !excluded && path + [name] !in garbage
  {
    assert Last(path + [name]) == name;
  }

  /** `searchForTrivialNestingCase`: a breadth-first walk that groups the kept files by
      the directory holding them; it then packs from that directory when it is the only
      one.  Only directories are ever queued: `CompressComic` calls this on a directory,
      and a listing queues only its sub-directories.  The branch for a plain file taken
      off the queue is there because the walk is stated over any tree; no call from
      `CompressComic` reaches it. */
  method SearchForTrivialNestingCase(root: Node, garbage: set<Path>, exclusions: Option<seq<string>>)
    returns (source: Path)
    ensures source == Source(root, exclusions, garbage)
  {
    var images: map<Path, seq<Path>> := map[];
    var queue := [Item([], root)];
    QueueStart(root);
    while queue != []
      invariant images.Keys + ParentsIn(QueueFiles(queue), exclusions, garbage) == ParentsIn(Files(root), exclusions, garbage)
      decreases QueueSize(queue)
    {
      var it := queue[0];
      if it.node.Dir? {
        var grouped, dirs := GroupListing(images, it.path, it.node.children, exclusions, garbage);
        DirStepKeys(queue, images.Keys, grouped.Keys, Files(root), exclusions, garbage);
        images, queue := grouped, queue[1..] + dirs;
      } else {
        QueueStepFile(queue);
        queue := queue[1..];
      }
    }
    ParentsOfEmptyQueue(exclusions, garbage);
    SetUnionEmpty(images.Keys, ParentsIn(QueueFiles(queue), exclusions, garbage), ParentsIn(Files(root), exclusions, garbage));
    var keys := images.Keys;
    if |keys| != 1 {
      source := [];
    } else {
      source :| source in keys;
    }
    SourceChosen(root, exclusions, garbage, keys, source);
  }

  /** Visiting a directory of the queue moves the parents of its kept plain files from
      what the queue still holds to the keys of the map. */
  lemma DirStepKeys(q: seq<Item>, keys: set<Path>, grouped: set<Path>, all: set<Path>,
                    exclusions: Option<seq<string>>, garbage: set<Path>)
    requires q != [] && q[0].node.Dir?
    requires keys + ParentsIn(QueueFiles(q), exclusions, garbage) == ParentsIn(all, exclusions, garbage)
    requires grouped == keys + ParentsIn(PlainFiles(q[0].path, q[0].node.children, |q[0].node.children|), exclusions, garbage)
    ensures var rest := q[1..] + DirItems(q[0].path, q[0].node.children);
      && grouped + ParentsIn(QueueFiles(rest), exclusions, garbage) == ParentsIn(all, exclusions, garbage)
      && QueueSize(rest) < QueueSize(q)
  {
    var path, cs := q[0].path, q[0].node.children;
    QueueStepDir(q);
    ParentsInUnion(PlainFiles(path, cs, |cs|), QueueFiles(q[1..] + DirItems(path, cs)), exclusions, garbage);
  }

  lemma ParentsOfEmptyQueue(exclusions: Option<seq<string>>, garbage: set<Path>)
    ensures ParentsIn(QueueFiles([]), exclusions, garbage) == {}
  {
    QueueEmpty();
  }

  lemma SetUnionEmpty(a: set<Path>, b: set<Path>, c: set<Path>)
    requires a + b == c && b == {}
    ensures a == c
  {
  }

  /** The key the walk settles on is the source: the only directory holding kept files,
      or the packed directory when there is not just one. */
  lemma SourceChosen(root: Node, exclusions: Option<seq<string>>, garbage: set<Path>, keys: set<Path>, source: Path)
    requires keys == ParentsIn(Files(root), exclusions, garbage)
    requires if |keys| == 1 then source in keys else source == []
    ensures source == Source(root, exclusions, garbage)
  {
    if |keys| == 1 {
      SingletonMember(keys, source, Source(root, exclusions, garbage));
    }
  }

  /** The loop of `searchForTrivialNestingCase` over one directory listing: directories
      are queued in listing order, and each kept plain file is added to the list of its
      directory. */
  method GroupListing(images: map<Path, seq<Path>>, path: Path, cs: seq<Node>,
                      exclusions: Option<seq<string>>, garbage: set<Path>)
    returns (grouped: map<Path, seq<Path>>, dirs: seq<Item>)
    ensures dirs == DirItems(path, cs)
    ensures grouped.Keys == images.Keys + ParentsIn(PlainFiles(path, cs, |cs|), exclusions, garbage)
  {
    grouped, dirs := images, [];
    for i := 0 to |cs|
      invariant dirs == DirItems(path, cs[..i])
      invariant grouped.Keys == images.Keys + (if AnyKept(path, cs, i, exclusions, garbage) then {path} else {})
    {
      DirItemsNext(path, cs, i);
      if cs[i].Dir? {
        dirs := dirs + [Item(path + [cs[i].name], cs[i])];
      } else {
        var f := path + [cs[i].name];
        var excluded := IsExcluded(cs[i].name, exclusions);
        KeptEntry(path, cs[i].name, exclusions, garbage, excluded);
        if !excluded && f !in garbage {
          var group := if path in grouped then grouped[path] else [];
          assert grouped[path := group + [f]].Keys == grouped.Keys + {path};
          grouped := grouped[path := group + [f]];
        }
      }
    }
    ParentsOfListing(path, cs, exclusions, garbage);
    DirItemsAll(path, cs);
  }

  // ---- the archive ----

  /** The file at `p` goes into an archive packed from `source`. */
  predicate Packed(p: Path, source: Path, exclusions: Option<seq<string>>, garbage: set<Path>) {
    |p| > |source| && p[..|source|] == source && Kept(p, exclusions, garbage)
  }

  /** The entries `compressDirectory` writes, in walk order: the files under `source`
      that are kept, named relative to `source`. */
  function Entries(files: seq<Path>, source: Path, exclusions: Option<seq<string>>, garbage: set<Path>): seq<Path>
    decreases |files|
  {
    if files == [] then []
    else
      var p := files[|files| - 1];
      Entries(files[..|files| - 1], source, exclusions, garbage) +
        (if Packed(p, source, exclusions, garbage) then [p[|source|..]] else [])
  }

  /** An entry is the relative name of a file of the walk that is packed. */
  lemma {:induction false} EntriesMember(files: seq<Path>, source: Path, exclusions: Option<seq<string>>, garbage: set<Path>, e: Path)
    ensures e in Entries(files, source, exclusions, garbage) <==> source + e in files && Packed(source + e, source, exclusions, garbage)
    decreases |files|
  {
    if files != [] {
      var init, p := files[..|files| - 1], files[|files| - 1];
      EntriesMember(init, source, exclusions, garbage, e);
      assert files == init + [p];
      if Packed(p, source, exclusions, garbage) {
        assert p == source + p[|source|..];
      }
      assert (source + e)[..|source|] == source && (source + e)[|source|..] == e;
    }
  }

  /** `compressDirectory`'s walk: each file that is neither excluded nor garbage becomes
      an entry named by its path relative to the source directory.  `files` is the walk
      of the packed directory, which holds the walk of any directory inside it. */
  method CompressDirectory(files: seq<Path>, source: Path, exclusions: Option<seq<string>>, garbage: set<Path>)
    returns (entries: seq<Path>)
    ensures entries == Entries(files, source, exclusions, garbage)
  {
    entries := [];
    for i := 0 to |files|
      invariant entries == Entries(files[..i], source, exclusions, garbage)
    {
      var p := files[i];
      assert files[..i + 1][..i] == files[..i];
      if |p| > |source| && p[..|source|] == source {
        var excluded := IsExcluded(p[|p| - 1], exclusions);
        if !excluded && p !in garbage {
          entries := entries + [p[|source|..]];
        }
      }
    }
    assert files[..|files|] == files;
  }

  /** The files that go into the archive of `root`. */
  function KeptFiles(root: Node, exclusions: Option<seq<string>>, garbage: set<Path>): set<Path>
  {
    set p | p in Files(root) && Kept(p, exclusions, garbage)
  }

  /** Packing from the single image directory loses no image: the entries, placed back
      under the source directory, are exactly the files that are neither excluded nor
      garbage. */
  lemma NestingLosesNothing(root: Node, exclusions: Option<seq<string>>, garbage: set<Path>)
    ensures (set e | e in Entries(Walk([], root), Source(root, exclusions, garbage), exclusions, garbage)
               :: Source(root, exclusions, garbage) + e) == KeptFiles(root, exclusions, garbage)
  {
    var src := Source(root, exclusions, garbage);
    var es := Entries(Walk([], root), src, exclusions, garbage);
    forall p | p in KeptFiles(root, exclusions, garbage)
      ensures exists e :: e in es && src + e == p
    {
      PackedFromSource(root, exclusions, garbage, p);
      var e := p[|src|..];
      assert p == src + e;
      EntriesMember(Walk([], root), src, exclusions, garbage, e);
    }
    forall e | e in es
      ensures src + e in KeptFiles(root, exclusions, garbage)
    {
      EntriesMember(Walk([], root), src, exclusions, garbage, e);
    }
  }

  /** Every kept file lies under the source directory. */
  lemma PackedFromSource(root: Node, exclusions: Option<seq<string>>, garbage: set<Path>, p: Path)
    requires p in KeptFiles(root, exclusions, garbage)
    ensures Packed(p, Source(root, exclusions, garbage), exclusions, garbage)
  {
    var ps := ParentsIn(Files(root), exclusions, garbage);
    assert Parent(p) in ps;
    if |ps| == 1 {
      SingletonMember(ps, Parent(p), Source(root, exclusions, garbage));
      assert p[..|p| - 1] == Parent(p);
    }
  }

  lemma SingletonMember(s: set<Path>, a: Path, b: Path)
    requires |s| == 1 && a in s && b in s
    ensures a == b
  {
    var r := s - {a};
    assert s == r + {a} && a !in r;
    assert |r| == 0;
  }

  /** The source is the one directory that holds kept files when there is exactly one
      such directory, and the packed directory itself when there are none or several. */
  lemma SourceIsTheSingleParent(root: Node, exclusions: Option<seq<string>>, garbage: set<Path>)
    ensures var ps := ParentsIn(Files(root), exclusions, garbage);
      |ps| == 1 ==> ps == {Source(root, exclusions, garbage)}
    ensures |ParentsIn(Files(root), exclusions, garbage)| != 1 ==> Source(root, exclusions, garbage) == []
  {
    var ps := ParentsIn(Files(root), exclusions, garbage);
    if |ps| == 1 {
      var src := Source(root, exclusions, garbage);
      forall d | d in ps
        ensures d == src
      {
        SingletonMember(ps, d, src);
      }
    }
  }

  /** When a single directory holds every kept file, the archive is flat: each entry is
      a bare file name. */
  lemma NestedArchiveIsFlat(root: Node, exclusions: Option<seq<string>>, garbage: set<Path>, e: Path)
    requires |ParentsIn(Files(root), exclusions, garbage)| == 1
    requires e in Entries(Walk([], root), Source(root, exclusions, garbage), exclusions, garbage)
    ensures |e| == 1
  {
    var src := Source(root, exclusions, garbage);
    var ps := ParentsIn(Files(root), exclusions, garbage);
    EntriesMember(Walk([], root), src, exclusions, garbage, e);
    var p := src + e;
    assert p in Files(root);
    assert Parent(p) in ps;
    SingletonMember(ps, Parent(p), src);
  }

  // ---- compressComic ----

  /** The `File` handed to `compressComic`, as its assertions see it. */
  datatype Target = NullFile | Missing | SymbolicLink | PlainFile | Directory(name: string, children: seq<Node>)

  /** What `compressComic` does to the file system, in order. */
  datatype Effect = WriteArchive(archive: string, entries: seq<Path>) | RemoveDirectory

  /** The effects, and whether a `CompressionException` came out. */
  datatype Outcome = Outcome(effects: seq<Effect>, failed: bool)

  /** The entries of the archive of a directory. */
  ghost function Plan(root: Node, garbageCollector: bool, exclusions: Option<seq<string>>): seq<Path>
  {
    Entries(Walk([], root), Source(root, exclusions, Garbage(root, garbageCollector, exclusions)),
            exclusions, Garbage(root, garbageCollector, exclusions))
  }

  /** The files left out as garbage: none unless the collector runs. */
  function Garbage(root: Node, garbageCollector: bool, exclusions: Option<seq<string>>): set<Path>
  {
    if garbageCollector then GarbageIn(Files(root), exclusions) else {}
  }

  /** `compressComic`.  `archiveFails` stands for the creation or writing of the archive
      throwing (the target exists, or a write fails), `removeFails` for the removal of the
      directory throwing. */
  method CompressComic(target: Target, garbageCollector: bool, exclusions: Option<seq<string>>,
                       archiveFails: bool, removeFails: bool)
    returns (outcome: Outcome)
    ensures !target.Directory? ==> outcome == Outcome([], true)
    ensures target.Directory? ==>
      outcome == Packing(Dir(target.name, target.children), NormalizeFileName(target.name + ".cbz"),
                         garbageCollector, exclusions, archiveFails, removeFails)
  {
    if !target.Directory? {
      return Outcome([], true);
    }
    var archive := NormalizeFileName(target.name + ".cbz");
    outcome := PackDirectory(Dir(target.name, target.children), archive, garbageCollector, exclusions,
                             archiveFails, removeFails);
  }

  /** What packing a directory into `archive` does: nothing when the archive cannot be
      written; otherwise the archive is written and then, unless that fails, the
      directory is removed. */
  ghost function Packing(root: Node, archive: string, garbageCollector: bool, exclusions: Option<seq<string>>,
                         archiveFails: bool, removeFails: bool): (o: Outcome)
    ensures RemoveDirectory in o.effects ==> !o.failed && o.effects[0].WriteArchive?
    ensures o.failed <==> archiveFails || removeFails
  {
    if archiveFails then Outcome([], true)
    else
      var written := WriteArchive(archive, Plan(root, garbageCollector, exclusions));
      if removeFails then Outcome([written], true) else Outcome([written, RemoveDirectory], false)
  }

  /** The body of `compressComic` once the directory has passed its assertions. */
  method PackDirectory(root: Node, archive: string, garbageCollector: bool, exclusions: Option<seq<string>>,
                       archiveFails: bool, removeFails: bool)
    returns (outcome: Outcome)
    ensures outcome == Packing(root, archive, garbageCollector, exclusions, archiveFails, removeFails)
  {
    var garbage: set<Path> := {};
    if garbageCollector {
      var collected := CollectGarbage(root, exclusions);
      garbage := set p | p in collected;
    }
    assert garbage == Garbage(root, garbageCollector, exclusions);
    var source := SearchForTrivialNestingCase(root, garbage, exclusions);
    var entries := CompressDirectory(Walk([], root), source, exclusions, garbage);
    if archiveFails {
      return Outcome([], true);
    }
    var effects := [WriteArchive(archive, entries)];
    if removeFails {
      return Outcome(effects, true);
    }
    outcome := Outcome(effects + [RemoveDirectory], false);
  }
}
