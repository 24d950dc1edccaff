/** Directory trees as the packing code sees them through `java.io.File`: a node is a
    plain file or a directory with its listing, and a file is named by its path, the
    sequence of names leading to it from the directory being packed (the empty path is
    that directory itself).  Two `File` objects are equal when their paths are. */
module FileTree {

  type Path = seq<string>

  datatype Node = File(name: string) | Dir(name: string, children: seq<Node>)

  /** A `File` taken from a work queue: where it is and what is there. */
  datatype Item = Item(path: Path, node: Node)

  /** The paths of all plain files at or below `n`, which sits at `path`: what
      `Files.walk` visits, without the directories, in pre-order. */
  function Walk(path: Path, n: Node): seq<Path>
    decreases n
  {
    match n
    case File(_) => [path]
    case Dir(_, cs) => WalkAll(path, cs)
  }

  function WalkAll(path: Path, cs: seq<Node>): seq<Path>
    decreases cs
  {
    if cs == [] then [] else Walk(path + [cs[0].name], cs[0]) + WalkAll(path, cs[1..])
  }

  /** The files below a listing are the files below its entries. */
  lemma {:induction false} WalkAllMember(path: Path, cs: seq<Node>, p: Path)
    ensures p in WalkAll(path, cs) <==> exists i :: 0 <= i < |cs| && p in Walk(path + [cs[i].name], cs[i])
    decreases cs
  {
    if cs != [] {
      WalkAllMember(path, cs[1..], p);
      if p in WalkAll(path, cs[1..]) {
        var i :| 0 <= i < |cs[1..]| && p in Walk(path + [cs[1..][i].name], cs[1..][i]);
        assert cs[1..][i] == cs[i + 1];
      }
      if exists i :: 0 <= i < |cs| && p in Walk(path + [cs[i].name], cs[i]) {
        var i :| 0 <= i < |cs| && p in Walk(path + [cs[i].name], cs[i]);
        if i > 0 {
          assert cs[1..][i - 1] == cs[i];
        }
      }
    }
  }

  /** Every file found below `n` lies under `path`, strictly so when `n` is a directory. */
  lemma {:induction false} WalkBelow(path: Path, n: Node, p: Path)
    requires p in Walk(path, n)
    ensures |p| >= |path| && p[..|path|] == path
    ensures n.Dir? ==> |p| > |path|
    decreases n
  {
    if n.Dir? {
      WalkAllMember(path, n.children, p);
      var i :| 0 <= i < |n.children| && p in Walk(path + [n.children[i].name], n.children[i]);
      WalkBelow(path + [n.children[i].name], n.children[i], p);
      assert p[..|path|] == p[..|path| + 1][..|path|];
    }
  }

  function Last(p: Path): string
    requires p != []
  {
    p[|p| - 1]
  }

  /** `getParentFile`. */
  function Parent(p: Path): Path
    requires p != []
  {
    p[..|p| - 1]
  }

  /** The files strictly below a queued item. */
  function ItemFiles(it: Item): set<Path>
  {
    set p | p in Walk(it.path, it.node) && |p| > |it.path|
  }

  /** The files strictly below the items of a queue. */
  function QueueFiles(q: seq<Item>): set<Path>
  {
    set k, p | 0 <= k < |q| && p in ItemFiles(q[k]) :: p
  }

  lemma QueueFilesAppend(a: seq<Item>, b: seq<Item>)
    ensures QueueFiles(a + b) == QueueFiles(a) + QueueFiles(b)
  {
    var ab := a + b;
    forall p | p in QueueFiles(ab)
      ensures p in QueueFiles(a) + QueueFiles(b)
    {
      var k :| 0 <= k < |ab| && p in ItemFiles(ab[k]);
      if k >= |a| {
        assert ab[k] == b[k - |a|];
      }
    }
    forall p | p in QueueFiles(b)
      ensures p in QueueFiles(ab)
    {
      var k :| 0 <= k < |b| && p in ItemFiles(b[k]);
      assert ab[k + |a|] == b[k];
    }
    forall p | p in QueueFiles(a)
      ensures p in QueueFiles(ab)
    {
      var k :| 0 <= k < |a| && p in ItemFiles(a[k]);
      assert ab[k] == a[k];
    }
  }

  lemma QueueFilesPop(q: seq<Item>)
    requires q != []
    ensures QueueFiles(q) == ItemFiles(q[0]) + QueueFiles(q[1..])
  {
    assert q == [q[0]] + q[1..];
    QueueFilesAppend([q[0]], q[1..]);
  }

  /** The directories of a listing, as queue items, in listing order. */
  function DirItems(path: Path, cs: seq<Node>): seq<Item>
    decreases |cs|
  {
    if cs == [] then []
    else
      var c := cs[|cs| - 1];
      DirItems(path, cs[..|cs| - 1]) + (if c.Dir? then [Item(path + [c.name], c)] else [])
  }

  /** The sub-directories of one more entry of a listing. */
  lemma DirItemsNext(path: Path, cs: seq<Node>, i: nat)
    requires i < |cs|
    ensures DirItems(path, cs[..i + 1]) ==
      DirItems(path, cs[..i]) + (if cs[i].Dir? then [Item(path + [cs[i].name], cs[i])] else [])
  {
    assert cs[..i + 1][..i] == cs[..i];
  }

  lemma DirItemsAll(path: Path, cs: seq<Node>)
    ensures DirItems(path, cs[..|cs|]) == DirItems(path, cs)
  {
    assert cs[..|cs|] == cs;
  }

  /** The plain files of the first `i` entries of a listing below `path`. */
  function PlainFiles(path: Path, cs: seq<Node>, i: nat): set<Path>
    requires i <= |cs|
  {
    set j | 0 <= j < i && cs[j].File? :: path + [cs[j].name]
  }

  /** A plain file is found at its own path, and only there. */
  lemma ItemFilesOfFile(it: Item)
    requires it.node.File?
    ensures ItemFiles(it) == {}
  {
  }

  /** The files strictly below a directory: its plain entries, and the files below its
      sub-directories. */
  lemma ItemFilesOfDir(path: Path, name: string, cs: seq<Node>)
    ensures ItemFiles(Item(path, Dir(name, cs))) == PlainFiles(path, cs, |cs|) + QueueFiles(DirItems(path, cs))
  {
    var it := Item(path, Dir(name, cs));
    forall p | p in ItemFiles(it)
      ensures p in PlainFiles(path, cs, |cs|) + QueueFiles(DirItems(path, cs))
    {
      WalkAllMember(path, cs, p);
      var i :| 0 <= i < |cs| && p in Walk(path + [cs[i].name], cs[i]);
      if cs[i].Dir? {
        DirBelow(path, cs, i, p);
      }
    }
    forall p | p in PlainFiles(path, cs, |cs|)
      ensures p in ItemFiles(it)
    {
      var j :| 0 <= j < |cs| && cs[j].File? && p == path + [cs[j].name];
      WalkAllMember(path, cs, p);
    }
    forall p | p in QueueFiles(DirItems(path, cs))
      ensures p in ItemFiles(it)
    {
      DirItemsMember(path, cs, p);
      var i :| 0 <= i < |cs| && cs[i].Dir? && p in Walk(path + [cs[i].name], cs[i]);
      WalkAllMember(path, cs, p);
      WalkBelow(path + [cs[i].name], cs[i], p);
    }
  }

  /** A file below a sub-directory of a listing is a file of the queue of the listing's
      sub-directories. */
  lemma DirBelow(path: Path, cs: seq<Node>, i: nat, p: Path)
    requires i < |cs| && cs[i].Dir? && p in Walk(path + [cs[i].name], cs[i])
    ensures p in QueueFiles(DirItems(path, cs))
  {
    WalkBelow(path + [cs[i].name], cs[i], p);
    DirItemsMember(path, cs, p);
  }

  /** The files of the queue of a listing's sub-directories are the files below them. */
  lemma {:induction false} DirItemsMember(path: Path, cs: seq<Node>, p: Path)
    ensures p in QueueFiles(DirItems(path, cs)) <==>
      exists i :: 0 <= i < |cs| && cs[i].Dir? && p in Walk(path + [cs[i].name], cs[i]) && |p| > |path| + 1
    decreases |cs|
  {
    if cs != [] {
      var init, c := cs[..|cs| - 1], cs[|cs| - 1];
      var tail := if c.Dir? then [Item(path + [c.name], c)] else [];
      QueueFilesAppend(DirItems(path, init), tail);
      DirItemsMember(path, init, p);
      assert forall i :: 0 <= i < |init| ==> init[i] == cs[i];
      if c.Dir? {
        assert QueueFiles(tail) == ItemFiles(tail[0]) by {
          QueueFilesPop(tail);
        }
      }
    }
  }

  // ---- the measure that bounds a breadth-first walk ----

  function Size(n: Node): nat
    decreases n
  {
    match n
    case File(_) => 1
    case Dir(_, cs) => 1 + SizeAll(cs)
  }

  function SizeAll(cs: seq<Node>): nat
    decreases cs
  {
    if cs == [] then 0 else Size(cs[0]) + SizeAll(cs[1..])
  }

  function QueueSize(q: seq<Item>): nat
  {
    if q == [] then 0 else Size(q[0].node) + QueueSize(q[1..])
  }

  lemma {:induction false} QueueSizeAppend(a: seq<Item>, b: seq<Item>)
    ensures QueueSize(a + b) == QueueSize(a) + QueueSize(b)
  {
    if a != [] {
      assert (a + b)[0] == a[0] && (a + b)[1..] == a[1..] + b;
      QueueSizeAppend(a[1..], b);
    } else {
      assert a + b == b;
    }
  }

  lemma {:induction false} SizeAllSnoc(cs: seq<Node>)
    requires cs != []
    ensures SizeAll(cs) == SizeAll(cs[..|cs| - 1]) + Size(cs[|cs| - 1])
  {
    if |cs| > 1 {
      assert cs[1..][..|cs[1..]| - 1] == cs[..|cs| - 1][1..];
      SizeAllSnoc(cs[1..]);
    }
  }

  /** The sub-directories of a listing weigh no more than the whole listing. */
  lemma {:induction false} DirItemsSize(path: Path, cs: seq<Node>)
    ensures QueueSize(DirItems(path, cs)) <= SizeAll(cs)
    decreases |cs|
  {
    if cs != [] {
      var c := cs[|cs| - 1];
      DirItemsSize(path, cs[..|cs| - 1]);
      QueueSizeAppend(DirItems(path, cs[..|cs| - 1]), if c.Dir? then [Item(path + [c.name], c)] else []);
      SizeAllSnoc(cs);
    }
  }

  /** Replacing the first item of a queue by the sub-directories of its listing makes the
      queue lighter. */
  lemma QueueShrinks(q: seq<Item>, path: Path, name: string, cs: seq<Node>)
    requires q != [] && q[0].node == Dir(name, cs)
    ensures QueueSize(q[1..] + DirItems(path, cs)) < QueueSize(q)
  {
    QueueSizeAppend(q[1..], DirItems(path, cs));
    DirItemsSize(path, cs);
  }

  /** Taking a directory off the front of a queue and queueing its sub-directories
      trades the directory's files for its plain entries, and lightens the queue. */
  lemma QueueStepDir(q: seq<Item>)
    requires q != [] && q[0].node.Dir?
    ensures QueueFiles(q) == PlainFiles(q[0].path, q[0].node.children, |q[0].node.children|) +
                             QueueFiles(q[1..] + DirItems(q[0].path, q[0].node.children))
    ensures QueueSize(q[1..] + DirItems(q[0].path, q[0].node.children)) < QueueSize(q)
  {
    var it := q[0];
    QueueFilesPop(q);
    ItemFilesOfDir(it.path, it.node.name, it.node.children);
    QueueFilesAppend(q[1..], DirItems(it.path, it.node.children));
    QueueShrinks(q, it.path, it.node.name, it.node.children);
  }

  /** Taking a plain file off the front of a queue loses no file below the queue. */
  lemma QueueStepFile(q: seq<Item>)
    requires q != [] && q[0].node.File?
    ensures QueueFiles(q) == QueueFiles(q[1..])
    ensures QueueSize(q[1..]) < QueueSize(q)
  {
    QueueFilesPop(q);
    ItemFilesOfFile(q[0]);
  }

  lemma QueueEmpty()
    ensures QueueFiles([]) == {}
  {
  }

  /** A queue holding only the root holds all the files under it. */
  lemma QueueStart(root: Node)
    ensures QueueFiles([Item([], root)]) == ItemFiles(Item([], root))
  {
    QueueFilesPop([Item([], root)]);
  }
}
