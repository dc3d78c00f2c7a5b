/** Directory search: `fs_find`, and `fs_grep` on a directory, over one recursive iterator. */
module Walk {

  import opened Base
  import opened TextEdit
  import opened Lines
  import opened Grep
  import FileTree
  import Paths

  // ---------- directory trees ----------

  /** What a symbolic link leads to in the end, and the absolute path of that. */
  datatype Target = ToFile(at: Path, file: File) | ToDirectory(at: Path) | ToOther(at: Path) | ToNothing

  datatype Node = RegularFile(file: File) | Directory(entries: seq<Entry>) | Symlink(target: Target) | Other

  datatype Entry = Entry(name: Text, node: Node)

  /** An entry and its path below the directory that is searched. */
  datatype Visit = Visit(path: Path, entry: Entry)

  /** `is_default_ignored_directory`; a link to a directory counts as a directory here. */
  predicate Ignored(entry: Entry) {
    && (entry.node.Directory? || (entry.node.Symlink? && entry.node.target.ToDirectory?))
    && (entry.name == Ascii(".git") || entry.name == Ascii(".hg") || entry.name == Ascii(".svn"))
  }

  /** The pre-order of the tree, without ignored directories and what is below them. */
  function Pruned(dir: Path, entries: seq<Entry>): seq<Visit>
    decreases entries, dir
  {
    if |entries| == 0 then [] else
    PrunedEntry(dir, entries[0]) + Pruned(dir, entries[1..])
  }

  function PrunedEntry(dir: Path, entry: Entry): seq<Visit>
    decreases entry, dir
  {
    if Ignored(entry) then [] else [Visit(dir + [entry.name], entry)] + Below(dir, entry)
  }

  /** What is visited below an entry when the iterator descends into it; it follows no links. */
  function Below(dir: Path, entry: Entry): seq<Visit>
    decreases entry, dir, 0
  {
    if entry.node.Directory? then Pruned(dir + [entry.name], entry.node.entries) else []
  }

  /** `q` names `e` below these entries, by a way that crosses directories only and no ignored one. */
  ghost predicate Reaches(entries: seq<Entry>, q: Path, e: Entry)
    decreases |q|, 1
  {
    exists i :: 0 <= i < |entries| && ReachesVia(entries[i], q, e)
  }

  ghost predicate ReachesVia(x: Entry, q: Path, e: Entry)
    decreases |q|, 0
  {
    && |q| > 0 && q[0] == x.name && !Ignored(x)
    && if |q| == 1 then e == x else x.node.Directory? && Reaches(x.node.entries, q[1..], e)
  }

  /** The pruned pre-order visits exactly the entries that can be reached without an ignored directory. */
  lemma {:induction false} PrunedVisitsTheReachable(dir: Path, entries: seq<Entry>, q: Path, e: Entry)
    ensures Visit(dir + q, e) in Pruned(dir, entries) <==> Reaches(entries, q, e)
    decreases entries, 1
  {
    hide Ignored;
    if |entries| > 0 {
      var head, tail := entries[0], entries[1..];
      EntryVisitsTheReachable(dir, head, q, e);
      PrunedVisitsTheReachable(dir, tail, q, e);
      if i :| 0 <= i < |tail| && ReachesVia(tail[i], q, e) {
        assert entries[i + 1] == tail[i];
      }
      if i :| 0 <= i < |entries| && ReachesVia(entries[i], q, e) {
        assert i > 0 ==> tail[i - 1] == entries[i];
      }
    }
  }

  lemma {:induction false} EntryVisitsTheReachable(dir: Path, x: Entry, q: Path, e: Entry)
    ensures Visit(dir + q, e) in PrunedEntry(dir, x) <==> ReachesVia(x, q, e)
    decreases x, 0
  {
    hide Ignored;
    var here := dir + [x.name];
    VisitsLieBelow(here, if x.node.Directory? then x.node.entries else []);
    if |q| > 0 && q[0] == x.name {
      assert dir + q == here + q[1..];
      if x.node.Directory? {
        PrunedVisitsTheReachable(here, x.node.entries, q[1..], e);
      }
      if |q| == 1 {
        assert dir + q == here;
      }
    } else if |q| > 0 {
      assert (dir + q)[|dir|] == q[0] && here[|dir|] == x.name;
    }
  }

  lemma {:induction false} VisitsLieBelow(dir: Path, entries: seq<Entry>)
    ensures forall v :: v in Pruned(dir, entries) ==> dir < v.path
    decreases entries
  {
    hide Ignored;
    if |entries| > 0 {
      var head, here := entries[0], dir + [entries[0].name];
      if head.node.Directory? {
        VisitsLieBelow(here, head.node.entries);
      }
      VisitsLieBelow(dir, entries[1..]);
      forall v | v in PrunedEntry(dir, head) ensures dir < v.path {
        if v != Visit(here, head) {
          assert v in Below(dir, head);
          assert here < v.path && v.path[..|here|] == here;
        }
      }
    }
  }

  /** In a pre-order of these entries `p` comes before `q`: it is the directory that `q` lies in, or the ways
      to them part at entries of which the one towards `p` comes first. */
  ghost predicate Earlier(entries: seq<Entry>, p: Path, q: Path)
    decreases |p|
  {
    && |p| > 0 && |q| > 0
    && exists i, j :: 0 <= i <= j < |entries| && entries[i].name == p[0] && entries[j].name == q[0]
                      && (i == j ==> |q| > 1 && entries[i].node.Directory?
                                     && (|p| == 1 || Earlier(entries[i].node.entries, p[1..], q[1..])))
  }

  lemma {:induction false} EarlierInTail(entries: seq<Entry>, p: Path, q: Path)
    requires |entries| > 0 && Earlier(entries[1..], p, q)
    ensures Earlier(entries, p, q)
  {
    var tail := entries[1..];
    var i, j :| 0 <= i <= j < |tail| && tail[i].name == p[0] && tail[j].name == q[0]
                && (i == j ==> |q| > 1 && tail[i].node.Directory?
                               && (|p| == 1 || Earlier(tail[i].node.entries, p[1..], q[1..])));
    assert entries[i + 1] == tail[i] && entries[j + 1] == tail[j];
  }

  lemma {:induction false} EarlierInHead(entries: seq<Entry>, p: Path, q: Path)
    requires |entries| > 0 && entries[0].node.Directory? && |p| > 0 && |q| > 1
    requires p[0] == entries[0].name && q[0] == entries[0].name
    requires |p| == 1 || Earlier(entries[0].node.entries, p[1..], q[1..])
    ensures Earlier(entries, p, q)
  {
  }

  lemma {:induction false} EarlierAcross(entries: seq<Entry>, p: Path, q: Path, j: nat)
    requires |p| > 0 && |q| > 0 && 0 < j < |entries| && entries[0].name == p[0] && entries[j].name == q[0]
    ensures Earlier(entries, p, q)
  {
  }

  /** Where a visit lies, seen from the directory that is being walked. */
  lemma {:induction false} VisitStarts(dir: Path, entries: seq<Entry>, v: Visit) returns (j: nat)
    requires v in Pruned(dir, entries)
    ensures dir < v.path && j < |entries| && v.path[|dir|] == entries[j].name
  {
    hide Ignored;
    VisitsLieBelow(dir, entries);
    var q := v.path[|dir|..];
    assert dir + q == v.path;
    PrunedVisitsTheReachable(dir, entries, q, v.entry);
    j :| 0 <= j < |entries| && ReachesVia(entries[j], q, v.entry);
  }

  /** The walk is a pre-order: no visit comes twice, a directory comes before what is in it, and entries
      come in the order of their directory. */
  lemma {:induction false} PrunedIsPreOrder(dir: Path, entries: seq<Entry>, a: nat, b: nat)
    requires a < b < |Pruned(dir, entries)|
    ensures var visits := Pruned(dir, entries);
            && dir < visits[a].path && dir < visits[b].path
            && Earlier(entries, visits[a].path[|dir|..], visits[b].path[|dir|..])
    decreases entries
  {
    hide Ignored, Earlier, Reaches;
    var visits, head := Pruned(dir, entries), entries[0];
    var first, tail := PrunedEntry(dir, head), Pruned(dir, entries[1..]);
    var here := dir + [head.name];
    assert visits == first + tail;
    VisitsLieBelow(dir, entries);
    var p, q := visits[a].path[|dir|..], visits[b].path[|dir|..];
    assert visits[a] in visits && visits[b] in visits;
    if a >= |first| {
      PrunedIsPreOrder(dir, entries[1..], a - |first|, b - |first|);
      EarlierInTail(entries, p, q);
    } else {
      HeadVisit(dir, head, a);
      if b >= |first| {
        assert visits[b] == tail[b - |first|];
        var j := VisitStarts(dir, entries[1..], visits[b]);
        EarlierAcross(entries, p, q, j + 1);
      } else {
        HeadVisit(dir, head, b);
        var below := Below(dir, head);
        assert first == [Visit(here, head)] + below;
        if a > 0 {
          PrunedIsPreOrder(here, head.node.entries, a - 1, b - 1);
          assert p[1..] == visits[a].path[|here|..];
          assert q[1..] == visits[b].path[|here|..];
        }
        EarlierInHead(entries, p, q);
      }
    }
  }

  lemma {:induction false} HeadVisit(dir: Path, head: Entry, a: nat)
    requires a < |PrunedEntry(dir, head)|
    ensures var v, here := PrunedEntry(dir, head)[a], dir + [head.name];
            && here <= v.path && v.path[|dir|] == head.name
            && (a == 0 ==> v.path == here)
            && (a > 0 ==> head.node.Directory? && here < v.path)
  {
    hide Ignored, Pruned;
    var v, here := PrunedEntry(dir, head)[a], dir + [head.name];
    if a > 0 {
      assert v in Below(dir, head);
      VisitsLieBelow(here, head.node.entries);
    }
    assert here[|dir|] == head.name;
  }

  function Size(entries: seq<Entry>): nat
    decreases entries, 1
  {
    if |entries| == 0 then 0 else EntrySize(entries[0]) + Size(entries[1..])
  }

  function EntrySize(entry: Entry): (n: nat)
    ensures n > 0
    decreases entry, 0
  {
    1 + if entry.node.Directory? then Size(entry.node.entries) else 0
  }

  // ---------- the recursive iterator ----------

  /** An open directory: its path and the entries it has still to deliver. */
  datatype Frame = Frame(dir: Path, rest: seq<Entry>)

  /** The visits that the open directories have still to deliver, innermost directory last in `frames`. */
  function Work(frames: seq<Frame>): seq<Visit> {
    if |frames| == 0 then [] else
    var top := frames[|frames| - 1];
    Pruned(top.dir, top.rest) + Work(frames[..|frames| - 1])
  }

  function Effort(frames: seq<Frame>): nat {
    if |frames| == 0 then 0 else Size(frames[|frames| - 1].rest) + Effort(frames[..|frames| - 1])
  }

  /** What an iterator that stands on `current` has still to deliver to a client that prunes. */
  function AheadOf(current: Option<Visit>, frames: seq<Frame>): seq<Visit> {
    match current
    case None => []
    case Some(v) => (if Ignored(v.entry) then [] else [v] + BelowVisit(v)) + Work(frames)
  }

  function BelowVisit(v: Visit): seq<Visit> {
    if v.entry.node.Directory? then Pruned(v.path, v.entry.node.entries) else []
  }

  function EffortAhead(current: Option<Visit>, frames: seq<Frame>): nat {
    if current.None? then 0 else EntrySize(current.value.entry) + Effort(frames)
  }

  lemma {:induction false} WorkOnTop(frames: seq<Frame>, top: Frame)
    ensures Work(frames + [top]) == Pruned(top.dir, top.rest) + Work(frames)
    ensures Effort(frames + [top]) == Size(top.rest) + Effort(frames)
  {
    assert (frames + [top])[..|frames|] == frames;
  }

  lemma {:induction false} PopEmpty(frames: seq<Frame>)
    requires |frames| > 0 && |frames[|frames| - 1].rest| == 0
    ensures var lower := frames[..|frames| - 1];
            Work(lower) == Work(frames) && Effort(lower) == Effort(frames)
  {
    hide Ignored;
  }

  /** Delivering the next entry of the innermost directory. */
  lemma {:induction false} DeliverNext(frames: seq<Frame>)
    requires |frames| > 0 && |frames[|frames| - 1].rest| > 0
    ensures var top := frames[|frames| - 1];
            var entry := top.rest[0];
            var current, left := Some(Visit(top.dir + [entry.name], entry)),
                                 frames[..|frames| - 1] + [Frame(top.dir, top.rest[1..])];
            AheadOf(current, left) == Work(frames) && EffortAhead(current, left) == Effort(frames)
  {
    hide Ignored;
    var top := frames[|frames| - 1];
    var lower := frames[..|frames| - 1];
    var entry := top.rest[0];
    WorkOnTop(lower, Frame(top.dir, top.rest[1..]));
    assert BelowVisit(Visit(top.dir + [entry.name], entry)) == Below(top.dir, entry);
    assert Work(frames) == Pruned(top.dir, top.rest) + Work(lower);
    assert Effort(frames) == Size(top.rest) + Effort(lower);
    Associative(PrunedEntry(top.dir, top.rest[0]), Pruned(top.dir, top.rest[1..]), Work(lower));
  }

  /** `std::filesystem::recursive_directory_iterator`. */
  class RecursiveIterator {
    var frames: seq<Frame>
    var current: Option<Visit>
    var recursionPending: bool

    ghost function Ahead(): seq<Visit>
      reads this
    {
      AheadOf(current, frames)
    }

    ghost function Measure(): nat
      reads this
    {
      EffortAhead(current, frames)
    }

    constructor (entries: seq<Entry>)
      ensures Ahead() == Pruned([], entries) && recursionPending
    {
      frames := [Frame([], entries)];
      current := None;
      recursionPending := true;
      new;
      assert [] + [Frame([], entries)] == frames;
      WorkOnTop([], Frame([], entries));
      Advance();
    }

    /** Move to the next entry of the innermost open directory, closing those that are exhausted. */
    method Advance()
      modifies this
      ensures Ahead() == old(Work(frames)) && recursionPending == old(recursionPending)
      ensures Measure() <= old(Effort(frames))
    {
      hide Work, Effort, AheadOf, EffortAhead;
      while |frames| > 0
        invariant Work(frames) == old(Work(frames)) && Effort(frames) == old(Effort(frames))
        invariant recursionPending == old(recursionPending)
        decreases |frames|
      {
        var top := frames[|frames| - 1];
        var lower := frames[..|frames| - 1];
        if |top.rest| > 0 {
          DeliverNext(frames);
          var entry := top.rest[0];
          current := Some(Visit(top.dir + [entry.name], entry));
          frames := lower + [Frame(top.dir, top.rest[1..])];
          return;
        }
        PopEmpty(frames);
        frames := lower;
      }
      current := None;
      NothingAhead(frames);
    }

    method DisableRecursionPending()
      modifies this
      ensures !recursionPending && current == old(current) && frames == old(frames)
    {
      recursionPending := false;
    }

    /** `++it`: descend into the current directory unless that was disabled, and move on. */
    method Increment()
      requires current.Some?
      modifies this
      ensures recursionPending
      ensures Ahead() == (if old(recursionPending) then BelowVisit(old(current).value) else []) + old(Work(frames))
      ensures Measure() < old(Measure())
    {
      hide Work, Effort, Pruned, AheadOf;
      var visit := current.value;
      if recursionPending && visit.entry.node.Directory? {
        WorkOnTop(frames, Frame(visit.path, visit.entry.node.entries));
        frames := frames + [Frame(visit.path, visit.entry.node.entries)];
      } else {
        assert [] + Work(frames) == Work(frames);
      }
      recursionPending := true;
      Advance();
    }
  }

  lemma {:induction false} NothingAhead(frames: seq<Frame>)
    requires |frames| == 0
    ensures AheadOf(None, frames) == Work(frames) && EffortAhead(None, frames) == 0
  {
  }

  // ---------- where an entry lies ----------

  /** The configured root and the directory or file that is searched, both canonical. */
  datatype Place = Place(root: Path, base: Path)

  /** `weakly_canonical` of a visited entry's path: a link is followed, unless it leads to nothing. */
  function Location(base: Path, v: Visit): Path {
    match v.entry.node
    case Symlink(target) => if target.ToNothing? then base + v.path else target.at
    case _ => base + v.path
  }

  function ReportedPath(place: Place, v: Visit): Text {
    Paths.RelativeString(place.root, Location(place.base, v))
  }

  lemma {:induction false} SplitDot()
    ensures Split(Paths.Dot(), Paths.Separator()) == [Paths.Dot()]
  {
    assert ShareNoByte(Paths.Separator(), Paths.Dot());
    SplitOfJoin([Paths.Dot()], Paths.Separator());
  }

  /** The recursive search holds the pattern against an entry's own path exactly when the entry lies
      there: for a link that leads somewhere it is the path of what the link leads to. */
  lemma {:induction false} OwnPathExactly(base: Path, v: Visit)
    requires |v.path| > 0 && Paths.AllNames(v.path) && Paths.AllNames(base) && Paths.AllNames(Location(base, v))
    ensures Paths.RelativeString(base, Location(base, v)) == Join(v.path, Paths.Separator())
       <==> Location(base, v) == base + v.path
  {
    hide Join, Split, Location;
    var at := Location(base, v);
    var parts := Paths.LexicallyRelative(at, base);
    if at == base + v.path {
      Paths.RelativeBelow(base, at);
    }
    Paths.NamesAreComponents(v.path);
    Paths.ComponentsAvoidSeparator(v.path);
    SplitOfJoin(v.path, Paths.Separator());
    if |parts| == 0 {
      Paths.ParseDot();
      SplitDot();
    } else {
      forall i | 0 <= i < |parts| ensures ShareNoByte(Paths.Separator(), parts[i]) {
        assert i >= |base| - Paths.CommonLength(at, base) ==> parts[i] in at;
      }
      SplitOfJoin(parts, Paths.Separator());
      if parts == v.path {
        assert parts[0] != Paths.DotDot();
        assert at == base + v.path;
      }
    }
  }

  /** The other case: a link `b` to the file `x` beside it is searched, and reported, as `x`. */
  lemma {:induction false} LinkIsSearchedAsTarget(base: Path, b: Text, x: Text, file: File)
    requires Paths.IsName(x)
    ensures var v := Visit([b], Entry(b, Symlink(ToFile(base + [x], file))));
            Paths.RelativeString(base, Location(base, v)) == x
  {
    Paths.RelativeBelow(base, base + [x]);
  }

  // ---------- searching a tree ----------

  /** The entry list of the directory `dir`: every name in it once, in any order. */
  ghost predicate Mirrors(fsys: Paths.FileSystem, dir: Path, entries: seq<Entry>)
    decreases entries, 0
  {
    && (forall i :: 0 <= i < |entries| ==> MirrorsNode(fsys, dir + [entries[i].name], entries[i].node))
    && (forall i, j :: 0 <= i < j < |entries| ==> entries[i].name != entries[j].name)
    && (forall q :: q in fsys.tree && |q| > 0 && FileTree.Parent(q) == dir ==>
         exists i :: 0 <= i < |entries| && dir + [entries[i].name] == q)
  }

  /** What a search sees of the node at `p`. A link is followed as the operating system follows it; one that
      needs more links than allowed makes the search fail, and mirrors nothing. */
  ghost predicate MirrorsNode(fsys: Paths.FileSystem, p: Path, node: Node)
    decreases node, 1
  {
    if |p| == 0 then node.Directory? && Mirrors(fsys, p, node.entries) else
    && p in fsys.tree
    && match fsys.tree[p]
       case FileNode(content) => node.RegularFile? && node.file.text == content
       case DirNode => node.Directory? && Mirrors(fsys, p, node.entries)
       case LinkNode(_) => node.Symlink? && MirrorsTarget(fsys, p, node.target)
  }

  ghost predicate MirrorsTarget(fsys: Paths.FileSystem, p: Path, target: Target) {
    match Paths.Status(fsys, p)
    case Found(at, _) =>
      if FileTree.IsDir(fsys.tree, at) then target == ToDirectory(at)
      else at in fsys.tree && fsys.tree[at].FileNode? && target.ToFile? && target.at == at
           && target.file.text == fsys.tree[at].content
    case Missing => target == ToNothing
    case TooManyLinks => false
  }

  /** The name and the kind of a directory, links followed, that a search passes over. */
  predicate IgnoredAt(fsys: Paths.FileSystem, p: Path)
    requires |p| > 0
  {
    var name, there := p[|p| - 1], Paths.Status(fsys, p);
    && there.Found? && FileTree.IsDir(fsys.tree, there.at)
    && (name == Ascii(".git") || name == Ascii(".hg") || name == Ascii(".svn"))
  }

  lemma {:induction false} IgnoredByStatus(fsys: Paths.FileSystem, dir: Path, x: Entry)
    requires Paths.WellFormed(fsys.tree) && MirrorsNode(fsys, dir + [x.name], x.node)
    ensures Ignored(x) <==> IgnoredAt(fsys, dir + [x.name])
  {
    hide Ascii, Paths.Follow, Paths.AllNames, Mirrors;
    var p := dir + [x.name];
    if !fsys.tree[p].LinkNode? {
      Paths.RealLeadsToItself(fsys.tree, p, fsys.maxLinks);
    }
  }

  lemma {:induction false} DirectoryMirrors(fsys: Paths.FileSystem, p: Path, node: Node)
    requires MirrorsNode(fsys, p, node)
    ensures node.Directory? <==> FileTree.IsDir(fsys.tree, p)
    ensures node.Directory? ==> Mirrors(fsys, p, node.entries)
  {
    hide Mirrors, MirrorsTarget;
  }

  lemma {:induction false} EntryMirrors(fsys: Paths.FileSystem, dir: Path, entries: seq<Entry>, x: Entry)
    requires Mirrors(fsys, dir, entries) && x in entries
    ensures MirrorsNode(fsys, dir + [x.name], x.node)
  {
    hide MirrorsNode;
  }

  lemma {:induction false} NodeHasEntry(fsys: Paths.FileSystem, dir: Path, entries: seq<Entry>, name: Text)
      returns (x: Entry)
    requires Mirrors(fsys, dir, entries) && dir + [name] in fsys.tree
    ensures x in entries && x.name == name
  {
    hide MirrorsNode;
    var q := dir + [name];
    assert FileTree.Parent(q) == dir;
    var i :| 0 <= i < |entries| && dir + [entries[i].name] == q;
    x := entries[i];
    assert (dir + [x.name])[|dir|] == q[|dir|];
  }

  lemma {:induction false} ReachesStep(entries: seq<Entry>, q: Path, e: Entry) returns (x: Entry)
    requires Reaches(entries, q, e)
    ensures x in entries && |q| > 0 && q[0] == x.name && !Ignored(x)
    ensures if |q| == 1 then e == x else x.node.Directory? && Reaches(x.node.entries, q[1..], e)
  {
    hide Ignored;
    var i :| 0 <= i < |entries| && ReachesVia(entries[i], q, e);
    x := entries[i];
  }

  lemma {:induction false} ReachesFurther(entries: seq<Entry>, q: Path, e: Entry, x: Entry)
    requires x in entries && |q| > 0 && q[0] == x.name && !Ignored(x)
    requires if |q| == 1 then e == x else x.node.Directory? && Reaches(x.node.entries, q[1..], e)
    ensures Reaches(entries, q, e)
  {
    hide Ignored;
    assert ReachesVia(x, q, e);
  }

  /** Nothing on the way from `dir` to `dir + q` is ignored. */
  ghost predicate NothingIgnored(fsys: Paths.FileSystem, dir: Path, q: Path) {
    forall k :: 0 < k <= |q| ==> !IgnoredAt(fsys, dir + q[..k])
  }

  lemma {:induction false} NothingIgnoredStep(fsys: Paths.FileSystem, dir: Path, q: Path)
    requires |q| > 0
    ensures NothingIgnored(fsys, dir, q)
       <==> !IgnoredAt(fsys, dir + [q[0]]) && NothingIgnored(fsys, dir + [q[0]], q[1..])
  {
    hide IgnoredAt;
    var here := dir + [q[0]];
    assert q[..1] == [q[0]];
    if NothingIgnored(fsys, dir, q) {
      forall k | 0 < k <= |q[1..]| ensures !IgnoredAt(fsys, here + q[1..][..k]) {
        assert here + q[1..][..k] == dir + q[..k + 1];
      }
    }
    if !IgnoredAt(fsys, here) && NothingIgnored(fsys, here, q[1..]) {
      forall k | 0 < k <= |q| ensures !IgnoredAt(fsys, dir + q[..k]) {
        if k > 1 { assert here + q[1..][..k - 1] == dir + q[..k]; }
      }
    }
  }

  /** What can be reached below a directory are the nodes of the tree below it, except those that are
      ignored or lie in an ignored directory. */
  lemma {:induction false} ReachedIsInTree(fsys: Paths.FileSystem, dir: Path, entries: seq<Entry>, q: Path, e: Entry)
    requires Paths.WellFormed(fsys.tree) && Mirrors(fsys, dir, entries) && Reaches(entries, q, e)
    ensures |q| > 0 && MirrorsNode(fsys, dir + q, e.node) && NothingIgnored(fsys, dir, q)
    decreases |q|
  {
    hide Ignored, IgnoredAt, Mirrors, MirrorsNode, Reaches, NothingIgnored, Paths.WellFormed;
    var x := ReachesStep(entries, q, e);
    var here := dir + [x.name];
    EntryMirrors(fsys, dir, entries, x);
    IgnoredByStatus(fsys, dir, x);
    NothingIgnoredStep(fsys, dir, q);
    if |q| == 1 {
      assert q == [x.name];
      NothingIgnoredHere(fsys, here, q[1..]);
    } else {
      DirectoryMirrors(fsys, here, x.node);
      ReachedIsInTree(fsys, here, x.node.entries, q[1..], e);
      assert here + q[1..] == dir + q;
    }
  }

  lemma {:induction false} NothingIgnoredHere(fsys: Paths.FileSystem, dir: Path, q: Path)
    requires |q| == 0
    ensures NothingIgnored(fsys, dir, q)
  {
  }

  lemma {:induction false} TreeIsReached(fsys: Paths.FileSystem, dir: Path, entries: seq<Entry>, q: Path)
      returns (e: Entry)
    requires Paths.WellFormed(fsys.tree) && Mirrors(fsys, dir, entries)
    requires |q| > 0 && dir + q in fsys.tree && NothingIgnored(fsys, dir, q)
    ensures Reaches(entries, q, e)
    decreases |q|
  {
    hide Ignored, IgnoredAt, Mirrors, MirrorsNode, Reaches, NothingIgnored, Paths.AllNames;
    var here := dir + [q[0]];
    assert here + q[1..] == dir + q;
    FileTree.AncestorsAreDirs(fsys.tree, here, dir + q);
    var x := NodeHasEntry(fsys, dir, entries, q[0]);
    EntryMirrors(fsys, dir, entries, x);
    IgnoredByStatus(fsys, dir, x);
    NothingIgnoredStep(fsys, dir, q);
    e := x;
    if |q| > 1 {
      assert here != dir + q;
      DirectoryMirrors(fsys, here, x.node);
      e := TreeIsReached(fsys, here, x.node.entries, q[1..]);
    }
    ReachesFurther(entries, q, e, x);
  }

  /** A recursive search of a directory visits exactly the nodes of the tree below it, except those that
      are ignored directories or lie in one. */
  lemma {:induction false} SearchVisitsTheTree(fsys: Paths.FileSystem, base: Path, entries: seq<Entry>, q: Path)
    requires Paths.WellFormed(fsys.tree) && Mirrors(fsys, base, entries)
    ensures (exists e :: Visit(q, e) in Pruned([], entries))
       <==> (|q| > 0 && base + q in fsys.tree && NothingIgnored(fsys, base, q))
  {
    hide Reaches, Pruned, Mirrors, NothingIgnored, Paths.WellFormed;
    assert [] + q == q;
    if e :| Visit(q, e) in Pruned([], entries) {
      PrunedVisitsTheReachable([], entries, q, e);
      ReachedIsInTree(fsys, base, entries, q, e);
    }
    if |q| > 0 && base + q in fsys.tree && NothingIgnored(fsys, base, q) {
      var e := TreeIsReached(fsys, base, entries, q);
      PrunedVisitsTheReachable([], entries, q, e);
    }
  }

  /** The location of a node is its canonical path. */
  lemma {:induction false} LocationIsCanonical(fsys: Paths.FileSystem, base: Path, v: Visit)
    requires Paths.WellFormed(fsys.tree) && MirrorsNode(fsys, base + v.path, v.entry.node)
    ensures Paths.WeaklyCanonical(fsys, base + v.path) == Ok(Location(base, v))
    ensures Paths.AllNames(Location(base, v))
    ensures Paths.WeaklyCanonical(fsys, Location(base, v)) == Ok(Location(base, v))
  {
    hide Paths.Follow, Paths.AllNames, Paths.Normalize, Mirrors;
    var p := base + v.path;
    if Paths.IsReal(fsys.tree, p) {
      Paths.RealLeadsToItself(fsys.tree, p, fsys.maxLinks);
    } else {
      if Paths.Status(fsys, p).Missing? {
        DanglingIsCanonical(fsys, p);
      }
      Paths.CanonicalIsStable(fsys, p);
    }
  }

  lemma {:induction false} DanglingIsCanonical(fsys: Paths.FileSystem, p: Path)
    requires Paths.WellFormed(fsys.tree) && FileTree.IsLink(fsys.tree, p) && Paths.Status(fsys, p).Missing?
    ensures Paths.WeaklyCanonical(fsys, p) == Ok(p)
  {
    hide Paths.Follow, Paths.Normalize, Paths.IsName;
    var dir, name := FileTree.Parent(p), p[|p| - 1];
    assert p == dir + [name];
    Paths.RealLeadsToItself(fsys.tree, dir, fsys.maxLinks);
    Paths.FollowAppend(fsys.tree, [], dir, [name], fsys.maxLinks);
    Paths.CanonicalAgain(fsys, dir, [name]);
  }

  // ---------- fs_find ----------

  datatype Kind = AnyKind | FileKind | DirectoryKind | SymlinkKind

  /** The entry's own type, links not followed. */
  predicate KindMatches(kind: Kind, node: Node) {
    match kind
    case AnyKind => true
    case FileKind => node.RegularFile?
    case DirectoryKind => node.Directory?
    case SymlinkKind => node.Symlink?
  }

  /** What a pattern is held against: the recursive search takes paths relative to the searched
      directory, the other forms take names. */
  datatype Naming = ByRelativePath | ByFileName

  datatype Query = Query(place: Place, naming: Naming, kind: Kind, matcher: Matcher)

  /** The candidate text. */
  function Candidate(q: Query, v: Visit): Text {
    match q.naming
    case ByRelativePath => Paths.RelativeString(q.place.base, Location(q.place.base, v))
    case ByFileName => v.entry.name
  }

  predicate Selects(q: Query, v: Visit) {
    KindMatches(q.kind, v.entry.node) && TextMatches(Candidate(q, v), q.matcher)
  }

  /** `make_stat_object`: the reported path; type, size and the link flag are those of the node itself. */
  datatype StatObject = StatObject(path: Text, node: Node)

  function Stat(q: Query, v: Visit): StatObject {
    StatObject(ReportedPath(q.place, v), v.entry.node)
  }

  /** What one visit adds to the matches. */
  function Pushed(q: Query, v: Visit): seq<StatObject> {
    if Selects(q, v) then [Stat(q, v)] else []
  }

  function Selected(q: Query, visits: seq<Visit>): seq<StatObject> {
    if |visits| == 0 then [] else Pushed(q, visits[0]) + Selected(q, visits[1..])
  }

  lemma {:induction false} SelectedHead(q: Query, v: Visit, more: seq<Visit>)
    ensures Selected(q, [v] + more) == Pushed(q, v) + Selected(q, more)
  {
    assert ([v] + more)[1..] == more;
  }

  datatype FindResult = FindResult(matches: seq<StatObject>, truncated: bool)

  /** The first `limit` of all selected visits, with the flag that says whether there are more. */
  function Limited(all: seq<StatObject>, limit: nat): FindResult {
    FindResult(Take(all, limit), |all| > limit)
  }

  /** `try_push_match`: false asks the caller to stop. */
  method TryPushMatch(q: Query, v: Visit, limit: nat, matches: seq<StatObject>, truncated: bool)
      returns (goOn: bool, matches': seq<StatObject>, truncated': bool)
    requires |matches| <= limit && !truncated
    ensures goOn ==> matches' == matches + Pushed(q, v) && |matches'| <= limit && !truncated'
    ensures !goOn ==> matches' == matches && truncated' && |matches| == limit && Selects(q, v)
  {
    hide TextMatches, Candidate, ReportedPath;
    if !KindMatches(q.kind, v.entry.node) || !TextMatches(Candidate(q, v), q.matcher) {
      return true, matches, truncated;
    }
    if |matches| >= limit {
      return false, matches, true;
    }
    return true, matches + [Stat(q, v)], truncated;
  }

  /** What a search has still to find when the visits `ahead` are unseen. */
  ghost predicate Searching(q: Query, all: seq<Visit>, matches: seq<StatObject>, ahead: seq<Visit>) {
    matches + Selected(q, ahead) == Selected(q, all)
  }

  lemma {:induction false} SearchStarts(q: Query, all: seq<Visit>)
    ensures Searching(q, all, [], all)
  {
  }

  lemma {:induction false} SearchStep(q: Query, all: seq<Visit>, matches: seq<StatObject>, v: Visit, more: seq<Visit>)
    requires Searching(q, all, matches, [v] + more)
    ensures Searching(q, all, matches + Pushed(q, v), more)
  {
    SelectedHead(q, v, more);
    Associative(matches, Pushed(q, v), Selected(q, more));
  }

  lemma {:induction false} SearchEnds(q: Query, all: seq<Visit>, matches: seq<StatObject>, limit: nat)
    requires Searching(q, all, matches, []) && |matches| <= limit
    ensures Limited(Selected(q, all), limit) == FindResult(matches, false)
  {
    assert matches + [] == matches;
  }

  lemma {:induction false} SearchStops(q: Query, all: seq<Visit>, matches: seq<StatObject>, v: Visit, more: seq<Visit>,
                                       limit: nat)
    requires Searching(q, all, matches, [v] + more) && |matches| == limit && Selects(q, v)
    ensures Limited(Selected(q, all), limit) == FindResult(matches, true)
  {
    SelectedHead(q, v, more);
  }

  /** The recursive search of a directory. */
  method FindRecursive(entries: seq<Entry>, q: Query, limit: nat) returns (r: FindResult)
    ensures r == Limited(Selected(q, Pruned([], entries)), limit)
  {
    hide Searching, Selects, Selected, Pruned, Work, EffortAhead, Ignored, Limited;
    ghost var all := Pruned([], entries);
    var matches: seq<StatObject> := [];
    var truncated := false;
    SearchStarts(q, all);
    var it := new RecursiveIterator(entries);
    while it.current.Some?
      invariant fresh(it) && it.recursionPending
      invariant Searching(q, all, matches, it.Ahead()) && |matches| <= limit && !truncated
      decreases it.Measure()
    {
      var visit := it.current.value;
      if Ignored(visit.entry) {
        it.DisableRecursionPending();
        it.Increment();
        continue;
      }
      ghost var more := BelowVisit(visit) + Work(it.frames);
      Associative([visit], BelowVisit(visit), Work(it.frames));
      ghost var before := matches;
      var goOn;
      goOn, matches, truncated := TryPushMatch(q, visit, limit, matches, truncated);
      if !goOn {
        SearchStops(q, all, before, visit, more, limit);
        return FindResult(matches, truncated);
      }
      SearchStep(q, all, before, visit, more);
      it.Increment();
    }
    SearchEnds(q, all, matches, limit);
    return FindResult(matches, truncated);
  }

  /** The entries of one directory, by name, ignored ones included. */
  function Flat(entries: seq<Entry>): (visits: seq<Visit>)
    ensures |visits| == |entries|
  {
    seq(|entries|, i requires 0 <= i < |entries| => Visit([entries[i].name], entries[i]))
  }

  method FindFlat(entries: seq<Entry>, q: Query, limit: nat) returns (r: FindResult)
    ensures r == Limited(Selected(q, Flat(entries)), limit)
  {
    hide Searching, Selects, Selected, Limited;
    ghost var all := Flat(entries);
    var matches: seq<StatObject> := [];
    var truncated := false;
    SearchStarts(q, all);
    assert all[0..] == all;
    for i := 0 to |entries|
      invariant Searching(q, all, matches, all[i..]) && |matches| <= limit && !truncated
    {
      var visit := Visit([entries[i].name], entries[i]);
      assert all[i..] == [visit] + all[i + 1..];
      ghost var before := matches;
      var goOn;
      goOn, matches, truncated := TryPushMatch(q, visit, limit, matches, truncated);
      if !goOn {
        SearchStops(q, all, before, visit, all[i + 1..], limit);
        return FindResult(matches, truncated);
      }
      SearchStep(q, all, before, visit, all[i + 1..]);
    }
    assert all[|entries|..] == [];
    SearchEnds(q, all, matches, limit);
    return FindResult(matches, truncated);
  }

  function FileName(path: Path): Text {
    if |path| == 0 then [] else path[|path| - 1]
  }

  /** The visits that a search of the node at `base` considers. */
  function Candidates(base: Path, node: Node, recursive: bool): seq<Visit> {
    match node
    case Directory(entries) => if recursive then Pruned([], entries) else Flat(entries)
    case _ => [Visit([], Entry(FileName(base), node))]
  }

  function QueryFor(place: Place, node: Node, recursive: bool, kind: Kind, matcher: Matcher): Query {
    Query(place, if node.Directory? && recursive then ByRelativePath else ByFileName, kind, matcher)
  }

  function FindUpTo(place: Place, node: Node, recursive: bool, kind: Kind, matcher: Matcher, limit: nat): FindResult {
    var q := QueryFor(place, node, recursive, kind, matcher);
    Limited(Selected(q, Candidates(place.base, node, recursive)), limit)
  }

  method CallFsFind(place: Place, node: Node, recursive: bool, kind: Kind, matcher: Matcher, limit: nat)
      returns (r: FindResult)
    ensures r == FindUpTo(place, node, recursive, kind, matcher, limit)
  {
    hide Searching, Selected, Selects, Limited;
    var q := QueryFor(place, node, recursive, kind, matcher);
    if node.Directory? {
      if recursive {
        r := FindRecursive(node.entries, q, limit);
      } else {
        r := FindFlat(node.entries, q, limit);
      }
    } else {
      var visit := Visit([], Entry(FileName(place.base), node));
      ghost var all := [visit];
      SearchStarts(q, all);
      assert all == [visit] + [];
      SearchStep(q, all, [], visit, []);
      var goOn, matches, truncated := TryPushMatch(q, visit, limit, [], false);
      if goOn {
        SearchEnds(q, all, matches, limit);
      } else {
        SearchStops(q, all, [], visit, [], limit);
      }
      r := FindResult(matches, truncated);
    }
  }

  lemma {:induction false} SelectedAt(q: Query, visits: seq<Visit>, i: nat)
    requires i < |Selected(q, visits)|
    ensures exists v :: v in visits && Selects(q, v) && Selected(q, visits)[i] == Stat(q, v)
  {
    hide Selects, Stat;
    if Selects(q, visits[0]) && i == 0 {
      assert Selected(q, visits)[i] == Stat(q, visits[0]);
    } else {
      var k := |Pushed(q, visits[0])|;
      SelectedAt(q, visits[1..], i - k);
      var v :| v in visits[1..] && Selects(q, v) && Selected(q, visits[1..])[i - k] == Stat(q, v);
      assert v in visits;
    }
  }

  lemma {:induction false} CandidatesMirror(fsys: Paths.FileSystem, base: Path, node: Node, recursive: bool, v: Visit)
    requires Paths.WellFormed(fsys.tree) && MirrorsNode(fsys, base, node) && v in Candidates(base, node, recursive)
    ensures MirrorsNode(fsys, base + v.path, v.entry.node)
  {
    hide Reaches, Pruned, MirrorsTarget, Paths.WellFormed, FileName;
    if node.Directory? && recursive {
      assert [] + v.path == v.path;
      PrunedVisitsTheReachable([], node.entries, v.path, v.entry);
      ReachedIsInTree(fsys, base, node.entries, v.path, v.entry);
    } else if node.Directory? {
      var i :| 0 <= i < |node.entries| && v == Flat(node.entries)[i];
      assert v.path == [node.entries[i].name];
    } else {
      assert base + v.path == base;
    }
  }

  /** A reported path sent back: it resolves to where the matching entry really lies if that is under the
      root, and is refused exactly if it is not, as for a link that leads out of the root. */
  lemma {:induction false} ReportedPathsResolve(fsys: Paths.FileSystem, place: Place, node: Node, recursive: bool,
                                                kind: Kind, matcher: Matcher, i: nat)
    requires Paths.WellFormed(fsys.tree) && Paths.AllNames(place.root) && MirrorsNode(fsys, place.base, node)
    requires i < |Selected(QueryFor(place, node, recursive, kind, matcher), Candidates(place.base, node, recursive))|
    ensures var q, visits := QueryFor(place, node, recursive, kind, matcher), Candidates(place.base, node, recursive);
            exists v :: v in visits && Selects(q, v) && Selected(q, visits)[i] == Stat(q, v)
                        && SentBack(fsys, place, v)
                           == if place.root <= Location(place.base, v) then Ok(Location(place.base, v))
                              else Err(Paths.EscapesRoot)
  {
    hide Selects, Selected, Location, Paths.AllNames, Paths.WeaklyCanonical, Paths.Resolve, Paths.RelativeString;
    hide Paths.WellFormed, Candidates;
    var q, visits := QueryFor(place, node, recursive, kind, matcher), Candidates(place.base, node, recursive);
    SelectedAt(q, visits, i);
    var v :| v in visits && Selects(q, v) && Selected(q, visits)[i] == Stat(q, v);
    CandidatesMirror(fsys, place.base, node, recursive, v);
    LocationIsCanonical(fsys, place.base, v);
    Paths.ResolveRelativeString(fsys, place.root, Location(place.base, v), false);
  }

  /** What resolving the reported path of a visit gives. */
  function SentBack(fsys: Paths.FileSystem, place: Place, v: Visit): Result<Path, Paths.ResolveError> {
    Paths.Resolve(fsys, place.root, ReportedPath(place, v), false)
  }

  // ---------- what fs_find means ----------

  /** What makes the entry `e`, found under `path`, a match that is reported as `o`. */
  ghost predicate IsMatch(place: Place, node: Node, recursive: bool, kind: Kind, matcher: Matcher,
                          path: Path, e: Entry, o: StatObject)
  {
    // it is in the tree, directly in the directory, or what is searched itself
    && (if !node.Directory? then
          path == [] && e == Entry(if |place.base| == 0 then [] else place.base[|place.base| - 1], node)
        else if recursive then Reaches(node.entries, path, e)
        else e in node.entries && path == [e.name])
    // it is of the kind that is looked for, itself and not what it links to
    && (kind == FileKind ==> e.node.RegularFile?)
    && (kind == DirectoryKind ==> e.node.Directory?)
    && (kind == SymlinkKind ==> e.node.Symlink?)
    // the pattern is in the path of its location, or in its name
    && var at := Location(place.base, Visit(path, e));
    && Accepts(if node.Directory? && recursive then Paths.RelativeString(place.base, at) else e.name, matcher)
    // it is reported under the root-relative path of its location
    && o == StatObject(Paths.RelativeString(place.root, at), e.node)
  }

  /** `index` lists the positions at which a list of visits has selected ones. */
  ghost predicate ArePositions(q: Query, visits: seq<Visit>, index: seq<nat>) {
    && |index| == |Selected(q, visits)|
    && (forall i :: 0 <= i < |index| ==>
         index[i] < |visits| && Selects(q, visits[index[i]]) && Selected(q, visits)[i] == Stat(q, visits[index[i]]))
    && (forall i, j :: 0 <= i < j < |index| ==> index[i] < index[j])
    && (forall k :: 0 <= k < |visits| && Selects(q, visits[k]) ==> k in index)
  }

  function Shifted(index: seq<nat>): (r: seq<nat>)
    ensures |r| == |index| && forall i :: 0 <= i < |r| ==> r[i] == index[i] + 1
  {
    seq(|index|, i requires 0 <= i < |index| => index[i] + 1)
  }

  lemma {:induction false} PositionsFurther(q: Query, visits: seq<Visit>, later: seq<nat>)
    requires |visits| > 0 && ArePositions(q, visits[1..], later)
    ensures ArePositions(q, visits, (if Selects(q, visits[0]) then [0] else []) + Shifted(later))
  {
    hide Selects, Stat, Selected, Shifted;
    var first: seq<nat> := if Selects(q, visits[0]) then [0] else [];
    var index := first + Shifted(later);
    SelectedUnfold(q, visits);
    assert |index| == |Selected(q, visits)|;
    forall i | 0 <= i < |index|
      ensures index[i] < |visits| && Selects(q, visits[index[i]])
      ensures Selected(q, visits)[i] == Stat(q, visits[index[i]])
    {
      if i >= |first| {
        PositionHolds(q, visits, later, i - |first|);
      }
    }
    forall k | 0 <= k < |visits| && Selects(q, visits[k]) ensures k in index {
      assert k > 0 ==> visits[1..][k - 1] == visits[k];
      PositionKnown(q, visits, later, first, k);
    }
  }

  lemma {:induction false} PositionHolds(q: Query, visits: seq<Visit>, later: seq<nat>, i: nat)
    requires |visits| > 0 && ArePositions(q, visits[1..], later) && i < |later|
    ensures later[i] + 1 < |visits| && Selects(q, visits[later[i] + 1])
    ensures Selected(q, visits[1..])[i] == Stat(q, visits[later[i] + 1])
  {
    hide Selects, Stat, Selected;
    assert visits[1..][later[i]] == visits[later[i] + 1];
  }

  lemma {:induction false} PositionKnown(q: Query, visits: seq<Visit>, later: seq<nat>, first: seq<nat>, k: nat)
    requires k < |visits| && (k == 0 ==> 0 in first)
    requires k > 0 ==> k - 1 in later
    ensures k in first + Shifted(later)
  {
    if k > 0 {
      var i :| 0 <= i < |later| && later[i] == k - 1;
      assert (first + Shifted(later))[|first| + i] == k;
    }
  }

  lemma {:induction false} SelectedUnfold(q: Query, visits: seq<Visit>)
    requires |visits| > 0
    ensures Selected(q, visits)
         == (if Selects(q, visits[0]) then [Stat(q, visits[0])] else []) + Selected(q, visits[1..])
  {
    hide Selects, Stat;
  }

  lemma {:induction false} SelectedPositions(q: Query, visits: seq<Visit>) returns (index: seq<nat>)
    ensures ArePositions(q, visits, index)
  {
    hide Selects, Stat;
    index := [];
    if |visits| > 0 {
      hide ArePositions;
      var later := SelectedPositions(q, visits[1..]);
      PositionsFurther(q, visits, later);
      index := (if Selects(q, visits[0]) then [0] else []) + Shifted(later);
    }
  }

  /** Being selected among the candidates is being a match. */
  lemma {:induction false} SelectedIsMatch(place: Place, node: Node, recursive: bool, kind: Kind, matcher: Matcher,
                                           v: Visit, o: StatObject)
    ensures var q := QueryFor(place, node, recursive, kind, matcher);
            v in Candidates(place.base, node, recursive) && Selects(q, v) && o == Stat(q, v)
            <==> IsMatch(place, node, recursive, kind, matcher, v.path, v.entry, o)
  {
    hide TextMatches, Accepts, Location, Reaches, Pruned, Paths.RelativeString;
    var q := QueryFor(place, node, recursive, kind, matcher);
    MatchingIsAccepting(Candidate(q, v), matcher);
    IsCandidate(place.base, node, recursive, v);
  }

  lemma {:induction false} IsCandidate(base: Path, node: Node, recursive: bool, v: Visit)
    ensures v in Candidates(base, node, recursive)
       <==> (if !node.Directory? then
               v.path == [] && v.entry == Entry(if |base| == 0 then [] else base[|base| - 1], node)
             else if recursive then Reaches(node.entries, v.path, v.entry)
             else v.entry in node.entries && v.path == [v.entry.name])
  {
    hide Reaches, Pruned;
    if node.Directory? {
      if recursive {
        assert [] + v.path == v.path;
        PrunedVisitsTheReachable([], node.entries, v.path, v.entry);
      } else if v.entry in node.entries {
        var i :| 0 <= i < |node.entries| && node.entries[i] == v.entry;
        assert Flat(node.entries)[i] == Visit([v.entry.name], v.entry);
      }
    }
  }

  ghost predicate Precedes(node: Node, p: Path, q: Path) {
    node.Directory? && Earlier(node.entries, p, q)
  }

  lemma {:induction false} CandidatesAreOrdered(base: Path, node: Node, recursive: bool, a: nat, b: nat)
    requires a < b < |Candidates(base, node, recursive)|
    ensures var visits := Candidates(base, node, recursive);
            Precedes(node, visits[a].path, visits[b].path)
  {
    hide Pruned, Earlier;
    var visits := Candidates(base, node, recursive);
    assert node.Directory?;
    if recursive {
      PrunedIsPreOrder([], node.entries, a, b);
      assert visits[a].path[0..] == visits[a].path && visits[b].path[0..] == visits[b].path;
    } else {
      FlatIsOrdered(node.entries, a, b);
    }
  }

  lemma {:induction false} FlatIsOrdered(entries: seq<Entry>, a: nat, b: nat)
    requires a < b < |entries|
    ensures Earlier(entries, Flat(entries)[a].path, Flat(entries)[b].path)
  {
  }

  /** What a search returns: matches, each for another entry and in the order of the walk, as many as the
      limit allows. If the result is not truncated it has every match; if it is, it is full, and every
      match that it lacks comes after all that it has. */
  lemma {:induction false} FindMeaning(place: Place, node: Node, recursive: bool, kind: Kind, matcher: Matcher,
                                       limit: nat)
      returns (found: seq<Visit>)
    ensures var r := FindUpTo(place, node, recursive, kind, matcher, limit);
            && |found| == |r.matches| <= limit
            && (r.truncated ==> |r.matches| == limit)
            && (forall i :: 0 <= i < |found| ==>
                 IsMatch(place, node, recursive, kind, matcher, found[i].path, found[i].entry, r.matches[i]))
            && (forall i, j :: 0 <= i < j < |found| ==> Precedes(node, found[i].path, found[j].path))
            && (forall path, e, o :: IsMatch(place, node, recursive, kind, matcher, path, e, o) ==>
                 || Visit(path, e) in found
                 || (r.truncated && forall i :: 0 <= i < |found| ==> Precedes(node, found[i].path, path)))
  {
    hide Selects, Stat, IsMatch, Candidates, Precedes, Selected;
    var q, visits := QueryFor(place, node, recursive, kind, matcher), Candidates(place.base, node, recursive);
    var r := FindUpTo(place, node, recursive, kind, matcher, limit);
    var index := SelectedPositions(q, visits);
    var n := |r.matches|;
    found := seq(n, i requires 0 <= i < n => visits[index[i]]);
    forall i | 0 <= i < n
      ensures IsMatch(place, node, recursive, kind, matcher, found[i].path, found[i].entry, r.matches[i])
    {
      SelectedIsMatch(place, node, recursive, kind, matcher, found[i], r.matches[i]);
    }
    forall i, j | 0 <= i < j < n ensures Precedes(node, found[i].path, found[j].path) {
      CandidatesAreOrdered(place.base, node, recursive, index[i], index[j]);
    }
    forall t | 0 <= t < n ensures visits[index[t]] in found {
      assert found[t] == visits[index[t]];
    }
    forall path, e, o | IsMatch(place, node, recursive, kind, matcher, path, e, o) && Visit(path, e) !in found
      ensures r.truncated
      ensures forall i :: 0 <= i < |found| ==> Precedes(node, found[i].path, path)
    {
      var v := Visit(path, e);
      SelectedIsMatch(place, node, recursive, kind, matcher, v, o);
      var k :| 0 <= k < |visits| && visits[k] == v;
      var t :| 0 <= t < |index| && index[t] == k;
      forall i | 0 <= i < n ensures Precedes(node, found[i].path, path) {
        CandidatesAreOrdered(place.base, node, recursive, index[i], k);
      }
    }
  }

  /** A smaller limit gives a prefix of the matches, and a larger one adds some exactly when the result
      was truncated. */
  lemma {:induction false} FindLimits(q: Query, visits: seq<Visit>, k: nat, more: nat)
    requires k < more
    ensures var few, many := Limited(Selected(q, visits), k), Limited(Selected(q, visits), more);
            few.matches <= many.matches && (few.truncated <==> |few.matches| < |many.matches|)
  {
    hide Selected;
  }

  // ---------- fs_grep ----------

  /** The file that an entry stands for, links followed. */
  function FileOf(entry: Entry): Option<File> {
    match entry.node
    case RegularFile(file) => Some(file)
    case Symlink(ToFile(_, file)) => Some(file)
    case _ => None
  }

  function VisitHits(place: Place, v: Visit, c: nat, m: Matcher): seq<Hit<Text>> {
    match FileOf(v.entry)
    case Some(file) => FileHits(ReportedPath(place, v), file, c, m)
    case None => []
  }

  /** The hits of all visited files, file by file. */
  function AllHits(place: Place, visits: seq<Visit>, c: nat, m: Matcher): seq<Hit<Text>> {
    if |visits| == 0 then [] else VisitHits(place, visits[0], c, m) + AllHits(place, visits[1..], c, m)
  }

  datatype GrepResult = GrepResult(matches: seq<Hit<Text>>, truncated: bool)

  datatype GrepError = NotAFileOrDirectory

  /** What the limit leaves of a directory search when the visits `ahead` are unseen. */
  ghost predicate Grepping(place: Place, all: seq<Visit>, c: nat, m: Matcher, limit: nat,
                           matches: seq<Hit<Text>>, ahead: seq<Visit>)
  {
    |matches| <= limit && Take(matches + AllHits(place, ahead, c, m), limit) == Take(AllHits(place, all, c, m), limit)
  }

  lemma {:induction false} GrepStarts(place: Place, all: seq<Visit>, c: nat, m: Matcher, limit: nat)
    ensures Grepping(place, all, c, m, limit, [], all)
  {
    assert [] + AllHits(place, all, c, m) == AllHits(place, all, c, m);
  }

  lemma {:induction false} TakeTwice<T>(a: seq<T>, b: seq<T>, k: nat)
    ensures Take(Take(a, k) + b, k) == Take(a + b, k)
  {
  }

  lemma {:induction false} GrepStep(place: Place, all: seq<Visit>, c: nat, m: Matcher, limit: nat,
                                    matches: seq<Hit<Text>>, v: Visit, more: seq<Visit>)
    requires Grepping(place, all, c, m, limit, matches, [v] + more)
    ensures Grepping(place, all, c, m, limit, Take(matches + VisitHits(place, v, c, m), limit), more)
  {
    hide VisitHits, Take;
    assert ([v] + more)[1..] == more;
    var head, rest := VisitHits(place, v, c, m), AllHits(place, more, c, m);
    Associative(matches, head, rest);
    TakeTwice(matches + head, rest, limit);
  }

  lemma {:induction false} GrepEnds(place: Place, all: seq<Visit>, c: nat, m: Matcher, limit: nat,
                                    matches: seq<Hit<Text>>, ahead: seq<Visit>)
    requires Grepping(place, all, c, m, limit, matches, ahead)
    requires |ahead| == 0 || |matches| == limit
    ensures matches == Take(AllHits(place, all, c, m), limit)
    ensures |matches| >= limit <==> |AllHits(place, all, c, m)| >= limit
  {
    assert (matches + AllHits(place, ahead, c, m))[..|matches|] == matches;
  }

  method GrepDirectory(place: Place, entries: seq<Entry>, c: nat, m: Matcher, limit: nat)
      returns (matches: seq<Hit<Text>>)
    ensures matches == Take(AllHits(place, Pruned([], entries), c, m), limit)
    ensures |matches| >= limit <==> |AllHits(place, Pruned([], entries), c, m)| >= limit
  {
    hide Grepping, AllHits, FileHits, Pruned, Work, EffortAhead, Ignored, Take;
    ghost var all := Pruned([], entries);
    matches := [];
    GrepStarts(place, all, c, m, limit);
    var it := new RecursiveIterator(entries);
    while it.current.Some?
      invariant fresh(it) && it.recursionPending
      invariant Grepping(place, all, c, m, limit, matches, it.Ahead()) && |matches| <= limit
      decreases it.Measure()
    {
      var visit := it.current.value;
      if |matches| >= limit {
        break;
      }
      if Ignored(visit.entry) {
        it.DisableRecursionPending();
        it.Increment();
        continue;
      }
      ghost var more := BelowVisit(visit) + Work(it.frames);
      Associative([visit], BelowVisit(visit), Work(it.frames));
      GrepStep(place, all, c, m, limit, matches, visit, more);
      NothingTaken(matches, limit);
      if FileOf(visit.entry).Some? {
        matches := SearchFile(ReportedPath(place, visit), FileOf(visit.entry).value, c, m, limit, matches);
      }
      TakeBound(matches, limit);
      it.Increment();
    }
    GrepEnds(place, all, c, m, limit, matches, it.Ahead());
  }

  lemma {:induction false} TakeBound<T>(s: seq<T>, k: nat)
    ensures |Take(s, k)| <= k
  {
  }

  /** The hits of everything that a search of the node at `place.base` reads. */
  function HitsFrom(place: Place, node: Node, c: nat, m: Matcher): seq<Hit<Text>> {
    match node
    case Directory(entries) => AllHits(place, Pruned([], entries), c, m)
    case RegularFile(file) => FileHits(Paths.RelativeString(place.root, place.base), file, c, m)
    case _ => []
  }

  function GrepUpTo(place: Place, node: Node, c: nat, m: Matcher, limit: nat): GrepResult {
    var all := HitsFrom(place, node, c, m);
    GrepResult(Take(all, limit), |all| >= limit)
  }

  method CallFsGrep(place: Place, node: Node, c: nat, m: Matcher, limit: nat)
      returns (r: Result<GrepResult, GrepError>)
    ensures r == if node.Directory? || node.RegularFile?
                 then Ok(GrepUpTo(place, node, c, m, limit))
                 else Err(NotAFileOrDirectory)
  {
    hide AllHits, FileHits, Pruned;
    var matches: seq<Hit<Text>> := [];
    match node {
      case RegularFile(file) =>
        var name := Paths.RelativeString(place.root, place.base);
        assert [] + FileHits(name, file, c, m) == FileHits(name, file, c, m);
        matches := SearchFile(name, file, c, m, limit, []);
      case Directory(entries) =>
        matches := GrepDirectory(place, entries, c, m, limit);
      case _ =>
        return Err(NotAFileOrDirectory);
    }
    return Ok(GrepResult(matches, |matches| >= limit));
  }

  /** The same for hits, where the flag says less: a truncated result may be complete. */
  lemma {:induction false} GrepLimits(place: Place, node: Node, c: nat, m: Matcher, k: nat, more: nat)
    requires k < more
    ensures var few, many := GrepUpTo(place, node, c, m, k), GrepUpTo(place, node, c, m, more);
            && few.matches <= many.matches
            && (|few.matches| < |many.matches| ==> few.truncated)
            && (few.truncated && few.matches == many.matches <==> |HitsFrom(place, node, c, m)| == k)
  {
    hide HitsFrom;
  }

  // ---------- what fs_grep means ----------

  /** The search reads `file`, which it found under `path` as the entry `e`: a regular file or what a link
      leads to, below the directory and not in an ignored one, or the file that is searched itself. */
  ghost predicate Reads(place: Place, node: Node, path: Path, e: Entry, file: File) {
    && (if node.Directory? then Reaches(node.entries, path, e)
        else node.RegularFile? && path == [] && e.node == node)
    && (e.node == RegularFile(file) || exists at :: e.node == Symlink(ToFile(at, file)))
  }

  lemma {:induction false} FileIsRead(e: Entry, file: File)
    ensures FileOf(e) == Some(file) <==> e.node == RegularFile(file) || exists at :: e.node == Symlink(ToFile(at, file))
  {
    if e.node.Symlink? && e.node.target.ToFile? {
      assert e.node == Symlink(ToFile(e.node.target.at, e.node.target.file));
    }
  }

  /** `h` is a hit in that file: it names the place where the file really lies, and tells the truth about
      a line that the matcher accepts. */
  ghost predicate IsHit(place: Place, path: Path, e: Entry, file: File, c: nat, m: Matcher, h: Hit<Text>) {
    && !file.skipped
    && TellsTheTruth(h, Paths.RelativeString(place.root, Location(place.base, Visit(path, e))), LinesOf(file.text), c)
    && Accepts(LinesOf(file.text)[h.line - 1], m)
  }

  lemma {:induction false} AllHitsHold(place: Place, visits: seq<Visit>, c: nat, m: Matcher, v: Visit)
    requires v in visits
    ensures forall h :: h in VisitHits(place, v, c, m) ==> h in AllHits(place, visits, c, m)
  {
    hide VisitHits;
    if v != visits[0] {
      AllHitsHold(place, visits[1..], c, m, v);
    }
  }

  lemma {:induction false} AllHitsCome(place: Place, visits: seq<Visit>, c: nat, m: Matcher, h: Hit<Text>)
      returns (v: Visit)
    requires h in AllHits(place, visits, c, m)
    ensures v in visits && h in VisitHits(place, v, c, m)
  {
    hide VisitHits;
    if h in VisitHits(place, visits[0], c, m) {
      v := visits[0];
    } else {
      v := AllHitsCome(place, visits[1..], c, m, h);
    }
  }

  /** The hits of one file that is read. */
  lemma {:induction false} HitsOfFile(place: Place, path: Path, e: Entry, file: File, c: nat, m: Matcher)
    ensures var hits := FileHits(Paths.RelativeString(place.root, Location(place.base, Visit(path, e))), file, c, m);
            && (forall h :: h in hits ==> IsHit(place, path, e, file, c, m, h))
            && (!file.skipped ==> forall k :: 0 <= k < |LinesOf(file.text)| && Accepts(LinesOf(file.text)[k], m) ==>
                 IsReported(hits, k + 1))
  {
    hide FileHits, TellsTheTruth, Accepts, Location, LinesOf, Paths.RelativeString, IsReported;
    FileHitsMeaning(Paths.RelativeString(place.root, Location(place.base, Visit(path, e))), file, c, m);
  }

  /** A hit on line `l` of the file is in the list. */
  predicate Lists(hits: seq<Hit<Text>>, path: Text, l: nat) {
    exists i :: 0 <= i < |hits| && hits[i].path == path && hits[i].line == l
  }

  /** The list has a hit for every line of the file that the matcher accepts. */
  ghost predicate ListsAll(hits: seq<Hit<Text>>, place: Place, path: Path, e: Entry, file: File, m: Matcher) {
    forall k :: 0 <= k < |LinesOf(file.text)| && Accepts(LinesOf(file.text)[k], m) ==>
      Lists(hits, Paths.RelativeString(place.root, Location(place.base, Visit(path, e))), k + 1)
  }

  lemma {:induction false} HitsFromMeaning(place: Place, node: Node, c: nat, m: Matcher)
    ensures var all := HitsFrom(place, node, c, m);
            && (forall h :: h in all ==> exists path, e, file ::
                 Reads(place, node, path, e, file) && IsHit(place, path, e, file, c, m, h))
            && (forall path, e, file :: Reads(place, node, path, e, file) && !file.skipped ==>
                 ListsAll(all, place, path, e, file, m))
  {
    hide Reads, HitsFrom, IsHit, ListsAll;
    var all := HitsFrom(place, node, c, m);
    forall h | h in all
      ensures exists path, e, file :: Reads(place, node, path, e, file) && IsHit(place, path, e, file, c, m, h)
    {
      var path, e, file := HitComesFrom(place, node, c, m, h);
    }
    forall path, e, file | Reads(place, node, path, e, file) && !file.skipped
      ensures ListsAll(all, place, path, e, file, m)
    {
      FileIsSearched(place, node, c, m, path, e, file);
    }
  }

  lemma {:induction false} HitComesFrom(place: Place, node: Node, c: nat, m: Matcher, h: Hit<Text>)
      returns (path: Path, e: Entry, file: File)
    requires h in HitsFrom(place, node, c, m)
    ensures Reads(place, node, path, e, file) && IsHit(place, path, e, file, c, m, h)
  {
    hide Reaches, Pruned, IsHit, FileHits, AllHits, Paths.RelativeString;
    if node.Directory? {
      var v := AllHitsCome(place, Pruned([], node.entries), c, m, h);
      assert [] + v.path == v.path;
      PrunedVisitsTheReachable([], node.entries, v.path, v.entry);
      path, e, file := v.path, v.entry, FileOf(v.entry).value;
      FileIsRead(e, file);
    } else {
      path, e, file := [], Entry([], node), node.file;
      assert place.base + path == place.base;
    }
    HitsOfFile(place, path, e, file, c, m);
  }

  lemma {:induction false} FileIsSearched(place: Place, node: Node, c: nat, m: Matcher, path: Path, e: Entry,
                                          file: File)
    requires Reads(place, node, path, e, file) && !file.skipped
    ensures ListsAll(HitsFrom(place, node, c, m), place, path, e, file, m)
  {
    hide Reaches, Pruned, FileHits, AllHits, Accepts, LinesOf, Paths.RelativeString, TellsTheTruth;
    var name := Paths.RelativeString(place.root, Location(place.base, Visit(path, e)));
    var all, hits := HitsFrom(place, node, c, m), FileHits(name, file, c, m);
    HitsOfFile(place, path, e, file, c, m);
    FileIsRead(e, file);
    if node.Directory? {
      assert [] + path == path;
      PrunedVisitsTheReachable([], node.entries, path, e);
      AllHitsHold(place, Pruned([], node.entries), c, m, Visit(path, e));
    } else {
      assert place.base + path == place.base;
    }
    forall k | 0 <= k < |LinesOf(file.text)| && Accepts(LinesOf(file.text)[k], m) ensures Lists(all, name, k + 1) {
      var i :| 0 <= i < |hits| && hits[i].line == k + 1;
      assert hits[i] in hits && hits[i] in all;
      HitPath(place, path, e, file, c, m, hits[i]);
      var j :| 0 <= j < |all| && all[j] == hits[i];
    }
  }

  lemma {:induction false} HitPath(place: Place, path: Path, e: Entry, file: File, c: nat, m: Matcher, h: Hit<Text>)
    requires IsHit(place, path, e, file, c, m, h)
    ensures h.path == Paths.RelativeString(place.root, Location(place.base, Visit(path, e)))
  {
    hide Accepts, LinesOf, Location, Paths.RelativeString;
  }

  /** What a search returns: hits in files that it reads, and only such; and if the result is not truncated,
      a hit for every accepted line of every file that it reads. */
  lemma {:induction false} GrepMeaning(place: Place, node: Node, c: nat, m: Matcher, limit: nat)
    ensures var r := GrepUpTo(place, node, c, m, limit);
            && |r.matches| <= limit
            && (forall h :: h in r.matches ==> exists path, e, file ::
                 Reads(place, node, path, e, file) && IsHit(place, path, e, file, c, m, h))
            && (!r.truncated ==> forall path, e, file :: Reads(place, node, path, e, file) && !file.skipped ==>
                 ListsAll(r.matches, place, path, e, file, m))
  {
    hide HitsFrom, Reads, IsHit, ListsAll;
    HitsFromMeaning(place, node, c, m);
    var all, r := HitsFrom(place, node, c, m), GrepUpTo(place, node, c, m, limit);
    assert !r.truncated ==> r.matches == all;
    assert forall h :: h in r.matches ==> h in all;
  }
}
