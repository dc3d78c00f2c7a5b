/** `fs_move` on a file system that is a map from paths to nodes. */
module FileTree {

  import opened Base

  // ---------- trees ----------

  datatype Node = FileNode(content: Text) | DirNode | LinkNode(target: Text)

  /** Every node but the base directory `[]`, which always exists. */
  type Tree = map<Path, Node>

  function Parent(p: Path): Path {
    if |p| == 0 then p else p[..|p| - 1]
  }

  predicate IsDir(t: Tree, p: Path) {
    |p| == 0 || (p in t && t[p].DirNode?)
  }

  predicate IsLink(t: Tree, p: Path) {
    |p| > 0 && p in t && t[p].LinkNode?
  }

  /** `fs::exists` for a resolved path, which names no link but one that dangles, and follows it to nothing. */
  predicate Present(t: Tree, p: Path) {
    |p| == 0 || (p in t && !t[p].LinkNode?)
  }

  /** Every node lies in a directory. */
  ghost predicate ParentClosed(t: Tree) {
    forall p :: p in t ==> |p| > 0 && IsDir(t, Parent(p))
  }

  function Remove(t: Tree, p: Path): Tree {
    map q | q in t && !(p <= q) :: t[q]
  }

  /** The nodes that a copy of what is below `s` puts below `d`. */
  function Copied(t: Tree, s: Path, d: Path): Tree {
    var moved := set q | q in t && s <= q :: d + q[|s|..];
    map q | q in moved && d <= q && s + q[|d|..] in t :: t[s + q[|d|..]]
  }

  lemma {:induction false} CopiedAt(t: Tree, s: Path, d: Path, q: Path)
    ensures q in Copied(t, s, d) <==> d <= q && s + q[|d|..] in t
    ensures q in Copied(t, s, d) ==> Copied(t, s, d)[q] == t[s + q[|d|..]]
  {
    if d <= q && s + q[|d|..] in t {
      var p := s + q[|d|..];
      assert s <= p && p[|s|..] == q[|d|..] && d + p[|s|..] == q;
    }
  }

  /** The proper prefixes of a path, which are its ancestors. */
  predicate IsAncestor(p: Path, q: Path) {
    0 < |p| < |q| && p <= q
  }

  function Ancestors(q: Path): (r: set<Path>)
    ensures forall p :: p in r <==> IsAncestor(p, q)
  {
    var r := set k | 0 < k < |q| :: q[..k];
    assert forall p :: IsAncestor(p, q) ==> p == q[..|p|];
    r
  }

  /** `create_directories(q.parent_path())`. */
  function WithParents(t: Tree, q: Path): Tree {
    t + map p | p in Ancestors(q) && p !in t :: DirNode
  }

  predicate CanCreateParents(t: Tree, q: Path) {
    forall p | p in Ancestors(q) :: p in t ==> t[p].DirNode?
  }

  /** Every ancestor of a node is a directory. */
  lemma {:induction false} AncestorsAreDirs(t: Tree, p: Path, q: Path)
    requires ParentClosed(t) && q in t && 0 < |p| && p <= q
    ensures p in t && (p != q ==> t[p].DirNode?)
    decreases |q|
  {
    if p != q {
      assert p <= Parent(q);
      AncestorsAreDirs(t, p, Parent(q));
    }
  }

  lemma {:induction false} NothingBelow(t: Tree, p: Path)
    requires ParentClosed(t) && |p| > 0 && p !in t
    ensures forall q :: q in t ==> !(p <= q)
    ensures Remove(t, p) == t
  {
    forall q | q in t ensures !(p <= q) {
      if p <= q { AncestorsAreDirs(t, p, q); }
    }
  }

  lemma {:induction false} OnlyItself(t: Tree, p: Path)
    requires ParentClosed(t) && p in t && !t[p].DirNode?
    ensures forall q :: q in t && p <= q ==> q == p
    ensures Remove(t, p) == t - {p}
  {
    assert |p| > 0;
    forall q | q in t && p <= q ensures q == p {
      AncestorsAreDirs(t, p, q);
    }
  }

  lemma {:induction false} ParentsKeepClosed(t: Tree, q: Path)
    requires ParentClosed(t) && CanCreateParents(t, q)
    ensures ParentClosed(WithParents(t, q))
    ensures |q| > 0 ==> IsDir(WithParents(t, q), Parent(q))
  {
    var u := WithParents(t, q);
    forall p | p in u ensures |p| > 0 && IsDir(u, Parent(p)) {
      if p in t {
        assert IsDir(t, Parent(p));
      } else {
        assert IsAncestor(p, q);
        assert |p| > 1 ==> IsAncestor(Parent(p), q);
      }
    }
    if |q| > 1 {
      assert IsAncestor(Parent(q), q);
    }
  }

  lemma {:induction false} RemoveKeepsClosed(t: Tree, p: Path)
    requires ParentClosed(t)
    ensures ParentClosed(Remove(t, p))
  {
    var u := Remove(t, p);
    forall q | q in u ensures |q| > 0 && IsDir(u, Parent(q)) {
      assert IsDir(t, Parent(q));
      assert p <= Parent(q) ==> p <= q;
    }
  }

  /** A copied node other than the top one lies in a copied directory. */
  lemma {:induction false} CopiedParent(t: Tree, s: Path, d: Path, q: Path)
    requires ParentClosed(t) && |s| > 0 && q in Copied(t, s, d) && q != d
    ensures Parent(q) in Copied(t, s, d) && Copied(t, s, d)[Parent(q)].DirNode?
  {
    hide Copied;
    CopiedAt(t, s, d, q);
    CopiedAt(t, s, d, Parent(q));
    var p := s + q[|d|..];
    assert |q| > |d| && d <= Parent(q);
    assert Parent(p) == s + Parent(q)[|d|..];
    assert IsDir(t, Parent(p));
  }

  lemma {:induction false} CopyKeepsClosed(t: Tree, s: Path, d: Path)
    requires ParentClosed(t) && |d| > 0 && IsDir(t, Parent(d)) && |s| > 0
    requires forall q :: q in t ==> !(d <= q)
    ensures ParentClosed(t + Copied(t, s, d))
  {
    hide Copied;
    var u := t + Copied(t, s, d);
    forall q | q in u ensures |q| > 0 && IsDir(u, Parent(q)) {
      CopiedAt(t, s, d, q);
      if q in Copied(t, s, d) && q != d {
        CopiedParent(t, s, d, q);
      } else {
        assert |q| > 0 && IsDir(t, Parent(q));
        CopiedAt(t, s, d, Parent(q));
      }
    }
  }

  // ---------- the move, on values ----------

  datatype MoveError = SamePath | DestinationExists | ParentNotDirectory | RenameFailed

  datatype Moved = Moved(tree: Tree, error: Option<MoveError>)

  /** What `remove_existing_path` leaves: it takes a dangling link for nothing. */
  function Cleared(t: Tree, p: Path): Tree {
    if Present(t, p) then Remove(t, p) else t
  }

  /** The tree when the rename is tried: parents created, a destination to overwrite removed. */
  function Prepared(t: Tree, d: Path, overwrite: bool, createParents: bool): Tree {
    var t1 := if createParents then WithParents(t, d) else t;
    if overwrite then Cleared(t1, d) else t1
  }

  /** `rename` refuses to move a directory into itself or onto a link, and to work in a directory that
      is not there. */
  predicate RenameWorks(t: Tree, s: Path, d: Path) {
    s in t && |d| > 0 && IsDir(t, Parent(d)) && !(s <= d) && (IsLink(t, d) ==> !t[s].DirNode?)
  }

  /** The source subtree under its new path; a link that was there is replaced. */
  function Renamed(t: Tree, s: Path, d: Path): Tree {
    Remove(t, s) + Copied(t, s, d)
  }

  function Move(t: Tree, s: Path, d: Path, overwrite: bool, createParents: bool): Moved {
    if s == d then Moved(t, Some(SamePath))
    else if !overwrite && Present(t, d) then Moved(t, Some(DestinationExists))
    else if createParents && !CanCreateParents(t, d) then Moved(t, Some(ParentNotDirectory))
    else
      var t2 := Prepared(t, d, overwrite, createParents);
      if RenameWorks(t2, s, d) then Moved(Renamed(t2, s, d), None) else Moved(t2, Some(RenameFailed))
  }

  /** Neither path lies in the other. */
  predicate Apart(s: Path, d: Path) {
    !(s <= d) && !(d <= s)
  }

  // ---------- the move, step by step ----------

  function Below(t: Tree, p: Path): set<Path> {
    set q | q in t && p <= q
  }

  /** The names in a directory. */
  function EntryNames(t: Tree, s: Path): (names: set<Text>)
    ensures forall n :: n in names <==> s + [n] in t
  {
    var names := set q | q in t && |q| == |s| + 1 && s <= q :: q[|s|];
    assert forall n :: s + [n] in t ==> (s + [n])[|s|] == n;
    assert forall q :: |q| == |s| + 1 && s <= q ==> q == s + [q[|s|]];
    names
  }

  /** The part of a copy that exists once the entries `done` have been copied. */
  predicate IsDone(d: Path, q: Path, done: set<Text>) {
    d <= q && (|q| == |d| || q[|d|] in done)
  }

  function CopiedEntries(t: Tree, s: Path, d: Path, done: set<Text>): Tree {
    var all := Copied(t, s, d);
    map q | q in all && IsDone(d, q, done) :: all[q]
  }

  lemma {:induction false} CopiedNone(t: Tree, s: Path, d: Path)
    requires s in t
    ensures t[d := t[s]] == t + CopiedEntries(t, s, d, {})
  {
    var part := CopiedEntries(t, s, d, {});
    CopiedAt(t, s, d, d);
    assert s + d[|d|..] == s;
    forall q | q in part ensures q == d {
    }
    assert part == map[d := t[s]];
  }

  lemma {:induction false} CopiedAll(t: Tree, s: Path, d: Path)
    requires ParentClosed(t) && |s| > 0
    ensures CopiedEntries(t, s, d, EntryNames(t, s)) == Copied(t, s, d)
  {
    hide Copied, ParentClosed, IsDir;
    forall q | q in Copied(t, s, d) ensures IsDone(d, q, EntryNames(t, s)) {
      CopiedAt(t, s, d, q);
      if |q| > |d| {
        var p := s + q[|d|..];
        var name := q[|d|];
        assert s + [name] <= p;
        AncestorsAreDirs(t, s + [name], p);
      }
    }
  }

  lemma {:induction false} CopiedAlone(t: Tree, s: Path, d: Path)
    requires s in t && forall q :: q in t && s <= q ==> q == s
    ensures Copied(t, s, d) == map[d := t[s]]
  {
    CopiedAt(t, s, d, d);
    assert s + d[|d|..] == s;
    forall q | q in Copied(t, s, d) ensures q == d {
      CopiedAt(t, s, d, q);
      assert s + q[|d|..] == s;
      assert |q[|d|..]| == 0;
    }
  }

  /** What has been copied so far lies below the destination, so it is not below any entry of the source. */
  lemma {:induction false} CopiesStayApart(t: Tree, s: Path, d: Path, done: set<Text>, q: Path)
    requires Apart(s, d)
    ensures q in CopiedEntries(t, s, d, done) ==> d <= q && !(s <= q)
  {
    CopiedAt(t, s, d, q);
  }

  lemma {:induction false} PrefixOfSnoc(p: Path, q: Path, name: Text)
    ensures p <= q + [name] <==> p <= q || p == q + [name]
  {
    if |p| <= |q| {
      assert (q + [name])[..|p|] == q[..|p|];
    }
  }

  lemma {:induction false} ApartBelow(s: Path, d: Path, name: Text)
    requires Apart(s, d)
    ensures Apart(s + [name], d + [name]) && Apart(s, d + [name]) && !(d <= s + [name])
  {
    PrefixOfSnoc(s, d, name);
    PrefixOfSnoc(d, s, name);
    PrefixOfSnoc(s + [name], d, name);
    PrefixOfSnoc(d + [name], s, name);
  }

  /** Copying from a tree that differs from `t` only outside the source gives the same copy. */
  lemma {:induction false} CopiedUnaffected(t: Tree, u: Tree, s: Path, d: Path)
    requires forall q :: s <= q ==> (q in t <==> q in u) && (q in t ==> t[q] == u[q])
    ensures Copied(t, s, d) == Copied(u, s, d)
  {
    hide Copied;
    forall q ensures q in Copied(t, s, d) <==> q in Copied(u, s, d) {
      CopiedAt(t, s, d, q);
      CopiedAt(u, s, d, q);
    }
    forall q | q in Copied(t, s, d) ensures Copied(t, s, d)[q] == Copied(u, s, d)[q] {
      CopiedAt(t, s, d, q);
      CopiedAt(u, s, d, q);
    }
  }

  /** The source is as it was while its entries are being copied. */
  lemma {:induction false} SourceUnaffected(t: Tree, s: Path, d: Path, done: set<Text>, q: Path)
    requires Apart(s, d) && s <= q
    ensures var u := t + CopiedEntries(t, s, d, done);
            (q in t <==> q in u) && (q in t ==> t[q] == u[q])
  {
    CopiesStayApart(t, s, d, done, q);
  }

  lemma {:induction false} PartKeepsClosed(t: Tree, s: Path, d: Path, done: set<Text>)
    requires ParentClosed(t) && |d| > 0 && IsDir(t, Parent(d)) && |s| > 0
    requires forall q :: q in t ==> !(d <= q)
    ensures ParentClosed(t + CopiedEntries(t, s, d, done))
  {
    hide Copied;
    var part := CopiedEntries(t, s, d, done);
    var u := t + part;
    forall q | q in u ensures |q| > 0 && IsDir(u, Parent(q)) {
      CopiedAt(t, s, d, q);
      if q in part && q != d {
        CopiedParent(t, s, d, q);
        assert IsDone(d, Parent(q), done);
      } else {
        assert |q| > 0 && IsDir(t, Parent(q));
        CopiedAt(t, s, d, Parent(q));
      }
    }
  }

  /** Everything that copying the next entry demands. */
  lemma {:induction false} CopyEntryReady(t: Tree, s: Path, d: Path, done: set<Text>, name: Text)
    requires ParentClosed(t) && s in t && t[s].DirNode? && |d| > 0 && IsDir(t, Parent(d)) && Apart(s, d)
    requires forall q :: q in t ==> !(d <= q)
    requires name in EntryNames(t, s) && name !in done
    ensures var u := t + CopiedEntries(t, s, d, done);
            && ParentClosed(u) && s + [name] in u && d + [name] !in u && IsDir(u, Parent(d + [name]))
            && Apart(s + [name], d + [name])
            && Below(u, s + [name]) < Below(t, s)
  {
    hide Copied, ParentClosed;
    var u := t + CopiedEntries(t, s, d, done);
    PartKeepsClosed(t, s, d, done);
    ApartBelow(s, d, name);
    CopiedAt(t, s, d, d);
    assert s + d[|d|..] == s;
    assert Parent(d + [name]) == d;
    assert s in Below(t, s) && s !in Below(u, s + [name]);
    forall q | q in Below(u, s + [name]) ensures q in Below(t, s) {
      assert s <= s + [name] <= q;
      SourceUnaffected(t, s, d, done, q);
    }
    SourceUnaffected(t, s, d, done, s + [name]);
  }

  lemma {:induction false} CopiedOneMore(t: Tree, s: Path, d: Path, done: set<Text>, name: Text)
    requires Apart(s, d)
    ensures var u := t + CopiedEntries(t, s, d, done);
            u + Copied(u, s + [name], d + [name]) == t + CopiedEntries(t, s, d, done + {name})
  {
    hide Copied;
    var u := t + CopiedEntries(t, s, d, done);
    forall q | s + [name] <= q ensures (q in t <==> q in u) && (q in t ==> t[q] == u[q]) {
      assert s <= s + [name] <= q;
      SourceUnaffected(t, s, d, done, q);
    }
    CopiedUnaffected(t, u, s + [name], d + [name]);
    EntriesOneMore(t, s, d, done, name);
  }

  lemma {:induction false} EntriesOneMore(t: Tree, s: Path, d: Path, done: set<Text>, name: Text)
    ensures CopiedEntries(t, s, d, done) + Copied(t, s + [name], d + [name])
         == CopiedEntries(t, s, d, done + {name})
  {
    hide Copied;
    var one := Copied(t, s + [name], d + [name]);
    forall q ensures q in one <==> q in Copied(t, s, d) && |q| > |d| && d <= q && q[|d|] == name {
      EntryOfCopy(t, s, d, name, q);
    }
    forall q | q in one ensures one[q] == Copied(t, s, d)[q] {
      EntryOfCopy(t, s, d, name, q);
    }
  }

  lemma {:induction false} EntryOfCopy(t: Tree, s: Path, d: Path, name: Text, q: Path)
    ensures var one := Copied(t, s + [name], d + [name]);
            && (q in one <==> q in Copied(t, s, d) && |q| > |d| && d <= q && q[|d|] == name)
            && (q in one ==> one[q] == Copied(t, s, d)[q])
  {
    CopiedAt(t, s, d, q);
    CopiedAt(t, s + [name], d + [name], q);
    if |q| > |d| && d <= q && q[|d|] == name {
      assert d + [name] <= q;
      assert s + [name] + q[|d| + 1..] == s + q[|d|..];
    }
  }

  lemma {:induction false} CopyIsReady(t: Tree, s: Path, d: Path)
    requires ParentClosed(t) && s in t && d !in t && |d| > 0
    ensures |s| > 0 && forall q :: q in t ==> !(d <= q)
    ensures !t[s].DirNode? ==> forall q :: q in t && s <= q ==> q == s
  {
    NothingBelow(t, d);
    if !t[s].DirNode? { OnlyItself(t, s); }
  }

  lemma {:induction false} ParentsLeaveDestination(t: Tree, d: Path)
    ensures d in WithParents(t, d) <==> d in t
    ensures IsLink(WithParents(t, d), d) <==> IsLink(t, d)
  {
  }

  /** A source that is no link is none when the move has been prepared. */
  lemma {:induction false} ParentsLeaveSource(t: Tree, s: Path, d: Path, overwrite: bool, createParents: bool)
    requires Present(t, s)
    ensures !IsLink(Prepared(t, d, overwrite, createParents), s)
  {
  }

  lemma {:induction false} CopyLeavesSource(t: Tree, s: Path, d: Path)
    requires Apart(s, d)
    ensures var u := t + Copied(t, s, d);
            (s in u <==> s in t) && (s in t ==> u[s] == t[s])
  {
    CopiedAt(t, s, d, s);
  }

  lemma {:induction false} ClearedIsGone(t: Tree, d: Path)
    ensures d in Cleared(t, d) <==> IsLink(t, d)
    ensures IsLink(t, d) ==> Cleared(t, d) == t
  {
  }

  lemma {:induction false} ClearedKeepsClosed(t: Tree, d: Path)
    requires ParentClosed(t)
    ensures ParentClosed(Cleared(t, d))
  {
    RemoveKeepsClosed(t, d);
  }

  lemma {:induction false} CopyThenRemove(t: Tree, s: Path, d: Path)
    requires Apart(s, d)
    ensures Remove(t + Copied(t, s, d), s) == Renamed(t, s, d)
  {
    hide Copied;
    var u, r := Remove(t + Copied(t, s, d), s), Renamed(t, s, d);
    forall q ensures q in u <==> q in r {
      CopiedAt(t, s, d, q);
    }
    forall q | q in u ensures u[q] == r[q] {
      CopiedAt(t, s, d, q);
    }
  }

  lemma {:induction false} DestinationIsApart(t: Tree, s: Path, d: Path)
    requires ParentClosed(t) && RenameWorks(t, s, d) && d !in t
    ensures Apart(s, d)
  {
    if d <= s { AncestorsAreDirs(t, d, s); }
  }

  /** The tree when the ancestors of `q` shorter than `k` exist. */
  function ParentsBelow(t: Tree, q: Path, k: nat): Tree {
    t + map p | p in Ancestors(q) && p !in t && |p| < k :: DirNode
  }

  lemma {:induction false} ParentsStep(t: Tree, q: Path, k: nat)
    requires 1 <= k < |q|
    ensures var u := ParentsBelow(t, q, k);
            ParentsBelow(t, q, k + 1) == if q[..k] in u then u else u[q[..k] := DirNode]
  {
    var p, u := q[..k], ParentsBelow(t, q, k);
    assert IsAncestor(p, q);
    assert forall r :: r in Ancestors(q) && |r| == k ==> r == p;
    assert p in u <==> p in t;
  }

  lemma {:induction false} ParentsComplete(t: Tree, q: Path)
    ensures ParentsBelow(t, q, 1) == t
    ensures |q| >= 1 ==> ParentsBelow(t, q, |q|) == WithParents(t, q)
    ensures |q| < 1 ==> WithParents(t, q) == t
  {
    assert forall p :: p in Ancestors(q) ==> 1 <= |p| < |q|;
  }

  class FileSystem {
    var nodes: Tree

    constructor (nodes: Tree)
      ensures this.nodes == nodes
    {
      this.nodes := nodes;
    }

    /** Creates missing ancestors from the top; fails before creating any if one is not a directory. */
    method CreateParents(q: Path) returns (ok: bool)
      modifies this
      ensures ok <==> CanCreateParents(old(nodes), q)
      ensures nodes == if ok then WithParents(old(nodes), q) else old(nodes)
    {
      hide Ancestors, ParentsBelow, WithParents;
      if !CanCreateParents(nodes, q) {
        return false;
      }
      ghost var start := nodes;
      ParentsComplete(start, q);
      var k := 1;
      while k < |q|
        invariant if |q| == 0 then k == 1 else 1 <= k <= |q|
        invariant nodes == ParentsBelow(start, q, k)
      {
        ParentsStep(start, q, k);
        if q[..k] !in nodes {
          nodes := nodes[q[..k] := DirNode];
        }
        k := k + 1;
      }
      return true;
    }

    /** `remove_existing_path`: `remove_all` for a directory, `remove` for anything else. */
    method RemoveExistingPath(p: Path)
      requires ParentClosed(nodes)
      modifies this
      ensures nodes == Cleared(old(nodes), p)
    {
      if !Present(nodes, p) {
        return;
      }
      if IsDir(nodes, p) {
        nodes := map q | q in nodes && !(p <= q) :: nodes[q];
        return;
      }
      OnlyItself(nodes, p);
      nodes := nodes - {p};
    }

    /** `rename`. Across devices it changes nothing and says so. */
    method Rename(s: Path, d: Path, crossDevice: bool) returns (r: RenameResult)
      requires d in nodes ==> nodes[d].LinkNode?
      modifies this
      ensures r.RenameError? <==> !RenameWorks(old(nodes), s, d)
      ensures r.CrossDeviceLink? <==> RenameWorks(old(nodes), s, d) && crossDevice
      ensures nodes == if r.RenameOk? then Renamed(old(nodes), s, d) else old(nodes)
    {
      if !RenameWorks(nodes, s, d) {
        return RenameError;
      }
      if crossDevice {
        return CrossDeviceLink;
      }
      nodes := Renamed(nodes, s, d);
      return RenameOk;
    }

    /** `fs::copy` with `copy_symlinks | recursive`: a file or a link by itself, a directory by creating
        it and copying its entries one by one. */
    method Copy(s: Path, d: Path)
      requires ParentClosed(nodes) && s in nodes && d !in nodes && |d| > 0 && IsDir(nodes, Parent(d)) && Apart(s, d)
      modifies this
      ensures nodes == old(nodes) + Copied(old(nodes), s, d)
      ensures ParentClosed(nodes)
      decreases Below(nodes, s)
    {
      hide Copied, CopiedEntries, Apart, ParentClosed, EntryNames, Below, IsDir, Parent;
      ghost var start := nodes;
      CopyIsReady(start, s, d);
      CopyKeepsClosed(start, s, d);
      var node := nodes[s];
      var todo := EntryNames(nodes, s);
      nodes := nodes[d := node];
      if !node.DirNode? {
        CopiedAlone(start, s, d);
        assert nodes == start + map[d := node];
        return;
      }
      ghost var done: set<Text> := {};
      CopiedNone(start, s, d);
      while todo != {}
        invariant todo + done == EntryNames(start, s) && todo !! done
        invariant nodes == start + CopiedEntries(start, s, d, done)
        decreases todo
      {
        var name :| name in todo;
        CopyEntryReady(start, s, d, done, name);
        Copy(s + [name], d + [name]);
        CopiedOneMore(start, s, d, done, name);
        todo, done := todo - {name}, done + {name};
      }
      assert done == EntryNames(start, s);
      CopiedAll(start, s, d);
    }

    method CallFsMove(s: Path, d: Path, overwrite: bool, createParents: bool, crossDevice: bool)
        returns (error: Option<MoveError>)
      requires ParentClosed(nodes) && Present(nodes, s)
      requires crossDevice ==> !IsLink(nodes, d)  // a copy onto a dangling link is not modelled
      modifies this
      ensures Moved(nodes, error) == Move(old(nodes), s, d, overwrite, createParents)
    {
      hide WithParents, Copied, Remove, ParentClosed;
      if s == d {
        return Some(SamePath);
      }
      if !overwrite && Present(nodes, d) {
        return Some(DestinationExists);
      }
      ghost var start := nodes;
      if createParents {
        var ok := CreateParents(d);
        if !ok {
          return Some(ParentNotDirectory);
        }
        ParentsKeepClosed(start, d);
      }
      if overwrite {
        ClearedIsGone(nodes, d);
        ClearedKeepsClosed(nodes, d);
        RemoveExistingPath(d);
      }
      ghost var prepared := nodes;
      ParentsLeaveDestination(start, d);
      var result := Rename(s, d, crossDevice);
      if result.RenameError? {
        return Some(RenameFailed);
      }
      if result.CrossDeviceLink? {
        DestinationIsApart(prepared, s, d);
        Copy(s, d);
        CopyThenRemove(prepared, s, d);
        ParentsLeaveSource(start, s, d, overwrite, createParents);
        CopyLeavesSource(prepared, s, d);
        RemoveExistingPath(s);
      }
      return None;
    }
  }

  datatype RenameResult = RenameOk | CrossDeviceLink | RenameError

  // ---------- what a move means ----------

  /** A link at the destination makes no difference to what a rename leaves. */
  lemma {:induction false} RenamedOverLink(t: Tree, s: Path, d: Path)
    requires ParentClosed(t) && RenameWorks(t, s, d) && !Present(t, d)
    ensures Apart(s, d)
    ensures var free := Remove(t, d);
            && d !in free && ParentClosed(free) && s in free && IsDir(free, Parent(d))
            && (forall q :: q in free <==> q in t && q != d)
            && Renamed(t, s, d) == Renamed(free, s, d)
  {
    hide Copied;
    var free := Remove(t, d);
    if d in t {
      OnlyItself(t, d);
      if d <= s { AncestorsAreDirs(t, d, s); }
    } else {
      NothingBelow(t, d);
    }
    RemoveKeepsClosed(t, d);
    RenamedAlike(t, free, s, d);
  }

  lemma {:induction false} RenamedAlike(t: Tree, free: Tree, s: Path, d: Path)
    requires Apart(s, d) && s in t
    requires forall q :: (q in free <==> q in t && q != d) && (q in free ==> free[q] == t[q])
    ensures Renamed(t, s, d) == Renamed(free, s, d)
  {
    hide Copied;
    CopiedAt(t, s, d, d);
    assert s + d[|d|..] == s;
    CopiedUnaffected(t, free, s, d);
  }

  /** A move that succeeds puts the source subtree, node by node, under the destination; nothing is
      left at the source; every other node is as before, except that missing ancestors of the
      destination are now directories if that was asked for. This holds for one device and for two,
      since `CallFsMove` meets the same description either way. */
  lemma {:induction false} MoveMeaning(t: Tree, s: Path, d: Path, overwrite: bool, createParents: bool, q: Path)
    requires ParentClosed(t) && Present(t, s)
    requires Move(t, s, d, overwrite, createParents).error == None
    ensures Apart(s, d)
    ensures var u := Move(t, s, d, overwrite, createParents).tree;
            && (d <= q ==> (q in u <==> s + q[|d|..] in t) && (q in u ==> u[q] == t[s + q[|d|..]]))
            && (s <= q ==> q !in u)
            && (!(d <= q) && !(s <= q) && q in t ==> q in u && u[q] == t[q])
            && (!(d <= q) && !(s <= q) && q !in t ==>
                 (q in u <==> createParents && IsAncestor(q, d)) && (q in u ==> u[q] == DirNode))
  {
    hide Copied, ParentClosed;
    var t2 := Prepared(t, d, overwrite, createParents);
    MovedApart(t, s, d, overwrite, createParents);
    var free := Remove(t2, d);
    NothingBelow(free, d);
    CopiedAt(free, s, d, q);
    if s <= q && d <= q {
      CommonExtension(s, d, q);
    } else if d <= q {
      PreparedSource(t, s, d, overwrite, createParents, s + q[|d|..]);
      SourceOutside(s, d, s + q[|d|..]);
    } else if createParents && IsAncestor(q, d) {
      assert s <= q ==> s <= d;
    }
  }

  lemma {:induction false} SourceOutside(s: Path, d: Path, q: Path)
    requires Apart(s, d) && s <= q
    ensures !(d <= q)
  {
    if d <= q { CommonExtension(s, d, q); }
  }

  lemma {:induction false} MovedApart(t: Tree, s: Path, d: Path, overwrite: bool, createParents: bool)
    requires ParentClosed(t) && Present(t, s)
    requires Move(t, s, d, overwrite, createParents).error == None
    ensures Apart(s, d) && s in t
    ensures var t2 := Prepared(t, d, overwrite, createParents);
            var free := Remove(t2, d);
            && ParentClosed(t2) && RenameWorks(t2, s, d) && !Present(t2, d)
            && |d| > 0 && |s| > 0 && d !in free && ParentClosed(free) && s in free && IsDir(free, Parent(d))
            && Move(t, s, d, overwrite, createParents).tree == Renamed(free, s, d)
  {
    hide ParentClosed, Copied, Remove, WithParents;
    DestinationGone(t, d, overwrite, createParents);
    PreparedKeepsClosed(t, d, overwrite, createParents);
    RenamedOverLink(Prepared(t, d, overwrite, createParents), s, d);
    PreparedSource(t, s, d, overwrite, createParents, s);
  }

  lemma {:induction false} CommonExtension(s: Path, d: Path, q: Path)
    requires s <= q && d <= q
    ensures s <= d || d <= s
  {
    if |s| <= |d| {
      assert s == q[..|s|] == d[..|s|];
    } else {
      assert d == q[..|d|] == s[..|d|];
    }
  }

  /** Preparing a move apart from the source leaves the source alone. */
  lemma {:induction false} PreparedSource(t: Tree, s: Path, d: Path, overwrite: bool, createParents: bool, q: Path)
    requires Apart(s, d) && s <= q
    ensures var t2 := Prepared(t, d, overwrite, createParents);
            (q in t2 <==> q in t) && (q in t ==> t2[q] == t[q])
  {
    if d <= q {
      CommonExtension(s, d, q);
    }
    assert IsAncestor(q, d) ==> s <= d;
  }

  lemma {:induction false} PreparedKeepsClosed(t: Tree, d: Path, overwrite: bool, createParents: bool)
    requires ParentClosed(t) && (createParents ==> CanCreateParents(t, d))
    ensures ParentClosed(Prepared(t, d, overwrite, createParents))
  {
    hide ParentClosed, WithParents, Cleared;
    if createParents { ParentsKeepClosed(t, d); }
    if overwrite {
      ClearedKeepsClosed(if createParents then WithParents(t, d) else t, d);
    }
  }

  /** Whatever the outcome, the result is again a tree. */
  lemma {:induction false} MoveKeepsClosed(t: Tree, s: Path, d: Path, overwrite: bool, createParents: bool)
    requires ParentClosed(t) && Present(t, s)
    ensures ParentClosed(Move(t, s, d, overwrite, createParents).tree)
  {
    hide ParentClosed, Copied, Remove, WithParents;
    var m := Move(t, s, d, overwrite, createParents);
    if m.error == None {
      MovedApart(t, s, d, overwrite, createParents);
      var free := Remove(Prepared(t, d, overwrite, createParents), d);
      NothingBelow(free, d);
      CopyKeepsClosed(free, s, d);
      RemoveKeepsClosed(free + Copied(free, s, d), s);
      CopyThenRemove(free, s, d);
    } else if m.error == Some(RenameFailed) {
      PreparedKeepsClosed(t, d, overwrite, createParents);
    }
  }

  lemma {:induction false} DestinationGone(t: Tree, d: Path, overwrite: bool, createParents: bool)
    requires overwrite || !Present(t, d)
    ensures var t2 := Prepared(t, d, overwrite, createParents);
            (d in t2 ==> IsLink(t2, d)) && (IsLink(t2, d) <==> IsLink(t, d))
  {
  }

  /** Exactly when a move succeeds. Only equal paths are refused up front, and only a dangling link
      at the destination is ever replaced without having been removed first. */
  lemma {:induction false} MoveSucceedsExactly(t: Tree, s: Path, d: Path, overwrite: bool, createParents: bool)
    requires ParentClosed(t) && Present(t, s)
    ensures Move(t, s, d, overwrite, createParents).error == None
       <==> (&& Apart(s, d) && |d| > 0
             && (overwrite || !Present(t, d))
             && (IsLink(t, d) ==> !t[s].DirNode?)
             && (if createParents then CanCreateParents(t, d) else IsDir(t, Parent(d))))
  {
    hide Copied, ParentClosed;
    var ok := Move(t, s, d, overwrite, createParents).error == None;
    if ok {
      MovedApart(t, s, d, overwrite, createParents);
      DestinationGone(t, d, overwrite, createParents);
      PreparedSource(t, s, d, overwrite, createParents, s);
      PreparedParent(t, d, overwrite, createParents);
    }
    if Apart(s, d) && |d| > 0 && (overwrite || !Present(t, d)) {
      assert |s| > 0;
      PreparedSource(t, s, d, overwrite, createParents, s);
      DestinationGone(t, d, overwrite, createParents);
      PreparedParent(t, d, overwrite, createParents);
    }
  }

  /** Without leave to overwrite, a move that succeeds keeps every node outside the source, unless the
      destination was a dangling link: that it replaces. */
  lemma {:induction false} NothingLostExactly(t: Tree, s: Path, d: Path, createParents: bool)
    requires ParentClosed(t) && Present(t, s)
    requires Move(t, s, d, false, createParents).error == None
    ensures var u := Move(t, s, d, false, createParents).tree;
            (forall q :: q in t && !(s <= q) ==> q in u && u[q] == t[q]) <==> !IsLink(t, d)
  {
    hide ParentClosed, Renamed, Prepared;
    var u := Move(t, s, d, false, createParents).tree;
    assert s + d[|d|..] == s;
    MoveMeaning(t, s, d, false, createParents, d);
    forall q | q in t && !(s <= q) && q != d ensures q in u && u[q] == t[q] {
      MoveMeaning(t, s, d, false, createParents, q);
      if d <= q { AncestorsAreDirs(t, d, q); }
    }
  }

  lemma {:induction false} PreparedParent(t: Tree, d: Path, overwrite: bool, createParents: bool)
    requires |d| > 0
    ensures createParents && CanCreateParents(t, d) ==> IsDir(Prepared(t, d, overwrite, createParents), Parent(d))
    ensures !createParents ==> (IsDir(Prepared(t, d, overwrite, createParents), Parent(d)) <==> IsDir(t, Parent(d)))
  {
    if |d| > 1 {
      assert IsAncestor(Parent(d), d);
    }
  }

  /** What a move that fails was stopped by, and what it has changed by then: nothing before the rename is
      tried; then the missing ancestors of the destination are there if that was asked for, and a
      destination to overwrite is gone with what was in it. */
  lemma {:induction false} MoveFails(t: Tree, s: Path, d: Path, overwrite: bool, createParents: bool)
    ensures var m := Move(t, s, d, overwrite, createParents);
            var taken, blocked := !overwrite && Present(t, d),
                                  createParents && exists p :: p in t && IsAncestor(p, d) && !t[p].DirNode?;
            && (m.error == Some(SamePath) <==> s == d)
            && (m.error == Some(DestinationExists) <==> s != d && taken)
            && (m.error == Some(ParentNotDirectory) <==> s != d && !taken && blocked)
            && (m.error.Some? && m.error != Some(RenameFailed) ==> m.tree == t)
            && (m.error == Some(RenameFailed) ==>
                forall q :: if overwrite && Present(t, d) && d <= q then q !in m.tree
                            else if q in t then q in m.tree && m.tree[q] == t[q]
                            else (q in m.tree <==> createParents && IsAncestor(q, d))
                                 && (q in m.tree ==> m.tree[q] == DirNode))
  {
    hide Renamed, RenameWorks;
    assert CanCreateParents(t, d) <==> !exists p :: p in t && IsAncestor(p, d) && !t[p].DirNode?;
  }

  /** A move that fails has kept the whole source exactly when it had not removed, to overwrite it, a
      destination that lies around the source or inside it. */
  lemma {:induction false} FailedMoveKeepsSource(t: Tree, s: Path, d: Path, overwrite: bool, createParents: bool)
    requires ParentClosed(t) && s in t && Present(t, s)
    requires Move(t, s, d, overwrite, createParents).error != None
    ensures var u := Move(t, s, d, overwrite, createParents).tree;
            ((forall q :: q in t && s <= q ==> q in u && u[q] == t[q])
             <==> !(overwrite && s != d && (d <= s || (s <= d && Present(t, d)))))
  {
    hide ParentClosed;
    SourceParent(t, s);
    var u := Move(t, s, d, overwrite, createParents).tree;
    if overwrite && s != d && d <= s {
      AncestorsCanBeCreated(t, d, s);
      if |d| > 0 { AncestorsAreDirs(t, d, s); }
      assert s !in u;
    } else if overwrite && s != d && s <= d && Present(t, d) {
      AncestorsCanBeCreated(t, d, d);
      assert d !in u;
    } else {
      forall q | q in t && s <= q ensures q in u && u[q] == t[q] {
        if overwrite && s != d && d <= q {
          CommonExtension(s, d, q);
          AncestorsAreDirs(t, d, q);
        }
      }
    }
  }

  /** The other outcome: told to overwrite an entry of the source, the move removes it and then fails. */
  lemma {:induction false} FailedMoveCanLoseSource(a: Text, b: Text, content: Text)
    ensures var t: Tree := map[[a] := DirNode, [a, b] := FileNode(content)];
            var m := Move(t, [a], [a, b], true, true);
            ParentClosed(t) && m.error == Some(RenameFailed) && [a, b] !in m.tree
  {
    var t: Tree := map[[a] := DirNode, [a, b] := FileNode(content)];
    assert Parent([a]) == [] && Parent([a, b]) == [a];
    AncestorsCanBeCreated(t, [a, b], [a, b]);
  }

  /** A file moved onto a dangling link without leave to overwrite: the link is gone. */
  lemma {:induction false} MoveCanReplaceLink(a: Text, b: Text, content: Text, target: Text)
    requires a != b
    ensures var t: Tree := map[[a] := FileNode(content), [b] := LinkNode(target)];
            var m := Move(t, [a], [b], false, true);
            ParentClosed(t) && m.error == None && [b] in m.tree && m.tree[[b]] == FileNode(content)
  {
    var t: Tree := map[[a] := FileNode(content), [b] := LinkNode(target)];
    assert Parent([a]) == [] && Parent([b]) == [];
    assert [a][0] != [b][0];
    MoveSucceedsExactly(t, [a], [b], false, true);
    MoveMeaning(t, [a], [b], false, true, [b]);
    assert [a] + [b][1..] == [a];
  }

  lemma {:induction false} AncestorsCanBeCreated(t: Tree, d: Path, q: Path)
    requires ParentClosed(t) && q in t && d <= q
    ensures CanCreateParents(t, d)
  {
    forall p | p in Ancestors(d) && p in t ensures t[p].DirNode? {
      AncestorsAreDirs(t, p, q);
    }
  }

  /** Moving back undoes a move to a place that was free, in a directory that was there. */
  lemma {:induction false} MoveBack(t: Tree, s: Path, d: Path, o1: bool, c1: bool, o2: bool, c2: bool)
    requires ParentClosed(t) && s in t && Present(t, s) && Apart(s, d) && d !in t && |d| > 0 && IsDir(t, Parent(d))
    ensures var there := Move(t, s, d, o1, c1);
            there.error == None && Move(there.tree, d, s, o2, c2) == Moved(t, None)
  {
    hide Copied, ParentClosed;
    ParentsCanBeCreated(t, d);
    ParentsCanBeCreated(t, s);
    MoveSucceedsExactly(t, s, d, o1, c1);
    MoveKeepsClosed(t, s, d, o1, c1);
    var u := Move(t, s, d, o1, c1).tree;
    assert s + d[|d|..] == s && d + s[|s|..] == d;
    MoveMeaning(t, s, d, o1, c1, d);
    MoveMeaning(t, s, d, o1, c1, s);
    assert |s| > 0 && IsDir(t, Parent(s)) by { SourceParent(t, s); }
    if |s| > 1 {
      MoveMeaning(t, s, d, o1, c1, Parent(s));
      assert !(d <= Parent(s)) by { assert d <= Parent(s) ==> d <= s; }
    }
    ParentsCanBeCreated(u, s);
    MoveSucceedsExactly(u, d, s, o2, c2);
    var back := Move(u, d, s, o2, c2).tree;
    forall q ensures (q in back <==> q in t) && (q in t ==> back[q] == t[q]) {
      ThereAndBack(t, s, d, o1, c1, o2, c2, q);
    }
    assert back == t;
  }

  lemma {:induction false} SourceParent(t: Tree, s: Path)
    requires ParentClosed(t) && s in t
    ensures |s| > 0 && IsDir(t, Parent(s))
  {
  }

  lemma {:induction false} ParentsCanBeCreated(t: Tree, d: Path)
    requires ParentClosed(t) && (d in t || (|d| > 0 && IsDir(t, Parent(d))))
    ensures CanCreateParents(t, d) && (forall p :: IsAncestor(p, d) ==> p in t)
  {
    hide ParentClosed;
    forall p | IsAncestor(p, d) ensures p in t && t[p].DirNode? {
      if d in t {
        AncestorsAreDirs(t, p, d);
      } else {
        AncestorsAreDirs(t, p, Parent(d));
      }
    }
  }

  lemma {:induction false} ThereAndBack(t: Tree, s: Path, d: Path, o1: bool, c1: bool, o2: bool, c2: bool, q: Path)
    requires ParentClosed(t) && s in t && Present(t, s) && Apart(s, d) && d !in t && |d| > 0 && IsDir(t, Parent(d))
    requires var there := Move(t, s, d, o1, c1);
             && there.error == None && ParentClosed(there.tree) && d in there.tree && Present(there.tree, d)
             && Move(there.tree, d, s, o2, c2).error == None
             && (forall p :: IsAncestor(p, s) ==> p in there.tree)
    ensures var back := Move(Move(t, s, d, o1, c1).tree, d, s, o2, c2).tree;
            (q in back <==> q in t) && (q in t ==> back[q] == t[q])
  {
    hide Copied, ParentClosed, Move;
    var u := Move(t, s, d, o1, c1).tree;
    MoveMeaning(u, d, s, o2, c2, q);
    MoveMeaning(t, s, d, o1, c1, q);
    ParentsCanBeCreated(t, d);
    NothingBelow(t, d);
    if s <= q {
      var away := d + q[|s|..];
      MoveMeaning(t, s, d, o1, c1, away);
      assert s + away[|d|..] == q;
    }
  }
}
