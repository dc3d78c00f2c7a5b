/** Path resolution below the configured root, and the printer of root-relative paths. */
module Paths {

  import opened Base
  import opened TextEdit
  import opened FileTree

  function Dot(): Text {
    [0x2E]
  }

  function DotDot(): Text {
    [0x2E, 0x2E]
  }

  function Separator(): (t: Text)
    ensures |t| == 1
  {
    [SLASH]
  }

  /** An ordinary component: not empty, no separator, neither `.` nor `..`. */
  predicate IsName(part: Text) {
    |part| > 0 && SLASH !in part && part != Dot() && part != DotDot()
  }

  predicate AllNames(parts: Path) {
    forall i :: 0 <= i < |parts| ==> IsName(parts[i])
  }

  /** What parsing yields: neither empty nor holding a separator. */
  predicate AllComponents(parts: Path) {
    forall i :: 0 <= i < |parts| ==> |parts[i]| > 0 && SLASH !in parts[i]
  }

  lemma {:induction false} NamesAreComponents(parts: Path)
    requires AllNames(parts)
    ensures AllComponents(parts)
  {
  }

  // ---------- parsing and printing ----------

  datatype RawPath = RawPath(absolute: bool, parts: Path)

  function NonEmpty(parts: Path): Path {
    if |parts| == 0 then []
    else (if |parts[0]| > 0 then [parts[0]] else []) + NonEmpty(parts[1..])
  }

  /** `fs::path(text)`, with repeated and trailing separators dropped. */
  function ParsePath(text: Text): RawPath {
    RawPath(|text| > 0 && text[0] == SLASH, NonEmpty(Split(text, Separator())))
  }

  /** Generic form of a relative path; the empty path is the directory itself. */
  function PrintRelative(parts: Path): Text {
    if |parts| == 0 then Dot() else Join(parts, Separator())
  }

  function PrintAbsolute(parts: Path): Text {
    if |parts| == 0 then Separator() else Separator() + Join(parts, Separator())
  }

  lemma {:induction false} NonEmptyKeeps(parts: Path)
    requires forall i :: 0 <= i < |parts| ==> |parts[i]| > 0
    ensures NonEmpty(parts) == parts
  {
    if |parts| > 0 {
      NonEmptyKeeps(parts[1..]);
      assert parts == [parts[0]] + parts[1..];
    }
  }

  lemma {:induction false} ComponentsAvoidSeparator(parts: Path)
    requires AllComponents(parts)
    ensures forall i :: 0 <= i < |parts| ==> ShareNoByte(Separator(), parts[i]) && |parts[i]| > 0
  {
  }

  lemma {:induction false} JoinStart(parts: Path, sep: Text)
    requires |parts| > 0 && |parts[0]| > 0
    ensures |Join(parts, sep)| > 0 && Join(parts, sep)[0] == parts[0][0]
  {
  }

  /** Components printed and parsed again are the same components. */
  lemma {:induction false} ParsePrintRelative(parts: Path)
    requires AllComponents(parts) && |parts| > 0
    ensures ParsePath(PrintRelative(parts)) == RawPath(false, parts)
  {
    hide Split, Join;
    ComponentsAvoidSeparator(parts);
    NonEmptyKeeps(parts);
    SplitOfJoin(parts, Separator());
    JoinStart(parts, Separator());
    assert parts[0][0] in parts[0];
  }

  lemma {:induction false} ParseDot()
    ensures ParsePath(Dot()) == RawPath(false, [Dot()])
  {
    assert !OccursAt(Dot(), Separator(), 0) by { assert Dot()[0..1][0] == 0x2E; }
    assert Split(Dot(), Separator()) == [Dot()];
    assert NonEmpty([Dot()]) == [Dot()] + NonEmpty([]);
  }

  lemma {:induction false} ParsePrintAbsolute(parts: Path)
    requires AllNames(parts)
    ensures ParsePath(PrintAbsolute(parts)) == RawPath(true, parts)
  {
    hide Split, Join, Find;
    var sep := Separator();
    var rest := if |parts| == 0 then [[]] else parts;
    NamesAreComponents(parts);
    ComponentsAvoidSeparator(parts);
    NonEmptyKeeps(parts);
    SplitOfJoin(rest, sep);
    JoinOne(rest, sep);
    SplitLeadingSeparator(Join(rest, sep));
    assert PrintAbsolute(parts) == sep + Join(rest, sep);
    assert ([[]] + rest)[1..] == rest;
    if |parts| == 0 {
      assert rest[1..] == [];
    }
  }

  lemma {:induction false} JoinOne(parts: Path, sep: Text)
    requires |parts| > 0
    ensures |parts| == 1 ==> Join(parts, sep) == parts[0]
  {
  }

  lemma {:induction false} SplitLeadingSeparator(text: Text)
    ensures Split(Separator() + text, Separator()) == [[]] + Split(text, Separator())
  {
    var whole := Separator() + text;
    assert OccursAt(whole, Separator(), 0);
    assert whole[1..] == text && whole[..0] == [];
  }

  // ---------- lexical normal form ----------

  /** One component on the stack of a path that is being normalised. */
  function Push(absolute: bool, stack: Path, part: Text): Path {
    if part == Dot() then stack
    else if part == DotDot() then
      if |stack| > 0 && stack[|stack| - 1] != DotDot() then stack[..|stack| - 1]
      else if absolute then stack
      else stack + [part]
    else stack + [part]
  }

  function NormalizeFrom(absolute: bool, stack: Path, parts: Path): Path
    decreases |parts|, stack
  {
    if |parts| == 0 then stack else NormalizeFrom(absolute, Push(absolute, stack, parts[0]), parts[1..])
  }

  /** `lexically_normal` on the components. */
  function Normalize(absolute: bool, parts: Path): Path {
    NormalizeFrom(absolute, [], parts)
  }

  /** The normal form of ISO C++20 [fs.path.generic]: no `.`, and `..` only in front, where an absolute
      path has none. */
  predicate IsNormal(absolute: bool, parts: Path) {
    && (forall i :: 0 <= i < |parts| ==> parts[i] != Dot())
    && (forall i :: 0 <= i < |parts| && parts[i] == DotDot() ==> !absolute && (i > 0 ==> parts[i - 1] == DotDot()))
  }

  lemma {:induction false} PushNormal(absolute: bool, stack: Path, part: Text)
    requires IsNormal(absolute, stack)
    ensures IsNormal(absolute, Push(absolute, stack, part))
  {
  }

  lemma {:induction false} NormalizeFromIsNormal(absolute: bool, stack: Path, parts: Path)
    requires IsNormal(absolute, stack)
    ensures IsNormal(absolute, NormalizeFrom(absolute, stack, parts))
    decreases |parts|
  {
    if |parts| > 0 {
      PushNormal(absolute, stack, parts[0]);
      NormalizeFromIsNormal(absolute, Push(absolute, stack, parts[0]), parts[1..]);
    }
  }

  lemma {:induction false} NormalIsKept(absolute: bool, stack: Path, parts: Path)
    requires IsNormal(absolute, stack + parts)
    ensures NormalizeFrom(absolute, stack, parts) == stack + parts
    decreases |parts|
  {
    if |parts| > 0 {
      var whole := stack + parts;
      assert whole[|stack|] == parts[0];
      assert |stack| > 0 ==> whole[|stack| - 1] == stack[|stack| - 1];
      assert Push(absolute, stack, parts[0]) == stack + [parts[0]];
      assert stack + [parts[0]] + parts[1..] == whole;
      NormalIsKept(absolute, stack + [parts[0]], parts[1..]);
    } else {
      assert stack + parts == stack;
    }
  }

  /** Normalising always ends in normal form, changes nothing that is in normal form, and is idempotent. */
  lemma {:induction false} NormalForm(absolute: bool, parts: Path)
    ensures IsNormal(absolute, Normalize(absolute, parts))
    ensures IsNormal(absolute, parts) <==> Normalize(absolute, parts) == parts
    ensures Normalize(absolute, Normalize(absolute, parts)) == Normalize(absolute, parts)
  {
    NormalizeFromIsNormal(absolute, [], parts);
    var normal := Normalize(absolute, parts);
    assert [] + normal == normal && [] + parts == parts;
    NormalIsKept(absolute, [], normal);
    if IsNormal(absolute, parts) {
      NormalIsKept(absolute, [], parts);
    }
  }

  // ---------- prefixes ----------

  /** `path_has_prefix`: both paths walked component by component. */
  method PathHasPrefix(prefix: Path, path: Path) returns (r: bool)
    ensures r <==> prefix <= path
  {
    var i := 0;
    while i < |prefix|
      invariant i <= |prefix| && i <= |path| && prefix[..i] == path[..i]
    {
      if i == |path| || prefix[i] != path[i] {
        return false;
      }
      i := i + 1;
    }
    return true;
  }

  // ---------- following a path ----------

  datatype Lookup = Found(at: Path, links: nat) | Missing | TooManyLinks

  /** What the operating system does with the components `rest` from `at` on, with `links` links still allowed. */
  function Follow(t: Tree, at: Path, rest: Path, links: nat): Lookup
    decreases links, |rest|, t
  {
    if |rest| == 0 then Found(at, links)
    else if !IsDir(t, at) then Missing
    else if rest[0] == Dot() then Follow(t, at, rest[1..], links)
    else if rest[0] == DotDot() then Follow(t, Parent(at), rest[1..], links)
    else
      var next := at + [rest[0]];
      if next !in t then Missing
      else if !t[next].LinkNode? then Follow(t, next, rest[1..], links)
      else if links == 0 then TooManyLinks
      else
        var target := ParsePath(t[next].target);
        Follow(t, if target.absolute then [] else at, target.parts + rest[1..], links - 1)
  }

  /** A tree in which every node lies in a directory and all names are names. */
  ghost predicate WellFormed(t: Tree) {
    ParentClosed(t) && forall p :: p in t ==> AllNames(p)
  }

  /** The path of an existing node that is not a link. */
  predicate IsReal(t: Tree, p: Path) {
    |p| == 0 || (p in t && !t[p].LinkNode?)
  }

  /** Following a path in two parts. */
  lemma {:induction false} FollowAppend(t: Tree, at: Path, a: Path, b: Path, links: nat)
    ensures Follow(t, at, a + b, links)
         == match Follow(t, at, a, links)
            case Found(x, left) => Follow(t, x, b, left)
            case other => other
    decreases links, |a|
  {
    hide ParsePath, Dot, DotDot;
    var whole := a + b;
    if |a| == 0 {
      assert whole == b;
    } else {
      assert whole[0] == a[0] && whole[1..] == a[1..] + b;
      if IsDir(t, at) {
        var next := at + [a[0]];
        if a[0] == Dot() {
          FollowAppend(t, at, a[1..], b, links);
        } else if a[0] == DotDot() {
          FollowAppend(t, Parent(at), a[1..], b, links);
        } else if next in t && !t[next].LinkNode? {
          FollowAppend(t, next, a[1..], b, links);
        } else if next in t && links > 0 {
          var target := ParsePath(t[next].target);
          assert target.parts + whole[1..] == target.parts + a[1..] + b;
          FollowAppend(t, if target.absolute then [] else at, target.parts + a[1..], b, links - 1);
        }
      }
    }
  }

  /** More links allowed change nothing but the failure for want of them. */
  lemma {:induction false} MoreLinks(t: Tree, at: Path, rest: Path, links: nat, more: nat)
    ensures var r, u := Follow(t, at, rest, links), Follow(t, at, rest, links + more);
            && (r.Found? ==> r.links <= links && u == Found(r.at, r.links + more))
            && (r.Missing? ==> u.Missing?)
    decreases links, |rest|
  {
    hide ParsePath, Dot, DotDot;
    if |rest| > 0 && IsDir(t, at) {
      var next := at + [rest[0]];
      if rest[0] == Dot() {
        MoreLinks(t, at, rest[1..], links, more);
      } else if rest[0] == DotDot() {
        MoreLinks(t, Parent(at), rest[1..], links, more);
      } else if next in t && !t[next].LinkNode? {
        MoreLinks(t, next, rest[1..], links, more);
      } else if next in t && links > 0 {
        var target := ParsePath(t[next].target);
        MoreLinks(t, if target.absolute then [] else at, target.parts + rest[1..], links - 1, more);
      }
    }
  }

  /** Whatever links lie on the way, what is found is the path of a node that is no link. */
  lemma {:induction false} FoundIsReal(t: Tree, at: Path, rest: Path, links: nat)
    requires WellFormed(t) && IsReal(t, at)
    ensures var r := Follow(t, at, rest, links); r.Found? ==> IsReal(t, r.at)
    decreases links, |rest|
  {
    hide ParsePath, Dot, DotDot, AllNames, IsName, WellFormed;
    RealParent(t, at);
    if |rest| > 0 && IsDir(t, at) {
      var next := at + [rest[0]];
      if rest[0] == Dot() {
        FoundIsReal(t, at, rest[1..], links);
      } else if rest[0] == DotDot() {
        FoundIsReal(t, Parent(at), rest[1..], links);
      } else if next in t && !t[next].LinkNode? {
        FoundIsReal(t, next, rest[1..], links);
      } else if next in t && links > 0 {
        var target := ParsePath(t[next].target);
        FoundIsReal(t, if target.absolute then [] else at, target.parts + rest[1..], links - 1);
      }
    }
  }

  lemma {:induction false} FollowOne(t: Tree, at: Path, name: Text, links: nat)
    requires IsDir(t, at) && at + [name] in t && !t[at + [name]].LinkNode? && IsName(name)
    ensures Follow(t, at, [name], links) == Found(at + [name], links)
  {
    assert |[name][1..]| == 0;
  }

  /** A real path leads to itself and uses up no link. */
  lemma {:induction false} RealLeadsToItself(t: Tree, p: Path, links: nat)
    requires WellFormed(t) && IsReal(t, p)
    ensures AllNames(p) && Follow(t, [], p, links) == Found(p, links)
    decreases |p|
  {
    hide Follow, IsName, AllNames, WellFormed, IsReal;
    RealParent(t, p);
    if |p| == 0 {
      FollowNothing(t, p, links);
    } else {
      var last := p[|p| - 1];
      assert p == Parent(p) + [last];
      RealLeadsToItself(t, Parent(p), links);
      FollowAppend(t, [], Parent(p), [last], links);
      FollowOne(t, Parent(p), last, links);
    }
  }

  lemma {:induction false} RealParent(t: Tree, p: Path)
    requires WellFormed(t) && IsReal(t, p)
    ensures AllNames(p)
    ensures |p| > 0 ==>
      && IsDir(t, Parent(p)) && IsReal(t, Parent(p)) && IsName(p[|p| - 1]) && p in t && !t[p].LinkNode?
  {
    hide IsName;
  }

  lemma {:induction false} FollowNothing(t: Tree, p: Path, links: nat)
    requires |p| == 0
    ensures Follow(t, [], p, links) == Found(p, links)
  {
  }

  lemma {:induction false} PrefixIsReal(t: Tree, p: Path, k: nat)
    requires WellFormed(t) && IsReal(t, p) && k <= |p|
    ensures IsReal(t, p[..k])
  {
    hide AllNames;
    if 0 < k {
      AncestorsAreDirs(t, p[..k], p);
    }
  }

  // ---------- resolution ----------

  /** All nodes from `/` on, and how many links the operating system follows for one path. */
  datatype FileSystem = FileSystem(tree: Tree, maxLinks: nat)

  datatype ResolveError = EscapesRoot | DoesNotExist | LinkLoop

  /** `status` of an absolute path. */
  function Status(fsys: FileSystem, p: Path): Lookup {
    Follow(fsys.tree, [], p, fsys.maxLinks)
  }

  /** How many leading components exist, when the first `k` do. */
  function Existing(fsys: FileSystem, p: Path, k: nat): (n: nat)
    requires k <= |p|
    ensures k <= n <= |p|
    ensures n < |p| ==> !Status(fsys, p[..n + 1]).Found?
    ensures forall j :: k < j <= n ==> Status(fsys, p[..j]).Found?
    decreases |p| - k
  {
    if k < |p| && Status(fsys, p[..k + 1]).Found? then Existing(fsys, p, k + 1) else k
  }

  /** `weakly_canonical`: the leading components that exist are replaced by what they lead to, the others kept. */
  function WeaklyCanonical(fsys: FileSystem, p: Path): Result<Path, ResolveError> {
    match Status(fsys, p)
    case Found(at, _) => Ok(at)
    case TooManyLinks => Err(LinkLoop)
    case Missing =>
      var n := Existing(fsys, p, 0);
      var front := Status(fsys, p[..n]);
      Ok(Normalize(true, (if front.Found? then front.at else []) + p[n..]))
  }

  /** Absolute client paths outside the root are taken as relative to it. */
  function NormalizeClientPath(root: Path, client: RawPath): RawPath {
    if !client.absolute then client else
    var normal := Normalize(true, client.parts);
    RawPath(root <= normal, normal)
  }

  function ClientPath(raw: Text): RawPath {
    ParsePath(if |raw| == 0 then Dot() else raw)
  }

  /** The absolute path handed to `weakly_canonical`. */
  function Combined(root: Path, raw: Text): Path {
    var p := NormalizeClientPath(root, ClientPath(raw));
    if p.absolute then p.parts else Normalize(true, root + p.parts)
  }

  function Resolve(fsys: FileSystem, root: Path, raw: Text, mustExist: bool): Result<Path, ResolveError> {
    var resolved :- WeaklyCanonical(fsys, Combined(root, raw));
    if !(root <= resolved) then Err(EscapesRoot)
    else if mustExist && !Status(fsys, resolved).Found? then Err(DoesNotExist)
    else Ok(resolved)
  }

  /** What is handed to `weakly_canonical` has no `.` or `..` left, whatever the client sent. */
  lemma {:induction false} CombinedIsNormal(root: Path, raw: Text)
    requires AllNames(root)
    ensures AllNames(Combined(root, raw)) && IsNormal(true, Combined(root, raw))
  {
    hide ParsePath, Normalize, AllNames, AllComponents, IsNormal;
    var client := ClientPath(raw);
    ParsedPartsAreComponents(if |raw| == 0 then Dot() else raw);
    NamesAreComponents(root);
    NormalizeIsNames(client.parts);
    NormalizeIsNames(root + client.parts);
    NormalizeIsNames(root + Normalize(true, client.parts));
    ComponentsAppend(root, client.parts);
    ComponentsAppend(root, Normalize(true, client.parts));
  }

  lemma {:induction false} ComponentsAppend(a: Path, b: Path)
    requires AllComponents(a) && AllComponents(b)
    ensures AllComponents(a + b)
  {
  }

  lemma {:induction false} NormalizeIsNames(parts: Path)
    ensures var normal := Normalize(true, parts);
            IsNormal(true, normal) && (AllComponents(parts) ==> AllComponents(normal) && AllNames(normal))
  {
    hide AllComponents, IsNormal;
    NormalForm(true, parts);
    NoComponents();
    if AllComponents(parts) {
      NormalizeKeepsComponents(true, [], parts);
      NormalComponentsAreNames(Normalize(true, parts));
    }
  }

  lemma {:induction false} NoComponents()
    ensures AllComponents([])
  {
  }

  lemma {:induction false} NormalComponentsAreNames(parts: Path)
    requires AllComponents(parts) && IsNormal(true, parts)
    ensures AllNames(parts)
  {
  }

  lemma {:induction false} NormalizeKeepsComponents(absolute: bool, stack: Path, parts: Path)
    requires AllComponents(stack) && AllComponents(parts)
    ensures AllComponents(NormalizeFrom(absolute, stack, parts))
    decreases |parts|
  {
    if |parts| > 0 {
      NormalizeKeepsComponents(absolute, Push(absolute, stack, parts[0]), parts[1..]);
    }
  }

  lemma {:induction false} NonEmptyParts(parts: Path)
    requires forall i :: 0 <= i < |parts| ==> SLASH !in parts[i]
    ensures AllComponents(NonEmpty(parts))
  {
    if |parts| > 0 {
      NonEmptyParts(parts[1..]);
    }
  }

  lemma {:induction false} ParsedPartsAreComponents(text: Text)
    ensures AllComponents(ParsePath(text).parts)
  {
    hide Find, Join;
    var sep := Separator();
    var parts := Split(text, sep);
    SplitIsLeftmost(text, sep);
    forall i | 0 <= i < |parts| ensures SLASH !in parts[i] {
      SeparatorIsFound(parts[i]);
    }
    NonEmptyParts(parts);
  }

  lemma {:induction false} SeparatorIsFound(part: Text)
    ensures SLASH in part ==>
      Find(part, Separator(), 0).Some? && Find(part + Separator(), Separator(), 0) != Some(|part|)
  {
    hide Find;
    var sep := Separator();
    if SLASH in part {
      var j :| 0 <= j < |part| && part[j] == SLASH;
      assert part[j..j + 1] == sep && (part + sep)[j..j + 1] == sep;
      assert OccursAt(part, sep, j) && OccursAt(part + sep, sep, j);
    }
  }

  /** Where two paths part. */
  function CommonLength(a: Path, b: Path): (k: nat)
    ensures k <= |a| && k <= |b| && a[..k] == b[..k]
    ensures k < |a| && k < |b| ==> a[k] != b[k]
  {
    if |a| == 0 || |b| == 0 || a[0] != b[0] then 0
    else
      var k := CommonLength(a[1..], b[1..]);
      assert a[..k + 1] == [a[0]] + a[1..][..k] && b[..k + 1] == [b[0]] + b[1..][..k];
      k + 1
  }

  function Ups(n: nat): (ups: Path)
    ensures |ups| == n && forall i :: 0 <= i < n ==> ups[i] == DotDot()
  {
    seq(n, _ => DotDot())
  }

  /** `lexically_relative` on absolute normal paths. */
  function LexicallyRelative(path: Path, base: Path): Path {
    var k := CommonLength(path, base);
    Ups(|base| - k) + path[k..]
  }

  /** `relative_string` for paths that are canonical already. */
  function RelativeString(root: Path, path: Path): Text {
    PrintRelative(LexicallyRelative(path, root))
  }

  lemma {:induction false} RelativeBelow(root: Path, path: Path)
    requires root <= path
    ensures LexicallyRelative(path, root) == path[|root|..]
  {
    var k := CommonLength(path, root);
    if k < |root| {
      assert path[k] == root[k];
    }
  }

  lemma {:induction false} NamesAreNormal(parts: Path)
    requires AllNames(parts)
    ensures Normalize(true, parts) == parts
  {
    NormalForm(true, parts);
  }

  lemma {:induction false} ClimbThenNames(n: nat, names: Path)
    requires AllNames(names)
    ensures var parts := Ups(n) + names;
            AllComponents(parts) && IsNormal(false, parts) && Climb(parts) == n && parts[n..] == names
  {
    hide Climb;
    var parts := Ups(n) + names;
    assert SLASH !in DotDot();
    forall i | 0 <= i < |parts|
      ensures if i < n then parts[i] == DotDot() else parts[i] == names[i - n] && IsName(parts[i])
    {
    }
    ClimbIs(parts, n);
  }

  lemma {:induction false} RelativeParts(root: Path, q: Path)
    requires AllNames(root) && AllNames(q)
    ensures var parts := LexicallyRelative(q, root);
            AllComponents(parts) && IsNormal(false, parts) && From(root, parts) == q
  {
    hide IsName, IsNormal, Climb, AllComponents, Ups, CommonLength;
    var k := CommonLength(q, root);
    assert AllNames(q[k..]);
    ClimbThenNames(|root| - k, q[k..]);
    assert q == q[..k] + q[k..];
  }

  /** Following a printed path from the root leads to the path that was printed, above the root or below. */
  lemma {:induction false} CombinedRelativeString(root: Path, q: Path)
    requires AllNames(root) && AllNames(q)
    ensures Combined(root, RelativeString(root, q)) == q
  {
    hide ParsePath, PrintRelative, Normalize, LexicallyRelative, IsName, From, IsNormal, AllComponents;
    var parts := LexicallyRelative(q, root);
    RelativeParts(root, q);
    NormalForm(false, parts);
    CombinedRelative(root, parts);
    PrintedIsNotEmpty(parts);
    if |parts| == 0 {
      PrintNothing(parts);
      ParseDot();
      DotIsDropped(root);
      assert root + parts == root;
      NamesAreNormal(root);
    } else {
      ParsePrintRelative(parts);
    }
  }

  /** The printer and the resolver undo each other exactly under the root: resolving the root-relative
      string of a canonical path gives the path back if it lies under the root and is refused if not. */
  lemma {:induction false} ResolveRelativeString(fsys: FileSystem, root: Path, q: Path, mustExist: bool)
    requires AllNames(root) && AllNames(q) && WeaklyCanonical(fsys, q) == Ok(q)
    ensures Resolve(fsys, root, RelativeString(root, q), mustExist)
         == if !(root <= q) then Err(EscapesRoot)
            else if mustExist && !Status(fsys, q).Found? then Err(DoesNotExist)
            else Ok(q)
  {
    hide RelativeString, Combined, WeaklyCanonical, Status, AllNames;
    CombinedRelativeString(root, q);
  }

  lemma {:induction false} PrintedIsNotEmpty(parts: Path)
    requires AllComponents(parts)
    ensures |PrintRelative(parts)| > 0
  {
    if |parts| > 0 {
      JoinStart(parts, Separator());
    }
  }

  lemma {:induction false} PrintNothing(parts: Path)
    requires |parts| == 0
    ensures PrintRelative(parts) == Dot()
  {
  }

  lemma {:induction false} NormalizeAppend(absolute: bool, stack: Path, a: Path, b: Path)
    ensures NormalizeFrom(absolute, stack, a + b) == NormalizeFrom(absolute, NormalizeFrom(absolute, stack, a), b)
    decreases |a|
  {
    if |a| == 0 {
      assert a + b == b;
    } else {
      assert (a + b)[1..] == a[1..] + b;
      NormalizeAppend(absolute, Push(absolute, stack, a[0]), a[1..], b);
    }
  }

  lemma {:induction false} DotIsDropped(root: Path)
    requires AllNames(root)
    ensures Normalize(true, root + [Dot()]) == root
  {
    NormalizeAppend(true, [], root, [Dot()]);
    NamesAreNormal(root);
    assert [Dot()][1..] == [];
  }

  /** Where a path stops to exist: `solid` is what the first `n` components lead to, and nothing has
      the next one as its name there, not even with all links still allowed. */
  lemma {:induction false} StopsExisting(fsys: FileSystem, p: Path) returns (n: nat, solid: Path)
    requires WellFormed(fsys.tree) && Status(fsys, p).Missing?
    ensures n < |p| && IsReal(fsys.tree, solid) && Follow(fsys.tree, solid, [p[n]], fsys.maxLinks).Missing?
    ensures WeaklyCanonical(fsys, p) == Ok(Normalize(true, solid + p[n..]))
  {
    hide Follow, WellFormed, IsReal, Normalize;
    n := Existing(fsys, p, 0);
    FollowNothing(fsys.tree, p[..0], fsys.maxLinks);
    assert p[..|p|] == p;
    var front := Status(fsys, p[..n]);
    solid := front.at;
    RealStart(fsys.tree);
    FoundIsReal(fsys.tree, [], p[..n], fsys.maxLinks);
    assert p[..n + 1] == p[..n] + [p[n]];
    FollowAppend(fsys.tree, [], p[..n], [p[n]], fsys.maxLinks);
    assert p == p[..n + 1] + p[n + 1..];
    FollowAppend(fsys.tree, [], p[..n + 1], p[n + 1..], fsys.maxLinks);
    MoreLinks(fsys.tree, [], p[..n], fsys.maxLinks, 0);
    MoreLinks(fsys.tree, solid, [p[n]], front.links, fsys.maxLinks - front.links);
  }

  lemma {:induction false} RealStart(t: Tree)
    ensures IsReal(t, [])
  {
  }

  lemma {:induction false} ExistingIs(fsys: FileSystem, p: Path, k: nat, n: nat)
    requires k <= n < |p| && !Status(fsys, p[..n + 1]).Found?
    requires forall j :: k < j <= n ==> Status(fsys, p[..j]).Found?
    ensures Existing(fsys, p, k) == n
    decreases n - k
  {
    hide Status;
    if k < n {
      ExistingIs(fsys, p, k + 1, n);
    }
  }

  /** A real path followed by components the first of which leads to nothing is its own canonical form. */
  lemma {:induction false} CanonicalAgain(fsys: FileSystem, solid: Path, rest: Path)
    requires WellFormed(fsys.tree) && IsReal(fsys.tree, solid) && AllNames(solid + rest)
    requires |rest| > 0 && Follow(fsys.tree, solid, [rest[0]], fsys.maxLinks).Missing?
    ensures WeaklyCanonical(fsys, solid + rest) == Ok(solid + rest)
    ensures Existing(fsys, solid + rest, 0) == |solid| && Status(fsys, solid + rest).Missing?
  {
    hide Follow, IsReal, AllNames, Normalize, WellFormed;
    var q, n, t, max := solid + rest, |solid|, fsys.tree, fsys.maxLinks;
    assert q[..n] == solid && q[..n + 1] == solid + [rest[0]] && q == q[..n + 1] + rest[1..];
    RealLeadsToItself(t, solid, max);
    FollowAppend(t, [], solid, [rest[0]], max);
    FollowAppend(t, [], q[..n + 1], rest[1..], max);
    forall j | 0 < j <= n ensures Status(fsys, q[..j]).Found? {
      PrefixIsReal(t, solid, j);
      RealLeadsToItself(t, solid[..j], max);
      assert q[..j] == solid[..j];
    }
    ExistingIs(fsys, q, 0, n);
    assert q[..n] + q[n..] == q;
    NamesAreNormal(q);
  }

  /** With whatever links: a canonical form is its own canonical form. What exists of it is real; so no
      prefix of it is a link, except that the first one that does not exist may be a dangling link. */
  lemma {:induction false} CanonicalIsStable(fsys: FileSystem, p: Path)
    requires WellFormed(fsys.tree) && AllNames(p) && WeaklyCanonical(fsys, p).Ok?
    ensures var q := WeaklyCanonical(fsys, p).value;
            && AllNames(q) && WeaklyCanonical(fsys, q) == Ok(q)
            && (Status(fsys, q).Found? ==> IsReal(fsys.tree, q) && Status(fsys, q).at == q)
            && (!Status(fsys, q).Found? ==> Existing(fsys, q, 0) < |q| && IsReal(fsys.tree, q[..Existing(fsys, q, 0)]))
  {
    hide Follow, IsReal, AllNames, Normalize, WellFormed;
    var t, max := fsys.tree, fsys.maxLinks;
    if Status(fsys, p).Found? {
      RealStart(t);
      FoundIsReal(t, [], p, max);
      RealLeadsToItself(t, Status(fsys, p).at, max);
    } else {
      var n, solid := StopsExisting(fsys, p);
      RealLeadsToItself(t, solid, max);
      NamesAppend(solid, p, n);
      NamesAreNormal(solid + p[n..]);
      CanonicalAgain(fsys, solid, p[n..]);
      assert (solid + p[n..])[..|solid|] == solid;
    }
  }

  lemma {:induction false} NamesAppend(front: Path, p: Path, n: nat)
    requires AllNames(front) && AllNames(p) && n <= |p|
    ensures AllNames(front + p[n..])
  {
  }

  /** With whatever links: a result lies under the root, and resolving it again, printed as an absolute
      or as a root-relative path, gives the same result. */
  lemma {:induction false} ResolveIsIdempotent(fsys: FileSystem, root: Path, raw: Text, mustExist: bool)
    requires WellFormed(fsys.tree) && AllNames(root)
    ensures var r := Resolve(fsys, root, raw, mustExist);
            r.Ok? ==> (&& root <= r.value
                       && Resolve(fsys, root, PrintAbsolute(r.value), mustExist) == r
                       && Resolve(fsys, root, RelativeString(root, r.value), mustExist) == r)
  {
    hide ParsePath, PrintAbsolute, PrintRelative, Normalize, LexicallyRelative, WeaklyCanonical, WellFormed, Status,
      Combined;
    var r := Resolve(fsys, root, raw, mustExist);
    if r.Ok? {
      var q := r.value;
      CombinedIsNormal(root, raw);
      CanonicalIsStable(fsys, Combined(root, raw));
      CombinedAbsolute(root, q);
      ResolveRelativeString(fsys, root, q, mustExist);
    }
  }

  lemma {:induction false} CombinedAbsolute(root: Path, q: Path)
    requires AllNames(q) && root <= q
    ensures Combined(root, PrintAbsolute(q)) == q
  {
    hide ParsePath, PrintAbsolute, Normalize;
    ParsePrintAbsolute(q);
    PrintAbsoluteIsNotEmpty(q);
    NamesAreNormal(q);
  }

  /** What it means to lie under the root, with whatever links: an existing result leads to itself, and
      nothing on the way to it is a link. A result that does not exist can go through one link only: a
      dangling one, as the first component that does not exist. */
  lemma {:induction false} ResultsHoldNoLiveLink(fsys: FileSystem, root: Path, raw: Text, mustExist: bool)
    requires WellFormed(fsys.tree) && AllNames(root) && IsDir(fsys.tree, root)
    ensures var r := Resolve(fsys, root, raw, mustExist);
            r.Ok? ==> var q, there := r.value, Status(fsys, r.value);
                      && (there.Found? ==> there.at == q && forall j :: 0 <= j <= |q| ==> IsReal(fsys.tree, q[..j]))
                      && (!there.Found? ==> !mustExist && forall j :: |root| <= j <= |q| ==>
                            (q[..j] in fsys.tree && fsys.tree[q[..j]].LinkNode? ==> j == Existing(fsys, q, 0) + 1))
  {
    hide ParsePath, Normalize, WeaklyCanonical, WellFormed, Status, Combined, IsReal;
    var r := Resolve(fsys, root, raw, mustExist);
    if r.Ok? {
      var q := r.value;
      CombinedIsNormal(root, raw);
      CanonicalIsStable(fsys, Combined(root, raw));
      var n := if Status(fsys, q).Found? then |q| else Existing(fsys, q, 0);
      assert q[..|q|] == q;
      forall j | 0 <= j <= n ensures IsReal(fsys.tree, q[..j]) {
        PrefixIsReal(fsys.tree, q[..n], j);
        assert q[..n][..j] == q[..j];
      }
      forall j | n < j <= |q| && q[..j] in fsys.tree ensures j == n + 1 {
        if j > n + 1 {
          BelowNothing(fsys, q, n, j);
        }
      }
      RealIsNoLink(fsys.tree);
    }
  }

  lemma {:induction false} RealIsNoLink(t: Tree)
    requires WellFormed(t)
    ensures forall p :: IsReal(t, p) && p in t ==> !t[p].LinkNode?
  {
  }

  /** Nothing lies below a component that does not exist. */
  lemma {:induction false} BelowNothing(fsys: FileSystem, q: Path, n: nat, j: nat)
    requires WellFormed(fsys.tree) && n + 1 < j <= |q| && q[..j] in fsys.tree
    ensures Status(fsys, q[..n + 1]).Found?
  {
    hide AllNames, Follow;
    AncestorsAreDirs(fsys.tree, q[..n + 1], q[..j]);
    RealLeadsToItself(fsys.tree, q[..n + 1], fsys.maxLinks);
  }

  lemma {:induction false} PrintAbsoluteIsNotEmpty(parts: Path)
    ensures |PrintAbsolute(parts)| > 0
  {
  }

  // ---------- where a link leads ----------

  lemma {:induction false} FollowUps(t: Tree, at: Path, n: nat, links: nat)
    requires WellFormed(t) && IsReal(t, at) && IsDir(t, at) && n <= |at|
    ensures Follow(t, at, Ups(n), links) == Found(at[..|at| - n], links)
    ensures IsDir(t, at[..|at| - n]) && IsReal(t, at[..|at| - n])
    decreases n
  {
    hide AllNames, ParsePath;
    if n == 0 {
      assert at[..|at|] == at;
    } else {
      assert Ups(n)[1..] == Ups(n - 1) && Parent(at)[..|at| - n] == at[..|at| - n];
      FollowUps(t, Parent(at), n - 1, links);
    }
  }

  /** A path from a real directory of which the rest is real as well. */
  lemma {:induction false} FollowReal(t: Tree, at: Path, rest: Path, links: nat)
    requires WellFormed(t) && IsReal(t, at) && IsReal(t, at + rest)
    ensures Follow(t, at, rest, links) == Found(at + rest, links)
  {
    hide AllNames, Follow, WellFormed, IsReal;
    RealLeadsToItself(t, at, links);
    RealLeadsToItself(t, at + rest, links);
    FollowAppend(t, [], at, rest, links);
  }

  /** A link that names a real node, by its absolute path or relative to the directory of the link, leads
      to that node, however far up the relative path goes. */
  lemma {:induction false} LinkLeadsToTarget(fsys: FileSystem, dir: Path, name: Text, q: Path)
    requires WellFormed(fsys.tree) && fsys.maxLinks > 0
    requires dir + [name] in fsys.tree && IsReal(fsys.tree, q)
    requires || fsys.tree[dir + [name]] == LinkNode(PrintAbsolute(q))
             || fsys.tree[dir + [name]] == LinkNode(RelativeString(dir, q))
    ensures WeaklyCanonical(fsys, dir + [name]) == Ok(q)
  {
    hide AllNames, Follow, ParsePath, PrintAbsolute, PrintRelative, LexicallyRelative;
    var t, max := fsys.tree, fsys.maxLinks;
    LinkStep(t, dir, name, max);
    RealLeadsToItself(t, dir, max);
    RealLeadsToItself(t, q, max - 1);
    FollowAppend(t, [], dir, [name], max);
    if t[dir + [name]] == LinkNode(PrintAbsolute(q)) {
      ParsePrintAbsolute(q);
    } else {
      ParsedRelative(dir, q);
      FollowRelative(t, dir, q, max - 1);
    }
  }

  lemma {:induction false} LinkStep(t: Tree, dir: Path, name: Text, links: nat)
    requires WellFormed(t) && dir + [name] in t && t[dir + [name]].LinkNode? && links > 0
    ensures IsDir(t, dir) && IsReal(t, dir)
    ensures var target := ParsePath(t[dir + [name]].target);
            Follow(t, dir, [name], links) == Follow(t, if target.absolute then [] else dir, target.parts, links - 1)
  {
    hide ParsePath;
    var p := dir + [name];
    assert Parent(p) == dir && p[|dir|] == name && IsName(p[|dir|]);
    assert ParsePath(t[p].target).parts + [name][1..] == ParsePath(t[p].target).parts;
  }

  lemma {:induction false} ParsedRelative(dir: Path, q: Path)
    requires AllNames(dir) && AllNames(q)
    ensures var p, parts := ParsePath(RelativeString(dir, q)), LexicallyRelative(q, dir);
            !p.absolute && p.parts == if |parts| == 0 then [Dot()] else parts
  {
    hide ParsePath, PrintRelative, LexicallyRelative, IsNormal, From;
    var parts := LexicallyRelative(q, dir);
    RelativeParts(dir, q);
    if |parts| == 0 {
      PrintNothing(parts);
      ParseDot();
    } else {
      ParsePrintRelative(parts);
    }
  }

  lemma {:induction false} FollowDot(t: Tree, dir: Path, links: nat)
    requires IsDir(t, dir)
    ensures Follow(t, dir, [Dot()], links) == Found(dir, links)
  {
    assert |[Dot()][1..]| == 0;
  }

  lemma {:induction false} FollowRelative(t: Tree, dir: Path, q: Path, links: nat)
    requires WellFormed(t) && IsReal(t, dir) && IsDir(t, dir) && IsReal(t, q)
    ensures Follow(t, dir, LexicallyRelative(q, dir), links) == Found(q, links)
    ensures |LexicallyRelative(q, dir)| == 0 ==> Follow(t, dir, [Dot()], links) == Found(q, links)
  {
    hide AllNames, WellFormed, ParsePath, CommonLength, Follow, IsReal;
    var k := CommonLength(q, dir);
    assert q == q[..k] + q[k..];
    FollowUps(t, dir, |dir| - k, links);
    FollowReal(t, dir[..k], q[k..], links);
    FollowAppend(t, dir, Ups(|dir| - k), q[k..], links);
    if |LexicallyRelative(q, dir)| == 0 {
      assert dir[..|dir|] == dir && q[..|q|] == q;
      FollowDot(t, dir, links);
    }
  }

  // ---------- without symbolic links ----------

  /** The running depth of a relative path, started at `depth`, never goes below the start. */
  predicate StaysBelow(depth: nat, parts: Path)
    decreases |parts|
  {
    |parts| > 0 ==>
      if parts[0] == Dot() then StaysBelow(depth, parts[1..])
      else if parts[0] == DotDot() then depth > 0 && StaysBelow(depth - 1, parts[1..])
      else StaysBelow(depth + 1, parts[1..])
  }

  /** How many `..` a relative normal form starts with. */
  function Climb(normal: Path): (u: nat)
    ensures u <= |normal| && forall i :: 0 <= i < u ==> normal[i] == DotDot()
    ensures u < |normal| ==> normal[u] != DotDot()
  {
    if |normal| > 0 && normal[0] == DotDot() then 1 + Climb(normal[1..]) else 0
  }

  lemma {:induction false} ClimbIs(normal: Path, u: nat)
    requires u <= |normal| && forall i :: 0 <= i < u ==> normal[i] == DotDot()
    requires u < |normal| ==> normal[u] != DotDot()
    ensures Climb(normal) == u
  {
  }

  lemma {:induction false} NamesBehindClimb(normal: Path, i: nat)
    requires IsNormal(false, normal) && Climb(normal) <= i < |normal|
    ensures normal[i] != DotDot()
    decreases i
  {
    if i > Climb(normal) {
      NamesBehindClimb(normal, i - 1);
    }
  }

  /** Where a relative normal form leads from a root: up by its climb, at most to the top, and down its names. */
  function From(root: Path, normal: Path): Path {
    var u := Climb(normal);
    root[..if u <= |root| then |root| - u else 0] + normal[u..]
  }

  /** What one component does to the climb and the length of a relative stack. */
  lemma {:induction false} PushClimb(stack: Path, part: Text)
    requires IsNormal(false, stack)
    ensures var u, next := Climb(stack), Push(false, stack, part);
            if part == Dot() then next == stack
            else if part == DotDot() && u < |stack| then next == stack[..|stack| - 1] && Climb(next) == u
            else next == stack + [part] && Climb(next) == (if part == DotDot() then u + 1 else u)
  {
    hide Climb, IsNormal;
    var u, next := Climb(stack), Push(false, stack, part);
    if part == Dot() {
    } else if part == DotDot() && u < |stack| {
      NamesBehindClimb(stack, |stack| - 1);
      ClimbIs(next, u);
    } else {
      ClimbIs(stack + [part], if part == DotDot() then u + 1 else u);
    }
  }

  lemma {:induction false} PushBehind(front: Path, back: Path, part: Text)
    ensures part == Dot() ==> Push(true, front + back, part) == front + back
    ensures part == DotDot() && |back| > 0 && back[|back| - 1] != DotDot() ==>
      Push(true, front + back, part) == front + back[..|back| - 1]
    ensures part != Dot() && part != DotDot() ==> Push(true, front + back, part) == front + (back + [part])
  {
    Associative(front, back, [part]);
    if |back| > 0 {
      assert (front + back)[..|front| + |back| - 1] == front + back[..|back| - 1];
    }
  }

  lemma {:induction false} ClimbRoot(root: Path, keep: nat)
    requires AllNames(root) && keep <= |root|
    ensures Push(true, root[..keep], DotDot()) == root[..if keep > 0 then keep - 1 else 0]
  {
    if keep > 0 {
      assert root[..keep][..keep - 1] == root[..keep - 1];
      assert IsName(root[keep - 1]);
    }
  }

  lemma {:induction false} PushFrom(root: Path, stack: Path, part: Text)
    requires AllNames(root) && IsNormal(false, stack)
    ensures Push(true, From(root, stack), part) == From(root, Push(false, stack, part))
  {
    hide Climb, IsNormal, AllNames, Push, Dot, DotDot;
    PushClimb(stack, part);
    var u := Climb(stack);
    var keep := if u <= |root| then |root| - u else 0;
    PushBehind(root[..keep], stack[u..], part);
    if part == Dot() {
    } else if part == DotDot() && u < |stack| {
      NamesBehindClimb(stack, |stack| - 1);
      assert stack[..|stack| - 1][u..] == stack[u..][..|stack| - u - 1];
    } else if part == DotDot() {
      ClimbRoot(root, keep);
      assert From(root, stack) == root[..keep];
      assert (stack + [part])[u + 1..] == [];
    } else {
      assert (stack + [part])[u..] == stack[u..] + [part];
    }
  }

  /** Normalising behind a root is normalising alone and then following the result from the root. */
  lemma {:induction false} NormalizeBehindRoot(root: Path, stack: Path, parts: Path)
    requires AllNames(root) && IsNormal(false, stack)
    ensures NormalizeFrom(true, From(root, stack), parts) == From(root, NormalizeFrom(false, stack, parts))
    decreases |parts|
  {
    hide IsNormal, Push, From;
    if |parts| > 0 {
      PushFrom(root, stack, parts[0]);
      PushNormal(false, stack, parts[0]);
      NormalizeBehindRoot(root, Push(false, stack, parts[0]), parts[1..]);
    }
  }

  /** A relative path climbs above its start on the way exactly when its normal form still climbs. */
  lemma {:induction false} StaysBelowExactly(stack: Path, parts: Path)
    requires IsNormal(false, stack)
    ensures Climb(NormalizeFrom(false, stack, parts)) == 0 <==> Climb(stack) == 0 && StaysBelow(|stack|, parts)
    decreases |parts|
  {
    hide Climb, IsNormal, Push;
    if |parts| > 0 {
      PushClimb(stack, parts[0]);
      PushNormal(false, stack, parts[0]);
      StaysBelowExactly(Push(false, stack, parts[0]), parts[1..]);
    }
  }

  lemma {:induction false} CombinedRelative(root: Path, parts: Path)
    requires AllNames(root)
    ensures Normalize(true, root + parts) == From(root, Normalize(false, parts))
  {
    NormalizeAppend(true, [], root, parts);
    NamesAreNormal(root);
    assert From(root, []) == root;
    NormalizeBehindRoot(root, [], parts);
  }

  /** No node is a link. */
  ghost predicate LinkFree(t: Tree) {
    forall p :: p in t ==> !t[p].LinkNode?
  }

  lemma {:induction false} FollowWithoutLinks(t: Tree, at: Path, rest: Path, links: nat)
    requires LinkFree(t) && forall i :: 0 <= i < |rest| ==> rest[i] != Dot() && rest[i] != DotDot()
    ensures var r := Follow(t, at, rest, links); r == Found(at + rest, links) || r == Missing
    decreases |rest|
  {
    hide Dot, DotDot;
    if |rest| == 0 {
      assert at + rest == at;
    } else if IsDir(t, at) && at + [rest[0]] in t {
      FollowWithoutLinks(t, at + [rest[0]], rest[1..], links);
      assert at + [rest[0]] + rest[1..] == at + rest;
    }
  }

  /** Without links every normal path is canonical, whether it exists or not. */
  lemma {:induction false} CanonicalWithoutLinks(fsys: FileSystem, p: Path)
    requires LinkFree(fsys.tree) && IsNormal(true, p)
    ensures WeaklyCanonical(fsys, p) == Ok(p)
  {
    hide Follow, Normalize, LinkFree, Dot, DotDot;
    var empty: Path := [];
    FollowWithoutLinks(fsys.tree, empty, p, fsys.maxLinks);
    assert empty + p == p;
    if Status(fsys, p).Missing? {
      var n := Existing(fsys, p, 0);
      FollowWithoutLinks(fsys.tree, empty, p[..n], fsys.maxLinks);
      FollowNothing(fsys.tree, p[..0], fsys.maxLinks);
      assert empty + p[..n] == p[..n] && p[..n] + p[n..] == p;
      NormalForm(true, p);
    }
  }

  /** Without symbolic links: an absolute path inside the root resolves to its normal form; an absolute
      path outside resolves to the root with all of its normal form behind it; a relative path that
      never climbs above its start resolves to its normal form below the root. */
  lemma {:induction false} ResolveWithoutLinks(fsys: FileSystem, root: Path, raw: Text)
    requires LinkFree(fsys.tree) && AllNames(root)
    ensures var p := ClientPath(raw);
            var normal := Normalize(p.absolute, p.parts);
            && (p.absolute && root <= normal ==> Resolve(fsys, root, raw, false) == Ok(normal))
            && (p.absolute && !(root <= normal) ==> Resolve(fsys, root, raw, false) == Ok(root + normal))
            && (!p.absolute && StaysBelow(0, p.parts) ==> Resolve(fsys, root, raw, false) == Ok(root + normal))
  {
    hide ParsePath, Normalize, StaysBelow, Climb, IsNormal, WeaklyCanonical, LinkFree;
    var p := ClientPath(raw);
    var normal := Normalize(p.absolute, p.parts);
    CombinedIsNormal(root, raw);
    CanonicalWithoutLinks(fsys, Combined(root, raw));
    if p.absolute {
      NormalForm(true, p.parts);
      NamesBeforeNormal(root, normal);
      NormalForm(true, root + normal);
    } else {
      CombinedRelative(root, p.parts);
      RelativeClimb(p.parts);
      if Climb(normal) == 0 {
        assert root[..|root|] == root && normal[0..] == normal;
      }
    }
  }

  lemma {:induction false} RelativeClimb(parts: Path)
    ensures Climb(Normalize(false, parts)) == 0 <==> StaysBelow(0, parts)
  {
    StaysBelowExactly([], parts);
  }

  lemma {:induction false} NamesBeforeNormal(root: Path, normal: Path)
    requires AllNames(root) && IsNormal(true, normal)
    ensures IsNormal(true, root + normal)
  {
  }

  /** Where a relative normal form leads lies under the root exactly when every level that it climbs
      out of the root is entered again by name. */
  lemma {:induction false} FromUnderRoot(root: Path, normal: Path)
    ensures var u := Climb(normal);
            root <= From(root, normal) <==> root[if u <= |root| then |root| - u else 0..] <= normal[u..]
  {
    hide Climb;
    var u := Climb(normal);
    var keep := if u <= |root| then |root| - u else 0;
    assert From(root, normal)[keep..] == normal[u..];
    assert root == root[..keep] + root[keep..];
    if root <= From(root, normal) {
      assert From(root, normal)[..|root|][keep..] == root[keep..];
    }
  }

  /** A relative path resolves exactly when every level that its normal form climbs out of the root is
      entered again by name; then it resolves to where that leads. */
  lemma {:induction false} RelativeResolvesExactly(fsys: FileSystem, root: Path, raw: Text)
    requires LinkFree(fsys.tree) && AllNames(root) && !ClientPath(raw).absolute
    ensures var normal := Normalize(false, ClientPath(raw).parts);
            var u := Climb(normal);
            var left := root[if u <= |root| then |root| - u else 0..];
            && (Resolve(fsys, root, raw, false).Ok? <==> left <= normal[u..])
            && (left <= normal[u..] ==> Resolve(fsys, root, raw, false) == Ok(From(root, normal)))
  {
    hide ParsePath, Normalize, Climb, IsNormal, WeaklyCanonical, LinkFree, From;
    var parts := ClientPath(raw).parts;
    CombinedIsNormal(root, raw);
    CanonicalWithoutLinks(fsys, Combined(root, raw));
    CombinedRelative(root, parts);
    FromUnderRoot(root, Normalize(false, parts));
  }
}
