/**
 The path jail of the embedded SFTP server (`sftp-jail.ts`), over any finite file tree with
 symbolic links. Paths on disk are lists of names below `/`; client paths are strings.
 */
module SftpJail {
  import opened JsText

  type Path = seq<string>

  /** A link's target is absolute, or relative to the directory that holds the link. */
  datatype Node = File | Dir | Link(absolute: bool, target: seq<string>)

  type Tree = map<Path, Node>

  const MAX_LINKS := 40

  predicate NormalName(name: string) { name != "" && name != "." && name != ".." && '/' !in name }

  /** Every entry has a directory as its parent, down from the root directory. */
  ghost predicate WellFormed(t: Tree)
  {
    && [] in t && t[[]] == Dir
    && forall p | p in t && p != [] ::
         p[..|p| - 1] in t && t[p[..|p| - 1]] == Dir && NormalName(p[|p| - 1])
  }

  // ----- how the system resolves paths -----

  datatype Lookup = Found(path: Path) | Missing | NotDirectory | TooManyLinks

  function Parent(p: Path): Path { if p == [] then [] else p[..|p| - 1] }

  /** Walks `todo` from the directory or file `at`; a link in last place is followed only on demand. */
  function Walk(t: Tree, at: Path, todo: seq<string>, follow: bool, links: nat): Lookup
    decreases links, |todo|
  {
    if todo == [] then Found(at)
    else if at !in t || t[at] != Dir then NotDirectory
    else if todo[0] == "." || todo[0] == "" then Walk(t, at, todo[1..], follow, links)
    else if todo[0] == ".." then Walk(t, Parent(at), todo[1..], follow, links)
    else
      var next := at + [todo[0]];
      if next !in t then Missing
      else if t[next].Link? && (follow || |todo| > 1) then
        if links == 0 then TooManyLinks
        else Walk(t, if t[next].absolute then [] else at, t[next].target + todo[1..], follow, links - 1)
      else Walk(t, next, todo[1..], follow, links)
  }

  function Lstat(t: Tree, p: Path): Lookup { Walk(t, [], p, false, MAX_LINKS) }

  function Realpath(t: Tree, p: Path): Lookup { Walk(t, [], p, true, MAX_LINKS) }

  /** An entry that is not itself a link: resolving its own path cannot lead anywhere else. */
  predicate Physical(t: Tree, p: Path) { p in t && !t[p].Link? }

  lemma {:induction false} PrefixIsDirectory(t: Tree, p: Path, k: nat)
    requires WellFormed(t) && p in t && k < |p|
    ensures p[..k] in t && t[p[..k]] == Dir && NormalName(p[k])
    decreases |p|
  {
    var front := p[..|p| - 1];
    if k < |p| - 1 {
      PrefixIsDirectory(t, front, k);
      assert front[..k] == p[..k] && front[k] == p[k];
    }
  }

  lemma {:induction false} WalkStep(t: Tree, at: Path, name: string, rest: seq<string>, follow: bool, links: nat)
    requires at in t && t[at] == Dir && NormalName(name) && Physical(t, at + [name])
    ensures Walk(t, at, [name] + rest, follow, links) == Walk(t, at + [name], rest, follow, links)
  {
    assert ([name] + rest)[1..] == rest;
  }

  /** Walking the names of a physical path just descends. */
  lemma {:induction false} WalkDescends(t: Tree, p: Path, k: nat, rest: seq<string>, follow: bool, links: nat)
    requires WellFormed(t) && Physical(t, p) && k <= |p|
    ensures Walk(t, p[..k], p[k..] + rest, follow, links) == Walk(t, p, rest, follow, links)
    decreases |p| - k
  {
    hide Walk, WellFormed;
    if k == |p| {
      assert p[..k] == p && p[k..] + rest == rest;
    } else {
      PrefixIsDirectory(t, p, k);
      var next := p[..k + 1];
      assert p[k..] + rest == [p[k]] + (p[k + 1..] + rest) && p[..k] + [p[k]] == next;
      if k + 1 < |p| {
        PrefixIsDirectory(t, p, k + 1);
      } else {
        assert next == p;
      }
      WalkStep(t, p[..k], p[k], p[k + 1..] + rest, follow, links);
      WalkDescends(t, p, k + 1, rest, follow, links);
    }
  }

  lemma {:induction false} WalkFromRoot(t: Tree, p: Path, rest: seq<string>, follow: bool)
    requires WellFormed(t) && Physical(t, p)
    ensures Walk(t, [], p + rest, follow, MAX_LINKS) == Walk(t, p, rest, follow, MAX_LINKS)
  {
    WalkDescends(t, p, 0, rest, follow, MAX_LINKS);
    assert p[..0] == [] && p[0..] + rest == p + rest;
  }

  lemma {:induction false} PhysicalResolvesToItself(t: Tree, p: Path)
    requires WellFormed(t) && Physical(t, p)
    ensures Realpath(t, p) == Found(p)
  {
    WalkFromRoot(t, p, [], true);
    assert p + [] == p;
  }

  lemma {:induction false} ParentIsPhysical(t: Tree, p: Path)
    requires WellFormed(t) && Physical(t, p)
    ensures Physical(t, Parent(p)) && Physical(t, [])
  {
  }

  datatype Place = Place(at: Path, todo: seq<string>, links: nat)

  /** Where the next name leads when every link is followed, or nothing when the walk ends there. */
  function Onward(t: Tree, p: Place): Option<Place>
    requires p.todo != [] && p.at in t
  {
    var name, rest := p.todo[0], p.todo[1..];
    var next := p.at + [name];
    if t[p.at] != Dir then None
    else if name == "." || name == "" then Some(Place(p.at, rest, p.links))
    else if name == ".." then Some(Place(Parent(p.at), rest, p.links))
    else if next !in t then None
    else if !t[next].Link? then Some(Place(next, rest, p.links))
    else if p.links == 0 then None
    else Some(Place(if t[next].absolute then [] else p.at, t[next].target + rest, p.links - 1))
  }

  lemma {:induction false} WalkOnward(t: Tree, p: Place)
    requires p.todo != [] && p.at in t
    ensures Onward(t, p).None? ==> !Walk(t, p.at, p.todo, true, p.links).Found?
    ensures var q := Onward(t, p);
            q.Some? ==> Walk(t, p.at, p.todo, true, p.links) == Walk(t, q.value.at, q.value.todo, true, q.value.links)
                        && (q.value.links < p.links || (q.value.links == p.links && |q.value.todo| < |p.todo|))
  {
  }

  lemma {:induction false} OnwardIsPhysical(t: Tree, p: Place)
    requires WellFormed(t) && Physical(t, p.at) && p.todo != []
    ensures var q := Onward(t, p); q.Some? ==> Physical(t, q.value.at)
  {
    ParentIsPhysical(t, p.at);
    hide WellFormed, Parent;
  }

  lemma {:induction false} WalkEnds(t: Tree, at: Path, links: nat)
    ensures Walk(t, at, [], true, links) == Found(at)
  {
  }

  /** Whatever full resolution arrives at is physical. */
  lemma {:induction false} RealpathIsPhysical(t: Tree, at: Path, todo: seq<string>, links: nat)
    requires WellFormed(t) && Physical(t, at)
    ensures var r := Walk(t, at, todo, true, links); r.Found? ==> Physical(t, r.path)
    decreases links, |todo|
  {
    assert at in t;
    hide *;
    if todo == [] {
      WalkEnds(t, at, links);
    } else {
      var here := Place(at, todo, links);
      WalkOnward(t, here);
      OnwardIsPhysical(t, here);
      var q := Onward(t, here);
      if q.Some? {
        RealpathIsPhysical(t, q.value.at, q.value.todo, q.value.links);
      }
    }
  }

  /** How the walk ends when the next name below a physical path does not exist. */
  function EndBelow(t: Tree, p: Path): Lookup
    requires p in t
  {
    if t[p] != Dir then NotDirectory else Missing
  }

  lemma {:induction false} MissingBelow(t: Tree, p: Path, name: string, rest: seq<string>, follow: bool)
    requires WellFormed(t) && Physical(t, p) && NormalName(name) && p + [name] !in t
    ensures Walk(t, [], p + [name] + rest, follow, MAX_LINKS) == EndBelow(t, p)
  {
    WalkFromRoot(t, p, [name] + rest, follow);
    assert p + [name] + rest == p + ([name] + rest);
    hide WellFormed;
  }

  /** One more name below a physical path. */
  lemma {:induction false} LstatBelow(t: Tree, p: Path, name: string)
    requires WellFormed(t) && Physical(t, p) && NormalName(name)
    ensures Lstat(t, p + [name]) == if t[p] == Dir && p + [name] in t then Found(p + [name]) else EndBelow(t, p)
    ensures p + [name] !in t ==>
              forall rest, follow :: Walk(t, [], p + [name] + rest, follow, MAX_LINKS) == EndBelow(t, p)
  {
    if p + [name] in t {
      WalkFromRoot(t, p, [name], false);
      assert [name][1..] == [];
    } else {
      MissingBelow(t, p, name, [], false);
      assert p + [name] + [] == p + [name];
      hide *;
      forall rest: seq<string>, follow
        ensures Walk(t, [], p + [name] + rest, follow, MAX_LINKS) == EndBelow(t, p)
      {
        MissingBelow(t, p, name, rest, follow);
      }
    }
  }

  // ----- client paths -----

  function Slashes(s: string): string { seq(|s|, i requires 0 <= i < |s| => if s[i] == '\\' then '/' else s[i]) }

  function StripSlashes(s: string): string
  {
    if s != "" && s[0] == '/' then StripSlashes(s[1..]) else s
  }

  /** `s.split("/")` */
  function Split(s: string): (parts: seq<string>)
    ensures parts != [] && forall p | p in parts :: '/' !in p
  {
    if s == "" then [""]
    else
      var rest := Split(s[1..]);
      if s[0] == '/' then [""] + rest else [[s[0]] + rest[0]] + rest[1..]
  }

  function Relevant(parts: seq<string>): (r: seq<string>)
    ensures forall p | p in r :: p in parts && p != "" && p != "."
  {
    if parts == [] then []
    else (if parts[0] != "" && parts[0] != "." then [parts[0]] else []) + Relevant(parts[1..])
  }

  /** The names a client path asks for, below the jail root. */
  function Parts(request: string): (parts: seq<string>)
    ensures forall p | p in parts :: p != "" && p != "." && '/' !in p
  {
    Relevant(Split(StripSlashes(Slashes(request))))
  }

  // ----- absolute paths as strings, as the containment checks compare them -----

  function Below(p: Path): string
  {
    if p == [] then "" else Below(p[..|p| - 1]) + "/" + p[|p| - 1]
  }

  function Text(p: Path): string { if p == [] then "/" else Below(p) }

  /** `x !== root && !x.startsWith(root + "/")` */
  predicate Outside(x: Path, root: Path) { Text(x) != Text(root) && !(Text(root) + "/" <= Text(x)) }

  lemma {:induction false} BelowConcat(a: Path, b: Path)
    ensures Below(a + b) == Below(a) + Below(b)
  {
    if b == [] {
      assert a + b == a;
    } else {
      BelowConcat(a, b[..|b| - 1]);
      assert (a + b)[..|a + b| - 1] == a + b[..|b| - 1];
    }
  }

  lemma {:induction false} BelowStarts(b: Path)
    requires b != []
    ensures "/" + b[0] <= Below(b)
  {
    if |b| > 1 {
      BelowStarts(b[..|b| - 1]);
    }
  }

  /** A path below the root passes the check, unless the root is the whole file system. */
  lemma {:induction false} InsideIsInside(root: Path, parts: seq<string>)
    requires forall p | p in parts :: p != "" && '/' !in p
    ensures Outside(root + parts, root) <==> root == [] && parts != []
  {
    if parts == [] {
      assert root + parts == root;
    } else {
      BelowConcat(root, parts);
      BelowStarts(parts);
      assert parts[0] in parts;
      if root == [] {
        assert root + parts == parts;
        var x := Below(parts);
        assert x[1] == ("/" + parts[0])[1] == parts[0][0];
        assert "/" + "/" == "//";
      } else {
        assert Below(root) + "/" <= Below(root) + Below(parts);
      }
    }
  }

  // ----- the jail -----

  /** `realpathSync(root)` if the root exists, otherwise the root as given. */
  function RootReal(t: Tree, root: Path): Path
  {
    if Realpath(t, root).Found? then Realpath(t, root).path else root
  }

  /** No existing entry of `p` below the first `n` names is a link. */
  ghost predicate NoLinkBelow(t: Tree, p: Path, n: nat)
  {
    forall k | n < k <= |p| && p[..k] in t :: !t[p[..k]].Link?
  }

  /** Every proper prefix from the first `n` names on is a directory or does not exist. */
  ghost predicate OnlyDirectories(t: Tree, p: Path, n: nat)
  {
    forall k | n <= k < |p| && p[..k] in t :: t[p[..k]] == Dir
  }

  /**
   What the jail allows. Below an existing root: the request names no `..`, meets no link and no
   file on its way, and the root is not the whole file system unless nothing is asked below it.
   With a missing root there is nothing to meet, but other failures to resolve the root refuse.
   */
  ghost predicate Allowed(t: Tree, root: Path, parts: seq<string>)
  {
    var rootReal := RootReal(t, root);
    && ".." !in parts
    && (if Realpath(t, root).Found? then
          && (rootReal == [] ==> parts == [])
          && NoLinkBelow(t, rootReal + parts, |rootReal|) && OnlyDirectories(t, rootReal + parts, |rootReal|)
        else parts == [] || Realpath(t, root) == Missing)
  }

  ghost function JailPath(t: Tree, root: Path, request: string): Option<Path>
  {
    if Allowed(t, root, Parts(request)) then Some(RootReal(t, root) + Parts(request)) else None
  }

  /** The walk over the request's names, with the file system asked at every one of them. */
  method ResolveJailPath(t: Tree, root: Path, request: string) returns (resolved: Option<Path>)
    requires WellFormed(t)
    ensures resolved == JailPath(t, root, request)
  {
    hide Walk, WellFormed, Parts, NoLinkBelow, OnlyDirectories, Outside;
    var rootReal := RootReal(t, root);
    var parts := Parts(request);
    if ".." in parts {
      return None;
    }
    var cursor := rootReal;
    var i := 0;
    ghost var exists' := Realpath(t, root).Found?;
    RootIsPhysical(t, root);
    assert rootReal + parts[..0] == rootReal;
    while i < |parts|
      invariant i <= |parts| && cursor == rootReal + parts[..i]
      invariant if exists' then Physical(t, cursor) else i == 0
    {
      ghost var before := cursor;
      cursor := cursor + [parts[i]];
      assert rootReal + parts[..i] + [parts[i]] == rootReal + parts[..i + 1];
      assert parts[i] in parts;
      if exists' {
        LstatBelow(t, before, parts[i]);
        Obstacle(t, rootReal, parts, i);
      } else {
        MissingRoot(t, root, [parts[0]], false);
      }
      match Lstat(t, cursor) {
        case Found(p) =>
          if t[p].Link? {
            return None;
          }
        case Missing => break;
        case NotDirectory => return None;
        case TooManyLinks => return None;
      }
      i := i + 1;
    }
    var full := rootReal + parts;
    InsideIsInside(rootReal, parts);
    if exists' {
      WalkedFar(t, rootReal, parts, i);
    } else {
      MissingRoot(t, root, parts, true);
    }
    if Outside(full, rootReal) {
      return None;
    }
    match Realpath(t, full) {
      case Found(actual) =>
        if Outside(actual, rootReal) {
          return None;
        }
      case _ =>
    }
    return Some(full);
  }

  lemma {:induction false} RootIsPhysical(t: Tree, root: Path)
    requires WellFormed(t)
    ensures Realpath(t, root).Found? ==> Physical(t, RootReal(t, root))
    ensures !Realpath(t, root).Found? ==> root != []
  {
    RealpathIsPhysical(t, [], root, MAX_LINKS);
  }

  /** What an entry on the way that stops the walk means for the whole path. */
  lemma {:induction false} Obstacle(t: Tree, rootReal: Path, parts: seq<string>, i: nat)
    requires i < |parts| && Physical(t, rootReal + parts[..i])
    ensures var next := rootReal + parts[..i] + [parts[i]];
            && (t[rootReal + parts[..i]] != Dir ==> !OnlyDirectories(t, rootReal + parts, |rootReal|))
            && (next in t && t[next].Link? ==> !NoLinkBelow(t, rootReal + parts, |rootReal|))
  {
    hide WellFormed, NormalName;
    var full, n := rootReal + parts, |rootReal|;
    assert full[..n + i] == rootReal + parts[..i];
    assert full[..n + i + 1] == rootReal + parts[..i] + [parts[i]];
  }

  lemma {:induction false} DirectoriesAbove(t: Tree, full: Path, k: nat, m: nat)
    requires WellFormed(t) && m < k <= |full| && full[..k] in t
    ensures full[..m] in t && t[full[..m]] == Dir
  {
    PrefixIsDirectory(t, full[..k], m);
    assert full[..k][..m] == full[..m];
  }

  /** Entries up to one that is known: directories below it are no links, and past a missing one nothing exists. */
  lemma {:induction false} EntriesOnTheWay(t: Tree, full: Path, reached: nat)
    requires WellFormed(t) && reached <= |full| && Physical(t, full[..reached])
    requires reached < |full| ==> t[full[..reached]] == Dir && full[..reached + 1] !in t
    ensures forall k | 0 <= k <= |full| && full[..k] in t ::
              k <= reached && (k < |full| ==> t[full[..k]] == Dir) && !t[full[..k]].Link?
  {
    hide WellFormed;
    forall k | 0 <= k <= |full| && full[..k] in t
      ensures k <= reached && (k < |full| ==> t[full[..k]] == Dir) && !t[full[..k]].Link?
    {
      if k > reached + 1 {
        DirectoriesAbove(t, full, k, reached + 1);
      } else if k < reached {
        DirectoriesAbove(t, full, reached, k);
      }
    }
  }

  /** The walk has passed every existing entry: either all of them, or up to one whose successor is missing. */
  lemma {:induction false} WalkedFar(t: Tree, rootReal: Path, parts: seq<string>, i: nat)
    requires WellFormed(t) && i <= |parts| && Physical(t, rootReal + parts[..i])
    requires forall p | p in parts :: NormalName(p)
    requires i < |parts| ==> t[rootReal + parts[..i]] == Dir && rootReal + parts[..i] + [parts[i]] !in t
    ensures NoLinkBelow(t, rootReal + parts, |rootReal|) && OnlyDirectories(t, rootReal + parts, |rootReal|)
    ensures Realpath(t, rootReal + parts) == if i == |parts| then Found(rootReal + parts) else Missing
  {
    hide Walk, WellFormed, NormalName;
    var full, n, reached := rootReal + parts, |rootReal|, rootReal + parts[..i];
    assert full[..n + i] == reached;
    if i == |parts| {
      assert reached == full;
      PhysicalResolvesToItself(t, full);
    } else {
      assert parts[i] in parts;
      LstatBelow(t, reached, parts[i]);
      assert full == reached + [parts[i]] + parts[i + 1..];
      assert full[..n + i + 1] == reached + [parts[i]];
    }
    EntriesOnTheWay(t, full, n + i);
  }

  lemma {:induction false} FailureStays(t: Tree, at: Path, todo: seq<string>, rest: seq<string>, follow: bool,
      links: nat)
    requires !Walk(t, at, todo, true, links).Found? && rest != []
    ensures Walk(t, at, todo + rest, follow, links) == Walk(t, at, todo, true, links)
    decreases links, |todo|
  {
    assert todo != [];
    assert (todo + rest)[1..] == todo[1..] + rest;
    if at in t && t[at] == Dir {
      if todo[0] == "." || todo[0] == "" {
        FailureStays(t, at, todo[1..], rest, follow, links);
      } else if todo[0] == ".." {
        FailureStays(t, Parent(at), todo[1..], rest, follow, links);
      } else {
        var next := at + [todo[0]];
        if next in t {
          if !t[next].Link? {
            FailureStays(t, next, todo[1..], rest, follow, links);
          } else if links > 0 {
            assert t[next].target + (todo[1..] + rest) == (t[next].target + todo[1..]) + rest;
            FailureStays(t, if t[next].absolute then [] else at, t[next].target + todo[1..], rest, follow, links - 1);
          }
        }
      }
    }
  }

  /** Below a root that does not resolve, everything fails to resolve in the same way. */
  lemma {:induction false} MissingRoot(t: Tree, root: Path, parts: seq<string>, follow: bool)
    requires !Realpath(t, root).Found? && (follow || parts != [])
    ensures Walk(t, [], root + parts, follow, MAX_LINKS) == Realpath(t, root)
  {
    if parts == [] {
      assert root + parts == root;
    } else {
      FailureStays(t, [], root, parts, follow, MAX_LINKS);
    }
  }

  // ----- what the jail guarantees -----

  /** Without links on the way, full resolution has nowhere else to go. */
  lemma {:induction false} NoLinkNoDetour(t: Tree, at: Path, todo: seq<string>, links: nat)
    requires forall p | p in todo :: NormalName(p)
    requires forall k | 0 <= k <= |todo| && at + todo[..k] in t :: !t[at + todo[..k]].Link?
    ensures var r := Walk(t, at, todo, true, links); r.Found? ==> r.path == at + todo
    decreases |todo|
  {
    if todo == [] {
      assert at + todo == at;
    } else {
      var next, rest := at + [todo[0]], todo[1..];
      assert todo[0] in todo;
      assert next == at + todo[..1] && next + rest == at + todo;
      forall k | 0 <= k <= |rest| && next + rest[..k] in t
        ensures !t[next + rest[..k]].Link?
      {
        assert next + rest[..k] == at + todo[..k + 1];
      }
      NoLinkNoDetour(t, next, rest, links);
    }
  }

  /** The same from the jail's root: a path that meets no link below it resolves to itself or not at all. */
  lemma {:induction false} NoLinkBelowStays(t: Tree, rootReal: Path, parts: seq<string>)
    requires WellFormed(t) && Physical(t, rootReal) && NoLinkBelow(t, rootReal + parts, |rootReal|)
    requires forall p | p in parts :: NormalName(p)
    ensures var r := Realpath(t, rootReal + parts); r.Found? ==> r.path == rootReal + parts
  {
    forall k | 0 <= k <= |parts| && rootReal + parts[..k] in t
      ensures !t[rootReal + parts[..k]].Link?
    {
      assert rootReal + parts[..k] == (rootReal + parts)[..|rootReal| + k];
      if k == 0 {
        assert rootReal + parts[..0] == rootReal;
      }
    }
    NoLinkNoDetour(t, rootReal, parts, MAX_LINKS);
    WalkFromRoot(t, rootReal, parts, true);
  }

  /** Nothing exists below a root that does not resolve. */
  lemma {:induction false} NothingBelowMissingRoot(t: Tree, root: Path, p: Path)
    requires WellFormed(t) && !Realpath(t, root).Found? && root < p
    ensures p !in t
  {
    if p in t {
      PrefixIsDirectory(t, p, |root|);
      assert p[..|root|] == root;
      PhysicalResolvesToItself(t, root);
    }
  }

  /**
   A returned path is the root or lies below it, and no existing part of it below the root is a
   link. So following every link leaves it where it is, if it resolves at all, and it does resolve
   when it exists.
   */
  lemma {:induction false} JailContains(t: Tree, root: Path, request: string)
    requires WellFormed(t) && JailPath(t, root, request).Some?
    ensures var p := JailPath(t, root, request).value;
            && RootReal(t, root) <= p
            && NoLinkBelow(t, p, |RootReal(t, root)|)
            && (Realpath(t, p).Found? ==> Realpath(t, p) == Found(p))
            && (p in t && p != root ==> Realpath(t, p) == Found(p))
  {
    hide Walk, WellFormed, Parts;
    var rootReal, parts := RootReal(t, root), Parts(request);
    var p := rootReal + parts;
    RootIsPhysical(t, root);
    if Realpath(t, root).Found? {
      NoLinkBelowStays(t, rootReal, parts);
      if p in t {
        assert p[..|p|] == p;
        assert parts == [] ==> p == rootReal;
        PhysicalResolvesToItself(t, p);
      }
    } else {
      MissingRoot(t, root, parts, true);
      forall k | |root| < k <= |p|
        ensures p[..k] !in t
      {
        NothingBelowMissingRoot(t, root, p[..k]);
      }
      assert p[..|p|] == p;
      assert parts == [] ==> p == root;
    }
  }

  // ----- and back to client paths -----

  function CommonPrefix(a: Path, b: Path): (n: nat)
    ensures n <= |a| && n <= |b| && a[..n] == b[..n]
    ensures n < |a| && n < |b| ==> a[n] != b[n]
  {
    if a == [] || b == [] || a[0] != b[0] then 0
    else
      var n := 1 + CommonPrefix(a[1..], b[1..]);
      assert a[..n] == [a[0]] + a[1..][..n - 1] && b[..n] == [b[0]] + b[1..][..n - 1];
      n
  }

  /** `path.relative(root, absolute)` as a list of names. */
  function Relative(root: Path, absolute: Path): seq<string>
  {
    var n := CommonPrefix(root, absolute);
    seq(|root| - n, _ => "..") + absolute[n..]
  }

  /** `parts.join("/")` */
  function Join(parts: seq<string>): string
  {
    if parts == [] then "" else if |parts| == 1 then parts[0] else parts[0] + "/" + Join(parts[1..])
  }

  function ToSftpPath(root: Path, absolute: Path): string { "/" + Join(Relative(root, absolute)) }

  predicate CleanName(p: string) { p != "" && p != "." && '/' !in p && '\\' !in p }

  lemma {:induction false} SplitJoin(parts: seq<string>)
    requires parts != [] && forall p | p in parts :: '/' !in p
    ensures Split(Join(parts)) == parts
  {
    if |parts| == 1 {
      SplitWord(parts[0]);
    } else {
      SplitJoin(parts[1..]);
      SplitFirst(parts[0], Join(parts[1..]));
      assert parts == [parts[0]] + parts[1..];
    }
  }

  lemma {:induction false} SplitWord(w: string)
    requires '/' !in w
    ensures Split(w) == [w]
  {
    if w != "" {
      SplitWord(w[1..]);
      assert [w[0]] + w[1..] == w;
    }
  }

  lemma {:induction false} SplitFirst(w: string, rest: string)
    requires '/' !in w
    ensures Split(w + "/" + rest) == [w] + Split(rest)
  {
    if w == "" {
      assert w + "/" + rest == "/" + rest;
      assert ("/" + rest)[1..] == rest;
    } else {
      SplitFirst(w[1..], rest);
      assert (w + "/" + rest)[1..] == w[1..] + "/" + rest;
      assert ([w[1..]] + Split(rest))[1..] == Split(rest) && [w[0]] + w[1..] == w;
    }
  }

  lemma {:induction false} RelevantKeeps(parts: seq<string>)
    requires forall p | p in parts :: p != "" && p != "."
    ensures Relevant(parts) == parts
  {
    if parts != [] {
      assert parts[0] in parts && forall p | p in parts[1..] :: p in parts;
      RelevantKeeps(parts[1..]);
    }
  }

  lemma {:induction false} JoinIsClean(parts: seq<string>)
    requires forall p | p in parts :: CleanName(p)
    ensures Slashes(Join(parts)) == Join(parts)
    ensures parts != [] ==> Join(parts) != "" && Join(parts)[0] != '/'
  {
    if parts != [] {
      assert parts[0] in parts;
      JoinIsClean(parts[1..]);
      forall i | 0 <= i < |Join(parts)|
        ensures Join(parts)[i] != '\\'
      {
        if |parts| > 1 && i > |parts[0]| {
          var tail := Join(parts[1..]);
          assert Join(parts)[i] == tail[i - |parts[0]| - 1] == Slashes(tail)[i - |parts[0]| - 1];
        }
      }
    }
  }

  /** A client path made of clean names asks for exactly those names. */
  lemma {:induction false} PartsOfJoin(parts: seq<string>)
    requires forall p | p in parts :: CleanName(p)
    ensures Parts("/" + Join(parts)) == parts
  {
    var s := "/" + Join(parts);
    JoinIsClean(parts);
    assert Slashes(s) == s;
    assert s[1..] == Join(parts);
    assert StripSlashes(Join(parts)) == Join(parts);
    if parts == [] {
      assert Relevant([""]) == Relevant([""][1..]);
    } else {
      SplitJoin(parts);
      RelevantKeeps(parts);
    }
  }

  // ----- empty and "." segments -----

  lemma {:induction false} RelevantConcat(a: seq<string>, b: seq<string>)
    ensures Relevant(a + b) == Relevant(a) + Relevant(b)
  {
    if a == [] {
      assert a + b == b;
    } else {
      assert (a + b)[1..] == a[1..] + b;
      RelevantConcat(a[1..], b);
    }
  }

  /** Leading slashes only add empty segments. */
  lemma {:induction false} StripIsIrrelevant(s: string)
    ensures Relevant(Split(StripSlashes(s))) == Relevant(Split(s))
  {
    if s != "" && s[0] == '/' {
      StripIsIrrelevant(s[1..]);
      assert ([""] + Split(s[1..]))[1..] == Split(s[1..]);
    }
  }

  /** A segment as a client may send it: neither slash nor backslash. */
  predicate Segment(p: string) { '/' !in p && '\\' !in p }

  lemma {:induction false} PartsOfSegments(segments: seq<string>)
    requires segments != [] && forall p | p in segments :: Segment(p)
    ensures Parts("/" + Join(segments)) == Relevant(segments)
  {
    var s := "/" + Join(segments);
    NoBackslash(segments);
    assert Slashes(s) == s;
    StripIsIrrelevant(s);
    assert s[1..] == Join(segments);
    SplitJoin(segments);
    assert ([""] + segments)[1..] == segments;
  }

  lemma {:induction false} NoBackslash(segments: seq<string>)
    requires forall p | p in segments :: Segment(p)
    ensures forall i | 0 <= i < |Join(segments)| :: Join(segments)[i] != '\\'
  {
    if segments != [] {
      assert segments[0] in segments;
      NoBackslash(segments[1..]);
    }
  }

  /** An empty or "." segment put in anywhere changes nothing, and a backslash is as good as a slash. */
  lemma {:induction false} EmptySegmentsAreIgnored(before: seq<string>, extra: string, after: seq<string>)
    requires extra == "" || extra == "."
    requires before + after != [] && forall p | p in before + after :: Segment(p)
    ensures Parts("/" + Join(before + [extra] + after)) == Parts("/" + Join(before + after))
  {
    forall p | p in before + [extra] + after
      ensures Segment(p)
    {
      assert p == extra || p in before + after;
    }
    PartsOfSegments(before + [extra] + after);
    PartsOfSegments(before + after);
    RelevantConcat(before + [extra], after);
    RelevantConcat(before, [extra]);
    RelevantConcat(before, after);
    assert [extra][1..] == [] && Relevant([extra]) == [];
    assert Relevant(before) + [] == Relevant(before);
  }

  lemma {:induction false} BackslashIsSlash(request: string, i: nat)
    requires i < |request| && request[i] == '\\'
    ensures Parts(request) == Parts(request[i := '/'])
  {
    assert Slashes(request) == Slashes(request[i := '/']);
  }

  lemma {:induction false} PartsAreClean(request: string)
    ensures forall p | p in Parts(request) :: CleanName(p)
  {
    var slashed := Slashes(request);
    StripKeeps(slashed);
    SplitKeeps(StripSlashes(slashed));
  }

  lemma {:induction false} StripKeeps(s: string)
    requires '\\' !in s
    ensures '\\' !in StripSlashes(s)
  {
    if s != "" && s[0] == '/' {
      StripKeeps(s[1..]);
    }
  }

  lemma {:induction false} SplitKeeps(s: string)
    requires '\\' !in s
    ensures forall p | p in Split(s) :: '\\' !in p
  {
    if s != "" {
      SplitKeeps(s[1..]);
      var rest := Split(s[1..]);
      assert rest[0] in rest;
    }
  }

  /** A client path that starts by going up is refused, whatever follows. */
  lemma {:induction false} GoingUpIsSeen(names: seq<string>)
    requires names != [] && names[0] == ".."
    ensures ".." in Parts("/" + Join(names))
  {
    var s := "/" + Join(names);
    var slashed := Slashes(s);
    var rest := slashed[1..];
    assert rest[0] == '.' && StripSlashes(rest) == rest && StripSlashes(slashed) == rest;
    if |names| == 1 {
      assert rest == "..";
      SplitWord("..");
    } else {
      assert rest == ".." + "/" + rest[3..];
      SplitFirst("..", rest[3..]);
    }
    assert Split(rest)[0] == "..";
  }

  /** The names from a prefix down to a path. */
  lemma {:induction false} RelativeBelow(root: Path, absolute: Path)
    ensures root <= absolute ==> Relative(root, absolute) == absolute[|root|..]
    ensures !(root <= absolute) ==> Relative(root, absolute) != [] && Relative(root, absolute)[0] == ".."
  {
    var n := CommonPrefix(root, absolute);
    if n == |root| {
      assert root == root[..n] == absolute[..n];
    }
  }

  /** A root that resolves to somewhere else is no prefix of what the jail returns. */
  lemma {:induction false} ResolvedRootLeaves(t: Tree, root: Path, parts: seq<string>)
    requires WellFormed(t) && RootReal(t, root) != root
             && NoLinkBelow(t, RootReal(t, root) + parts, |RootReal(t, root)|)
    requires forall p | p in parts :: NormalName(p)
    ensures !(root <= RootReal(t, root) + parts)
  {
    hide Walk, WellFormed;
    var rootReal := RootReal(t, root);
    RootIsPhysical(t, root);
    if root <= rootReal + parts {
      if |root| < |rootReal| {
        PrefixIsDirectory(t, rootReal, |root|);
        assert rootReal[..|root|] == root;
        PhysicalResolvesToItself(t, root);
      } else {
        var m := |root| - |rootReal|;
        assert root == rootReal + parts[..m];
        forall k | |rootReal| < k <= |root| && root[..k] in t
          ensures !t[root[..k]].Link?
        {
          assert root[..k] == (rootReal + parts)[..k];
        }
        NoLinkBelowStays(t, rootReal, parts[..m]);
      }
    }
  }

  /**
   Showing a resolved path to the client and resolving what it shows gives the same path exactly
   when the jail root is not reached through a link; otherwise it is refused.
   */
  lemma {:induction false} SftpPathRoundTrip(t: Tree, root: Path, request: string)
    requires WellFormed(t) && JailPath(t, root, request).Some?
    ensures var p := JailPath(t, root, request).value;
            JailPath(t, root, ToSftpPath(root, p)) == if RootReal(t, root) == root then Some(p) else None
  {
    hide Walk, WellFormed, Parts, NoLinkBelow, OnlyDirectories, CommonPrefix, Relative, Join;
    var rootReal, parts := RootReal(t, root), Parts(request);
    var p := rootReal + parts;
    RelativeBelow(root, p);
    PartsAreClean(request);
    if rootReal == root {
      assert p[|root|..] == parts;
      PartsOfJoin(parts);
    } else {
      ResolvedRootLeaves(t, root, parts);
      GoingUpIsSeen(Relative(root, p));
    }
  }
}
