/** Path resolution over the dentry tree (fs/vfs.c, fs/ramfs.c) as a fold over the path's components. */
module PathSpec {
  import opened Base

  datatype Kind = NoInode | Directory | Regular | Link(target: string)

  datatype Parent = Nobody | Under(dir: nat)

  datatype Dentry = Dentry(name: string, parent: Parent, children: seq<nat>, kind: Kind)

  type Tree = map<nat, Dentry>

  /** Deeper: the nesting of symbolic links went past the given depth. */
  datatype Found = At(dentry: nat) | Fails(error: int) | Deeper

  /** A component, and whether any of the path, even a slash, is left after it. */
  datatype Part = Part(name: string, more: bool)

  const PATH_MAX: nat := 4096

  function ComponentLength(s: string): (n: nat)
    ensures n <= |s| && (forall i | 0 <= i < n :: s[i] != '/') && (n < |s| ==> s[n] == '/')
  {
    if s == "" || s[0] == '/' then 0 else 1 + ComponentLength(s[1..])
  }

  function Parts(s: string): seq<Part>
    decreases |s|
  {
    if s == "" then []
    else if s[0] == '/' then Parts(s[1..])
    else
      var n := ComponentLength(s);
      [Part(s[..n], n < |s|)] + Parts(s[n..])
  }

  /** Everything the tree mentions is in it, and a child's parent is the dentry it is a child of. */
  predicate Closed(t: Tree) {
    forall x | x in t ::
      && (t[x].parent.Under? ==> t[x].parent.dir in t)
      && (forall i | 0 <= i < |t[x].children| :: t[x].children[i] in t && t[t[x].children[i]].parent == Under(x))
  }

  /** dentry_lookup_child: the first child of that name, if any. */
  function ChildFrom(t: Tree, children: seq<nat>, name: string): seq<nat>
    requires forall i | 0 <= i < |children| :: children[i] in t
  {
    if children == [] then []
    else if t[children[0]].name == name then [children[0]]
    else ChildFrom(t, children[1..], name)
  }

  function Child(t: Tree, de: nat, name: string): (r: seq<nat>)
    requires Closed(t) && de in t
    ensures |r| <= 1 && forall x | x in r :: x in t && t[x].parent == Under(de)
  {
    ChildIn(t, t[de].children, name);
    ChildFrom(t, t[de].children, name)
  }

  lemma {:induction false} ChildIn(t: Tree, children: seq<nat>, name: string)
    requires forall i | 0 <= i < |children| :: children[i] in t
    ensures var r := ChildFrom(t, children, name);
      |r| <= 1 && (|r| == 1 <==> exists i :: 0 <= i < |children| && t[children[i]].name == name)
      && forall x | x in r :: x in children && t[x].name == name
  {
    if children != [] { ChildIn(t, children[1..], name); }
  }

  /** What readlink hands back: the target, cut to fit its buffer. */
  function ReadLink(target: string): string {
    if |target| >= PATH_MAX then target[..PATH_MAX - 1] else target
  }

  function UpFrom(t: Tree, de: nat): nat
    requires Closed(t) && de in t
    ensures UpFrom(t, de) in t
  {
    if t[de].parent.Under? then t[de].parent.dir else de
  }

  /** The fold: the components one after another, each link on the way resolved first. */
  function Walk(t: Tree, root: nat, missing: int, de: nat, parts: seq<Part>, depth: nat): (r: Found)
    requires Closed(t) && root in t && de in t
    ensures r.At? ==> r.dentry in t
    decreases depth, 1, |parts|
  {
    if parts == [] then At(de)
    else
      match Enter(t, root, missing, de, parts[0], depth)
      case At(next) => Walk(t, root, missing, next, parts[1..], depth)
      case failed => failed
  }

  /** One component. */
  function Enter(t: Tree, root: nat, missing: int, de: nat, part: Part, depth: nat): (r: Found)
    requires Closed(t) && root in t && de in t
    ensures r.At? ==> r.dentry in t
    decreases depth, 0, 0
  {
    if part.name == "." then At(de)
    else if part.name == ".." then At(UpFrom(t, de))
    else if t[de].kind == NoInode then Fails(-ENOENT)
    else if t[de].kind != Directory then Fails(-ENOTDIR)
    else
      var child := Child(t, de, part.name);
      if child == [] then Fails(missing)
      else if !(t[child[0]].kind.Link? && part.more) then At(child[0])
      else if depth == 0 then Deeper
      else Follow(t, root, missing, child[0], depth - 1)
  }

  /** A link's target, looked up from the directory the link is in. */
  function Follow(t: Tree, root: nat, missing: int, link: nat, depth: nat): (r: Found)
    requires Closed(t) && root in t && link in t && t[link].kind.Link? && t[link].parent.Under?
    ensures r.At? ==> r.dentry in t
    decreases depth, 3, 0
  {
    Lookup(t, root, missing, t[link].parent.dir, ReadLink(t[link].kind.target), depth)
  }

  /** vfs_lookup. missing is what a name not in the tree gives: ENOENT, or ENOMEM with no memory left. */
  function Lookup(t: Tree, root: nat, missing: int, cwd: nat, path: string, depth: nat): (r: Found)
    requires Closed(t) && root in t && cwd in t
    ensures r.At? ==> r.dentry in t
    decreases depth, 2, 0
  {
    if path == "" then Fails(-EINVAL)
    else Walk(t, root, missing, if path[0] == '/' then root else cwd, Parts(path), depth)
  }

  /** A result that is not Deeper is the same at every larger depth. */
  lemma {:induction false} WalkDeeper(t: Tree, root: nat, missing: int, de: nat, parts: seq<Part>, d: nat, e: nat)
    requires Closed(t) && root in t && de in t && d <= e
    requires Walk(t, root, missing, de, parts, d) != Deeper
    ensures Walk(t, root, missing, de, parts, e) == Walk(t, root, missing, de, parts, d)
    decreases d, 1, |parts|
  {
    if parts != [] {
      EnterDeeper(t, root, missing, de, parts[0], d, e);
      var r := Enter(t, root, missing, de, parts[0], d);
      if r.At? { WalkDeeper(t, root, missing, r.dentry, parts[1..], d, e); }
    }
  }

  lemma {:induction false} EnterDeeper(t: Tree, root: nat, missing: int, de: nat, part: Part, d: nat, e: nat)
    requires Closed(t) && root in t && de in t && d <= e
    requires Enter(t, root, missing, de, part, d) != Deeper
    ensures Enter(t, root, missing, de, part, e) == Enter(t, root, missing, de, part, d)
    decreases d, 0, 0
  {
    hide Follow;
    if part.name != "." && part.name != ".." && t[de].kind == Directory {
      var child := Child(t, de, part.name);
      if child != [] && t[child[0]].kind.Link? && part.more && d > 0 {
        FollowDeeper(t, root, missing, child[0], d - 1, e - 1);
      }
    }
  }

  lemma {:induction false} FollowDeeper(t: Tree, root: nat, missing: int, link: nat, d: nat, e: nat)
    requires Closed(t) && root in t && link in t && t[link].kind.Link? && t[link].parent.Under? && d <= e
    requires Follow(t, root, missing, link, d) != Deeper
    ensures Follow(t, root, missing, link, e) == Follow(t, root, missing, link, d)
    decreases d, 3, 0
  {
    var path := ReadLink(t[link].kind.target);
    if path != "" {
      WalkDeeper(t, root, missing, if path[0] == '/' then root else t[link].parent.dir, Parts(path), d, e);
    }
  }

  predicate IsLink(t: Tree, x: nat) {
    x in t && t[x].kind.Link? && t[x].parent.Under?
  }

  /** The links that do not resolve within a depth. */
  function Unresolved(t: Tree, root: nat, missing: int, d: nat): set<nat>
    requires Closed(t) && root in t
  {
    set x | x in t && IsLink(t, x) && Follow(t, root, missing, x, d) == Deeper
  }

  /** When one more level resolves no further link, no number of levels changes any result. */
  lemma {:induction false} StableWalk(t: Tree, root: nat, missing: int, de: nat, parts: seq<Part>, d: nat)
    requires Closed(t) && root in t && de in t
    requires Unresolved(t, root, missing, d) == Unresolved(t, root, missing, d + 1)
    ensures Walk(t, root, missing, de, parts, d + 1) == Walk(t, root, missing, de, parts, d + 2)
    decreases |parts|
  {
    if parts != [] {
      var r := Enter(t, root, missing, de, parts[0], d + 1);
      assert Enter(t, root, missing, de, parts[0], d + 2) == r by {
        var part := parts[0];
        if part.name != "." && part.name != ".." && t[de].kind == Directory {
          var child := Child(t, de, part.name);
          if child != [] && t[child[0]].kind.Link? && part.more { SameFollow(t, root, missing, child[0], d); }
        }
      }
      if r.At? { StableWalk(t, root, missing, r.dentry, parts[1..], d); }
    }
  }

  lemma SameFollow(t: Tree, root: nat, missing: int, link: nat, d: nat)
    requires Closed(t) && root in t && IsLink(t, link)
    requires Unresolved(t, root, missing, d) == Unresolved(t, root, missing, d + 1)
    ensures Follow(t, root, missing, link, d) == Follow(t, root, missing, link, d + 1)
  {
    if Follow(t, root, missing, link, d) != Deeper {
      FollowDeeper(t, root, missing, link, d, d + 1);
    } else {
      assert link in Unresolved(t, root, missing, d);
    }
  }

  lemma UnresolvedShrinks(t: Tree, root: nat, missing: int, d: nat)
    requires Closed(t) && root in t
    ensures Unresolved(t, root, missing, d + 1) <= Unresolved(t, root, missing, d)
  {
    forall x | x in Unresolved(t, root, missing, d + 1) ensures x in Unresolved(t, root, missing, d) {
      if Follow(t, root, missing, x, d) != Deeper { FollowDeeper(t, root, missing, x, d, d + 1); }
    }
  }

  lemma StaysStable(t: Tree, root: nat, missing: int, d: nat)
    requires Closed(t) && root in t
    requires Unresolved(t, root, missing, d) == Unresolved(t, root, missing, d + 1)
    ensures Unresolved(t, root, missing, d + 1) == Unresolved(t, root, missing, d + 2)
  {
    forall x | x in t && IsLink(t, x) ensures Follow(t, root, missing, x, d + 1) == Follow(t, root, missing, x, d + 2) {
      var path := ReadLink(t[x].kind.target);
      if path != "" { StableWalk(t, root, missing, if path[0] == '/' then root else t[x].parent.dir, Parts(path), d); }
    }
  }

  lemma {:induction false} Settles(t: Tree, root: nat, missing: int, d: nat)
    requires Closed(t) && root in t
    ensures Unresolved(t, root, missing, d) == Unresolved(t, root, missing, d + 1)
         || |Unresolved(t, root, missing, d + 1)| + d + 1 <= |t|
  {
    UnresolvedShrinks(t, root, missing, d);
    assert Unresolved(t, root, missing, d) <= t.Keys;
    hide Unresolved, Closed;
    if d == 0 {
      SubsetSize(Unresolved(t, root, missing, 0), t.Keys);
      SubsetSize(Unresolved(t, root, missing, 1), Unresolved(t, root, missing, 0));
    } else {
      Settles(t, root, missing, d - 1);
      if Unresolved(t, root, missing, d - 1) == Unresolved(t, root, missing, d) {
        StaysStable(t, root, missing, d - 1);
      } else {
        SubsetSize(Unresolved(t, root, missing, d + 1), Unresolved(t, root, missing, d));
      }
    }
  }

  /** A walk that nests links deeper than there are dentries never ends: past that depth no result changes. */
  lemma {:induction false} DepthSuffices(t: Tree, root: nat, missing: int, cwd: nat, path: string, d: nat)
    requires Closed(t) && root in t && cwd in t && d > |t|
    ensures Lookup(t, root, missing, cwd, path, d) == Lookup(t, root, missing, cwd, path, |t| + 1)
    decreases d
  {
    hide Unresolved, Walk, Parts, Closed;
    if d > |t| + 1 && path != "" {
      Settles(t, root, missing, d - 2);
      StableWalk(t, root, missing, if path[0] == '/' then root else cwd, Parts(path), d - 2);
      DepthSuffices(t, root, missing, cwd, path, d - 1);
    }
  }

  /** The lookup comes to an end: some depth of nesting is enough for it. */
  ghost predicate Ends(t: Tree, root: nat, missing: int, cwd: nat, path: string)
    requires Closed(t) && root in t && cwd in t
  {
    exists d: nat :: Lookup(t, root, missing, cwd, path, d) != Deeper
  }

  /** A lookup ends if and only if it does within as many nested links as there are dentries, and one more. */
  lemma EndsIff(t: Tree, root: nat, missing: int, cwd: nat, path: string)
    requires Closed(t) && root in t && cwd in t
    ensures Ends(t, root, missing, cwd, path) <==> Lookup(t, root, missing, cwd, path, |t| + 1) != Deeper
  {
    if d: nat :| Lookup(t, root, missing, cwd, path, d) != Deeper {
      var e := d + |t| + 1;
      LookupDeeper(t, root, missing, cwd, path, d, e);
      DepthSuffices(t, root, missing, cwd, path, e);
    }
  }

  lemma LookupDeeper(t: Tree, root: nat, missing: int, cwd: nat, path: string, d: nat, e: nat)
    requires Closed(t) && root in t && cwd in t && d <= e && Lookup(t, root, missing, cwd, path, d) != Deeper
    ensures Lookup(t, root, missing, cwd, path, e) == Lookup(t, root, missing, cwd, path, d)
  {
    if path != "" { WalkDeeper(t, root, missing, if path[0] == '/' then root else cwd, Parts(path), d, e); }
  }

  lemma {:induction false} ResolvedWalk(t: Tree, root: nat, missing: int, de: nat, parts: seq<Part>, d: nat)
    requires Closed(t) && root in t && de in t && Unresolved(t, root, missing, d) == {}
    ensures Walk(t, root, missing, de, parts, d + 1) != Deeper
    decreases |parts|
  {
    if parts != [] {
      var r := Enter(t, root, missing, de, parts[0], d + 1);
      ResolvedEnter(t, root, missing, de, parts[0], d);
      if r.At? { ResolvedWalk(t, root, missing, r.dentry, parts[1..], d); }
    }
  }

  lemma ResolvedEnter(t: Tree, root: nat, missing: int, de: nat, part: Part, d: nat)
    requires Closed(t) && root in t && de in t && Unresolved(t, root, missing, d) == {}
    ensures Enter(t, root, missing, de, part, d + 1) != Deeper
  {
    if part.name != "." && part.name != ".." && t[de].kind == Directory {
      var child := Child(t, de, part.name);
      if child != [] && t[child[0]].kind.Link? { assert child[0] !in Unresolved(t, root, missing, d); }
    }
  }

  lemma IsUnresolved(t: Tree, root: nat, missing: int, x: nat, d: nat)
    requires Closed(t) && root in t
    ensures x in Unresolved(t, root, missing, d) <==> IsLink(t, x) && Follow(t, root, missing, x, d) == Deeper
  {
  }

  lemma {:induction false} UnresolvedStays(t: Tree, root: nat, missing: int, x: nat, d: nat)
    requires Closed(t) && root in t && x in Unresolved(t, root, missing, |t|)
    ensures IsLink(t, x) && Follow(t, root, missing, x, d) == Deeper
    decreases d
  {
    IsUnresolved(t, root, missing, x, |t|);
    hide Unresolved, Follow, Closed;
    if d <= |t| {
      if Follow(t, root, missing, x, d) != Deeper { FollowDeeper(t, root, missing, x, d, |t|); }
    } else {
      UnresolvedStays(t, root, missing, x, d - 1);
      Settles(t, root, missing, d - 1);
      IsUnresolved(t, root, missing, x, d - 1);
      IsUnresolved(t, root, missing, x, d);
    }
  }

  // Composition.

  /** The same components with something left after the last. */
  function Marked(parts: seq<Part>): seq<Part> {
    if parts == [] then [] else parts[..|parts| - 1] + [parts[|parts| - 1].(more := true)]
  }

  lemma MarkedCons(part: Part, parts: seq<Part>)
    ensures Marked([part] + parts) == if parts == [] then [part.(more := true)] else [part] + Marked(parts)
  {
  }

  lemma {:induction false} LengthBefore(s: string, rest: string)
    ensures ComponentLength(s + "/" + rest) == ComponentLength(s)
  {
    if s != "" && s[0] != '/' {
      LengthBefore(s[1..], rest);
      assert (s + "/" + rest)[1..] == s[1..] + "/" + rest;
    } else {
      assert (s + "/" + rest)[0] == '/';
    }
  }

  lemma {:induction false} PartsJoin(p: string, q: string)
    ensures Parts(p + "/" + q) == Marked(Parts(p)) + Parts(q)
    decreases |p|
  {
    var s := p + "/" + q;
    if p == "" {
      assert s[1..] == q;
    } else if p[0] == '/' {
      assert s[1..] == p[1..] + "/" + q;
      PartsJoin(p[1..], q);
    } else {
      var n := ComponentLength(p);
      LengthBefore(p, q);
      assert s[..n] == p[..n] && s[n..] == p[n..] + "/" + q;
      PartsJoin(p[n..], q);
      MarkedCons(Part(p[..n], n < |p|), Parts(p[n..]));
      assert Parts(p) == [Part(p[..n], n < |p|)] + Parts(p[n..]);
      assert Parts(s) == [Part(p[..n], true)] + Parts(s[n..]);
    }
  }

  lemma {:induction false} WalkAppend(t: Tree, root: nat, missing: int, de: nat, a: seq<Part>, b: seq<Part>, d: nat)
    requires Closed(t) && root in t && de in t
    ensures var r := Walk(t, root, missing, de, a, d);
      Walk(t, root, missing, de, a + b, d) == if r.At? then Walk(t, root, missing, r.dentry, b, d) else r
    decreases |a|
  {
    if a == [] {
      assert a + b == b;
    } else {
      assert (a + b)[1..] == a[1..] + b;
      var r := Enter(t, root, missing, de, a[0], d);
      if r.At? { WalkAppend(t, root, missing, r.dentry, a[1..], b, d); }
    }
  }

  /** Only a link at the very end can tell whether the path goes on. */
  lemma WalkMarked(t: Tree, root: nat, missing: int, de: nat, a: seq<Part>, d: nat)
    requires Closed(t) && root in t && de in t
    requires var r := Walk(t, root, missing, de, a, d); !(r.At? && t[r.dentry].kind.Link?)
    ensures Walk(t, root, missing, de, Marked(a), d) == Walk(t, root, missing, de, a, d)
  {
    if a != [] {
      var k := |a| - 1;
      assert a == a[..k] + [a[k]];
      WalkAppend(t, root, missing, de, a[..k], [a[k]], d);
      WalkAppend(t, root, missing, de, a[..k], [a[k].(more := true)], d);
      var r := Walk(t, root, missing, de, a[..k], d);
      if r.At? { EnterMarked(t, root, missing, r.dentry, a[k], d); }
    }
  }

  lemma EnterMarked(t: Tree, root: nat, missing: int, de: nat, part: Part, d: nat)
    requires Closed(t) && root in t && de in t
    requires var r := Walk(t, root, missing, de, [part], d); !(r.At? && t[r.dentry].kind.Link?)
    ensures Walk(t, root, missing, de, [part.(more := true)], d) == Walk(t, root, missing, de, [part], d)
  {
    var marked := part.(more := true);
    assert [part][1..] == [] && [marked][1..] == [];
    assert Walk(t, root, missing, de, [part], d) == Enter(t, root, missing, de, part, d);
    assert Walk(t, root, missing, de, [marked], d) == Enter(t, root, missing, de, marked, d);
  }

  /** Looking up p/q is looking up q from where p leads, and fails as p does, unless p ends at a symbolic link. */
  lemma LookupComposes(t: Tree, root: nat, missing: int, cwd: nat, p: string, q: string, d: nat)
    requires Closed(t) && root in t && cwd in t && p != "" && q != "" && q[0] != '/'
    requires var r := Lookup(t, root, missing, cwd, p, d); !(r.At? && t[r.dentry].kind.Link?)
    ensures var r := Lookup(t, root, missing, cwd, p, d);
      Lookup(t, root, missing, cwd, p + "/" + q, d) == if r.At? then Lookup(t, root, missing, r.dentry, q, d) else r
  {
    var start := if p[0] == '/' then root else cwd;
    PartsJoin(p, q);
    WalkMarked(t, root, missing, start, Parts(p), d);
    WalkAppend(t, root, missing, start, Marked(Parts(p)), Parts(q), d);
  }

  // The printed working directory.

  predicate NameOk(name: string) {
    name != "" && name != "." && name != ".." && forall i | 0 <= i < |name| :: name[i] != '/'
  }

  predicate DistinctNames(t: Tree, children: seq<nat>) {
    forall i, j | 0 <= i < j < |children| :: children[i] in t && children[j] in t ==> t[children[i]].name != t[children[j]].name
  }

  /** A tree below root; level falls towards the root, so there are no cycles. */
  predicate TreeOk(t: Tree, root: nat, level: map<nat, nat>) {
    && Closed(t) && root in t && level.Keys == t.Keys && t[root].parent == Nobody
    && (forall x | x in t :: DistinctNames(t, t[x].children))
    && (forall x | x in t && x != root :: NodeOk(t, x, level))
  }

  predicate NodeOk(t: Tree, x: nat, level: map<nat, nat>)
    requires x in t && level.Keys == t.Keys
  {
    && NameOk(t[x].name) && t[x].parent.Under? && t[x].parent.dir in t
    && x in t[t[x].parent.dir].children && t[t[x].parent.dir].kind == Directory
    && level[t[x].parent.dir] < level[x]
  }

  /** The names from the root down to a dentry, each after a slash. */
  function Names(t: Tree, root: nat, level: map<nat, nat>, x: nat): string
    requires TreeOk(t, root, level) && x in t
    decreases level[x]
  {
    if x == root then ""
    else
      assert NodeOk(t, x, level);
      Names(t, root, level, t[x].parent.dir) + "/" + t[x].name
  }

  function Printed(t: Tree, root: nat, level: map<nat, nat>, x: nat): string
    requires TreeOk(t, root, level) && x in t
  {
    var names := Names(t, root, level, x);
    if names == "" then "/" else names
  }

  lemma {:induction false} ChildByName(t: Tree, children: seq<nat>, x: nat)
    requires (forall i | 0 <= i < |children| :: children[i] in t) && DistinctNames(t, children) && x in children
    ensures ChildFrom(t, children, t[x].name) == [x]
  {
    if children[0] != x {
      var k :| 0 <= k < |children| && children[k] == x;
      assert t[children[0]].name != t[children[k]].name;
      ChildByName(t, children[1..], x);
    }
  }

  lemma {:induction false} WholeComponent(s: string)
    requires forall i | 0 <= i < |s| :: s[i] != '/'
    ensures ComponentLength(s) == |s|
  {
    if s != "" { WholeComponent(s[1..]); }
  }

  lemma PartsOf(name: string)
    requires name != "" && forall i | 0 <= i < |name| :: name[i] != '/'
    ensures Parts(name) == [Part(name, false)]
  {
    WholeComponent(name);
    assert name[..|name|] == name && name[|name|..] == "";
    assert Parts("") == [];
  }

  /** One step down to a named child. */
  lemma StepDown(t: Tree, root: nat, level: map<nat, nat>, missing: int, x: nat, d: nat)
    requires TreeOk(t, root, level) && x in t && x != root
    ensures NodeOk(t, x, level) && Walk(t, root, missing, t[x].parent.dir, [Part(t[x].name, false)], d) == At(x)
  {
    assert NodeOk(t, x, level);
    var up := t[x].parent.dir;
    ChildByName(t, t[up].children, x);
    assert [Part(t[x].name, false)][1..] == [];
    assert Enter(t, root, missing, up, Part(t[x].name, false), d) == At(x);
  }

  lemma {:induction false} WalkNames(t: Tree, root: nat, level: map<nat, nat>, missing: int, x: nat, d: nat)
    requires TreeOk(t, root, level) && x in t
    ensures Walk(t, root, missing, root, Parts(Names(t, root, level, x)), d) == At(x)
    decreases level[x]
  {
    if x != root {
      StepDown(t, root, level, missing, x, d);
      var up := t[x].parent.dir;
      var names := Names(t, root, level, up);
      WalkNames(t, root, level, missing, up, d);
      PartsJoin(names, t[x].name);
      PartsOf(t[x].name);
      WalkMarked(t, root, missing, root, Parts(names), d);
      WalkAppend(t, root, missing, root, Marked(Parts(names)), [Part(t[x].name, false)], d);
    }
  }

  /** Looking up the printed path of a dentry, from anywhere and without nesting any link, gives that dentry back. */
  lemma PrintedRoundTrip(t: Tree, root: nat, level: map<nat, nat>, missing: int, cwd: nat, x: nat, d: nat)
    requires TreeOk(t, root, level) && x in t && cwd in t
    ensures Lookup(t, root, missing, cwd, Printed(t, root, level, x), d) == At(x)
  {
    WalkNames(t, root, level, missing, x, d);
    var names := Names(t, root, level, x);
    NamesStart(t, root, level, x);
    if names == "" {
      assert Parts("/") == [] by { assert "/"[1..] == ""; }
    }
  }

  lemma {:induction false} NamesStart(t: Tree, root: nat, level: map<nat, nat>, x: nat)
    requires TreeOk(t, root, level) && x in t
    ensures var names := Names(t, root, level, x); if x == root then names == "" else names != "" && names[0] == '/'
    decreases level[x]
  {
    if x != root {
      assert NodeOk(t, x, level);
      NamesStart(t, root, level, t[x].parent.dir);
    }
  }

  // Lookups that do not end.

  /** A link of a tree is followed by its own name and a slash. */
  lemma LinkByName(t: Tree, root: nat, level: map<nat, nat>, missing: int, x: nat, d: nat)
    requires TreeOk(t, root, level) && IsLink(t, x)
    ensures t[x].parent.dir in t
    ensures Lookup(t, root, missing, t[x].parent.dir, t[x].name + "/", d) ==
      if d == 0 then Deeper else Follow(t, root, missing, x, d - 1)
  {
    assert x != root && NodeOk(t, x, level);
    var up, name := t[x].parent.dir, t[x].name;
    PartsOf(name);
    PartsJoin(name, "");
    assert name + "/" + "" == name + "/";
    assert Marked([Part(name, false)]) + Parts("") == [Part(name, true)];
    assert [Part(name, true)][1..] == [];
    ChildByName(t, t[up].children, x);
    assert Child(t, up, name) == [x];
    var r := Enter(t, root, missing, up, Part(name, true), d);
    assert Walk(t, root, missing, up, [Part(name, true)], d) == r;
  }

  lemma ResolvedEnds(t: Tree, root: nat, missing: int, cwd: nat, path: string)
    requires Closed(t) && root in t && cwd in t && Unresolved(t, root, missing, |t|) == {}
    ensures Ends(t, root, missing, cwd, path)
  {
    if path != "" { ResolvedWalk(t, root, missing, if path[0] == '/' then root else cwd, Parts(path), |t|); }
    hide Unresolved, Closed, Walk;
    assert Lookup(t, root, missing, cwd, path, |t| + 1) != Deeper;
  }

  lemma UnresolvedNever(t: Tree, root: nat, level: map<nat, nat>, missing: int, x: nat)
    requires TreeOk(t, root, level) && x in Unresolved(t, root, missing, |t|)
    ensures x in t && t[x].parent.Under? && t[x].parent.dir in t && !Ends(t, root, missing, t[x].parent.dir, t[x].name + "/")
  {
    IsUnresolved(t, root, missing, x, |t|);
    LinkByName(t, root, level, missing, x, |t| + 1);
    EndsIff(t, root, missing, t[x].parent.dir, t[x].name + "/");
  }

  /** In a tree every lookup ends if and only if every link resolves within as many levels as there are dentries. */
  lemma AllEndIff(t: Tree, root: nat, level: map<nat, nat>, missing: int)
    requires TreeOk(t, root, level)
    ensures (forall cwd, path | cwd in t :: Ends(t, root, missing, cwd, path)) <==> Unresolved(t, root, missing, |t|) == {}
  {
    hide Unresolved, Ends, Closed;
    if Unresolved(t, root, missing, |t|) == {} {
      forall cwd, path | cwd in t ensures Ends(t, root, missing, cwd, path) { ResolvedEnds(t, root, missing, cwd, path); }
    } else {
      var x :| x in Unresolved(t, root, missing, |t|);
      UnresolvedNever(t, root, level, missing, x);
      var up, path := t[x].parent.dir, t[x].name + "/";
      assert up in t && !Ends(t, root, missing, up, path);
    }
  }

  /** A root with one link in it whose target goes through that link. */
  function LoopTree(): Tree {
    map[0 := Dentry("", Nobody, [1], Directory), 1 := Dentry("l", Under(0), [], Link("l/x"))]
  }

  lemma LoopParts()
    ensures Parts("l/x") == [Part("l", true), Part("x", false)]
  {
    assert "l/x"[1..] == "/x" && "/x"[1..] == "x" && "l/x"[..1] == "l" && "x"[1..] == "" && "x"[..1] == "x";
    assert ComponentLength("/x") == 0 && ComponentLength("l/x") == 1 && ComponentLength("x") == 1 + ComponentLength("");
    assert Parts("x") == [Part("x", false)] + Parts("");
    assert Parts("") == [];
    assert Parts("/x") == Parts("x");
  }

  lemma LoopTreeOk()
    ensures TreeOk(LoopTree(), 0, map[0 := 0, 1 := 1]) && Child(LoopTree(), 0, "l") == [1]
  {
    var t := LoopTree();
    assert t[0].children[0] == 1 && 1 in t[0].children;
    assert NodeOk(t, 1, map[0 := 0, 1 := 1]);
    ChildByName(t, t[0].children, 1);
  }

  lemma LoopEnter(missing: int, d: nat)
    ensures Closed(LoopTree())
    ensures Enter(LoopTree(), 0, missing, 0, Part("l", true), d) ==
      if d == 0 then Deeper else Lookup(LoopTree(), 0, missing, 0, "l/x", d - 1)
  {
    LoopTreeOk();
    hide Lookup, Child;
    assert ReadLink("l/x") == "l/x";
  }

  /** Looking the link's target up never ends: no depth of nesting is enough. */
  lemma {:induction false} LoopNeverEnds(missing: int, d: nat)
    ensures Closed(LoopTree()) && Lookup(LoopTree(), 0, missing, 0, "l/x", d) == Deeper
  {
    LoopParts();
    LoopEnter(missing, d);
    hide Enter, LoopTree, Closed, Parts;
    if d > 0 { LoopNeverEnds(missing, d - 1); }
  }

  // What single components do.

  /** Looking up a single component is one step. */
  lemma LookupName(t: Tree, root: nat, missing: int, cwd: nat, name: string, d: nat)
    requires Closed(t) && root in t && cwd in t && name != "" && forall i | 0 <= i < |name| :: name[i] != '/'
    ensures Lookup(t, root, missing, cwd, name, d) == Enter(t, root, missing, cwd, Part(name, false), d)
  {
    PartsOf(name);
    assert [Part(name, false)][1..] == [];
    assert Walk(t, root, missing, cwd, [Part(name, false)], d) == Enter(t, root, missing, cwd, Part(name, false), d);
  }

  /** ".." leads to the parent and stays at the root; "." stays everywhere. */
  lemma DotDot(t: Tree, root: nat, level: map<nat, nat>, missing: int, x: nat, d: nat)
    requires TreeOk(t, root, level) && x in t
    ensures Lookup(t, root, missing, root, "..", d) == At(root)
    ensures x != root ==> t[x].parent.Under? && Lookup(t, root, missing, x, "..", d) == At(t[x].parent.dir)
    ensures Lookup(t, root, missing, x, ".", d) == At(x)
  {
    LookupName(t, root, missing, x, "..", d);
    LookupName(t, root, missing, root, "..", d);
    LookupName(t, root, missing, x, ".", d);
    if x != root { assert NodeOk(t, x, level); }
  }

  /** Any path that leads to something but a link, followed by "..", leads to the directory that is in. */
  lemma PathThenUp(t: Tree, root: nat, level: map<nat, nat>, missing: int, cwd: nat, p: string, d: nat)
    requires TreeOk(t, root, level) && cwd in t && p != ""
    requires var r := Lookup(t, root, missing, cwd, p, d); r.At? && !t[r.dentry].kind.Link?
    ensures var x := Lookup(t, root, missing, cwd, p, d).dentry;
      && (x == root ==> Lookup(t, root, missing, cwd, p + "/..", d) == At(root))
      && (x != root ==> t[x].parent.Under? && Lookup(t, root, missing, cwd, p + "/..", d) == At(t[x].parent.dir))
  {
    LookupComposes(t, root, missing, cwd, p, "..", d);
    assert p + "/" + ".." == p + "/..";
    DotDot(t, root, level, missing, Lookup(t, root, missing, cwd, p, d).dentry, d);
  }

  /** Down to a child and up again is where one was. */
  lemma DownThenUp(t: Tree, root: nat, level: map<nat, nat>, missing: int, x: nat, d: nat)
    requires TreeOk(t, root, level) && x in t && x != root && !t[x].kind.Link?
    ensures t[x].parent.Under? && t[x].parent.dir in t
    ensures Lookup(t, root, missing, t[x].parent.dir, t[x].name + "/..", d) == At(t[x].parent.dir)
  {
    StepDown(t, root, level, missing, x, d);
    PartsOf(t[x].name);
    PathThenUp(t, root, level, missing, t[x].parent.dir, t[x].name, d);
  }

  /** An absolute path starts at the root wherever one is, and "/" is the root. */
  lemma AbsolutePath(t: Tree, root: nat, missing: int, cwd: nat, p: string, d: nat)
    requires Closed(t) && root in t && cwd in t
    ensures Lookup(t, root, missing, cwd, "/" + p, d) == if p == "" then At(root) else Lookup(t, root, missing, root, p, d)
  {
    assert ("/" + p)[1..] == p;
    assert p == "" ==> Parts(p) == [];
  }

  /**
   * Going on behind a symbolic link: its target is looked up in the directory the link itself is in, or from the root
   * if it starts with a slash, and the rest of the path from there.
   */
  lemma ThroughLink(t: Tree, root: nat, level: map<nat, nat>, missing: int, x: nat, rest: string, d: nat)
    requires TreeOk(t, root, level) && x in t && t[x].kind.Link? && x != root && rest != "" && rest[0] != '/'
    ensures t[x].parent.Under? && t[x].parent.dir in t
    ensures Lookup(t, root, missing, t[x].parent.dir, t[x].name + "/" + rest, d + 1) ==
      var r := Lookup(t, root, missing, t[x].parent.dir, ReadLink(t[x].kind.target), d);
      if r.At? then Lookup(t, root, missing, r.dentry, rest, d + 1) else r
  {
    assert NodeOk(t, x, level);
    var up, name := t[x].parent.dir, t[x].name;
    PartsOf(name);
    PartsJoin(name, rest);
    assert Marked([Part(name, false)]) == [Part(name, true)];
    ChildByName(t, t[up].children, x);
    assert Child(t, up, name) == [x];
    var parts := [Part(name, true)] + Parts(rest);
    assert parts[1..] == Parts(rest) && parts[0] == Part(name, true);
    assert Enter(t, root, missing, up, Part(name, true), d + 1) == Follow(t, root, missing, x, d);
  }

  /** readlink hands back at most 4095 bytes of the target. */
  lemma ReadLinkExact(target: string)
    ensures ReadLink(target) == if |target| < 4096 then target else target[..4095]
  {
  }

  /**
   * An ordinary name from x: ENOENT without an inode, ENOTDIR from anything but a directory, the error for a missing
   * name if no child has it, and otherwise the first child that does, even if that is a link. The empty path is EINVAL.
   */
  lemma NameExact(t: Tree, root: nat, missing: int, x: nat, name: string, d: nat)
    requires Closed(t) && root in t && x in t && NameOk(name)
    ensures Lookup(t, root, missing, x, "", d) == Fails(-22)
    ensures t[x].kind == NoInode ==> Lookup(t, root, missing, x, name, d) == Fails(-2)
    ensures t[x].kind.Regular? || t[x].kind.Link? ==> Lookup(t, root, missing, x, name, d) == Fails(-20)
    ensures t[x].kind == Directory && (forall i | 0 <= i < |t[x].children| :: t[t[x].children[i]].name != name) ==>
              Lookup(t, root, missing, x, name, d) == Fails(missing)
    ensures forall i | 0 <= i < |t[x].children| && t[t[x].children[i]].name == name && t[x].kind == Directory
              && (forall j | 0 <= j < i :: t[t[x].children[j]].name != name) ::
              Lookup(t, root, missing, x, name, d) == At(t[x].children[i])
  {
    LookupName(t, root, missing, x, name, d);
    ChildIn(t, t[x].children, name);
    forall i | 0 <= i < |t[x].children| && t[t[x].children[i]].name == name
              && (forall j | 0 <= j < i :: t[t[x].children[j]].name != name)
      ensures ChildFrom(t, t[x].children, name) == [t[x].children[i]]
    {
      FirstChild(t, t[x].children, name, i);
    }
    hide ChildFrom, Lookup;
  }

  lemma {:induction false} FirstChild(t: Tree, children: seq<nat>, name: string, i: nat)
    requires (forall k | 0 <= k < |children| :: children[k] in t) && i < |children| && t[children[i]].name == name
    requires forall j | 0 <= j < i :: t[children[j]].name != name
    ensures ChildFrom(t, children, name) == [children[i]]
  {
    if i > 0 {
      assert t[children[0]].name != name;
      FirstChild(t, children[1..], name, i - 1);
    }
  }

  // The shape of the printed working directory.

  predicate Plain(p: string) {
    (forall i | 0 <= i < |p| - 1 :: p[i] == '/' ==> p[i + 1] != '/') && (p != "" ==> p[|p| - 1] != '/')
  }

  lemma PlainJoin(p: string, name: string)
    requires Plain(p) && NameOk(name)
    ensures Plain(p + "/" + name)
  {
    var s, n := p + "/" + name, |p|;
    assert forall k | n < k < |s| :: s[k] == name[k - n - 1];
    forall i | 0 <= i < |s| - 1 && s[i] == '/' ensures s[i + 1] != '/' {
      if i < n - 1 { assert s[i] == p[i] && s[i + 1] == p[i + 1]; }
    }
    assert s[|s| - 1] == name[|name| - 1];
  }

  lemma {:induction false} NamesPlain(t: Tree, root: nat, level: map<nat, nat>, x: nat)
    requires TreeOk(t, root, level) && x in t
    ensures Plain(Names(t, root, level, x))
    decreases level[x]
  {
    if x != root {
      assert NodeOk(t, x, level);
      NamesPlain(t, root, level, t[x].parent.dir);
      PlainJoin(Names(t, root, level, t[x].parent.dir), t[x].name);
    }
  }

  /** The printed path starts with a slash, has no two in a row and, but for the root, none at its end. */
  lemma PrintedPlain(t: Tree, root: nat, level: map<nat, nat>, x: nat)
    requires TreeOk(t, root, level) && x in t
    ensures var p := Printed(t, root, level, x); p != "" && p[0] == '/' && (p == "/" <==> x == root) && (x != root ==> Plain(p))
  {
    NamesStart(t, root, level, x);
    NamesPlain(t, root, level, x);
  }
}
