/** The dentry cache with its reference counts, and vfs_lookup and sys_getcwd over it. */
module Paths {
  import opened Base
  import opened PathSpec

  /** One more reference. */
  function Plus(refs: map<nat, nat>, x: nat): map<nat, nat> {
    if x in refs then refs[x := refs[x] + 1] else refs
  }

  predicate AllPositive(refs: map<nat, nat>) {
    forall x | x in refs :: refs[x] > 0
  }

  /** Taking a reference to y and dropping one to x. */
  lemma PlusOrder(refs: map<nat, nat>, x: nat, y: nat)
    requires x in refs && y in refs && AllPositive(refs)
    ensures var both := Plus(Plus(refs, x), y); x in both && both[x] > 1 && both[x := both[x] - 1] == Plus(refs, y)
    ensures AllPositive(Plus(refs, y)) && Plus(refs, y).Keys == refs.Keys && Plus(refs, x).Keys == refs.Keys
  {
  }

  lemma PlusDrop(refs: map<nat, nat>, x: nat)
    requires x in refs
    ensures Plus(refs, x)[x := Plus(refs, x)[x] - 1] == refs
  {
  }

  lemma PartsSkip(path: string, i: nat)
    requires i < |path| && path[i] == '/'
    ensures Parts(path[i..]) == Parts(path[i + 1..])
  {
    assert path[i..][1..] == path[i + 1..];
  }

  lemma PartsNext(path: string, start: nat, end: nat)
    requires start < end <= |path| && (forall k | start <= k < end :: path[k] != '/') && (end < |path| ==> path[end] == '/')
    ensures Parts(path[start..]) == [Part(path[start..end], end < |path|)] + Parts(path[end..])
  {
    var s := path[start..];
    var n := ComponentLength(s);
    assert forall k | 0 <= k < |s| :: s[k] == path[start + k];
    assert n == end - start;
    assert s[..n] == path[start..end] && s[n..] == path[end..];
  }

  lemma NoParts()
    ensures Parts("") == []
  {
  }

  /** The walk over a path's rest, by its first component. */
  lemma WalkStep(t: Tree, root: nat, missing: int, de: nat, path: string, start: nat, end: nat, depth: nat)
    requires Closed(t) && root in t && de in t && start < end <= |path|
    requires Parts(path[start..]) == [Part(path[start..end], end < |path|)] + Parts(path[end..])
    ensures var r := Enter(t, root, missing, de, Part(path[start..end], end < |path|), depth);
      Walk(t, root, missing, de, Parts(path[start..]), depth) ==
        if r.At? then Walk(t, root, missing, r.dentry, Parts(path[end..]), depth) else r
  {
    assert ([Part(path[start..end], end < |path|)] + Parts(path[end..]))[1..] == Parts(path[end..]);
    hide Parts, Enter;
  }

  /** Skipping slashes loses no component. */
  method SkipSlashes(path: string, from: nat) returns (i: nat)
    requires from <= |path|
    ensures from <= i <= |path| && (i < |path| ==> path[i] != '/') && Parts(path[i..]) == Parts(path[from..])
  {
    i := from;
    while i < |path| && path[i] == '/'
      invariant from <= i <= |path| && Parts(path[i..]) == Parts(path[from..])
    {
      PartsSkip(path, i);
      i := i + 1;
    }
  }

  /** The component that starts at a character that is no slash, split off the rest. */
  method ComponentEnd(path: string, start: nat) returns (end: nat)
    requires start < |path| && path[start] != '/'
    ensures start < end <= |path|
    ensures Parts(path[start..]) == [Part(path[start..end], end < |path|)] + Parts(path[end..])
  {
    end := start;
    while end < |path| && path[end] != '/'
      invariant start <= end <= |path| && forall k | start <= k < end :: path[k] != '/'
    {
      end := end + 1;
    }
    PartsNext(path, start, end);
  }

  lemma {:induction false} DelLast(s: seq<nat>, x: nat)
    requires x !in s
    ensures Del(s + [x], x) == s
  {
    if s == [] {
      assert s + [x] == [x];
    } else {
      assert (s + [x])[1..] == s[1..] + [x];
      DelLast(s[1..], x);
    }
  }

  /** What dentry_free leaves. */
  function Freed(t: Tree, x: nat): Tree
    requires x in t && (t[x].parent.Under? ==> t[x].parent.dir in t)
  {
    if t[x].parent.Under? then
      var dir := t[x].parent.dir;
      t[dir := t[dir].(children := Del(t[dir].children, x))] - {x}
    else t - {x}
  }

  /** A tree with a new child, not backed by an inode. */
  function Linked(t: Tree, x: nat, name: string, dir: nat): Tree
    requires dir in t
  {
    t[dir := t[dir].(children := t[dir].children + [x])][x := Dentry(name, Under(dir), [], NoInode)]
  }

  lemma LinkUndone(t: Tree, x: nat, name: string, dir: nat)
    requires Closed(t) && dir in t && x !in t
    ensures Closed(Linked(t, x, name, dir))
    ensures var n := Linked(t, x, name, dir);
      x in n && n[x].parent == Under(dir) && dir in n && Freed(n, x) == t
  {
    var n := Linked(t, x, name, dir);
    assert n[dir].children == t[dir].children + [x];
    DelLast(t[dir].children, x);
    assert n[dir := n[dir].(children := t[dir].children)] - {x} == t;
    forall y | y in n ensures
      && (n[y].parent.Under? ==> n[y].parent.dir in n)
      && (forall i | 0 <= i < |n[y].children| :: n[y].children[i] in n && n[n[y].children[i]].parent == Under(y))
    {
      forall i | 0 <= i < |n[y].children| ensures n[y].children[i] in n && n[n[y].children[i]].parent == Under(y) {
        if y == dir && i == |t[dir].children| {
          assert n[y].children[i] == x;
        } else if y in t {
          assert n[y].children[i] == t[y].children[i];
        }
      }
    }
  }

  lemma OrphanClosed(t: Tree, x: nat, name: string)
    requires Closed(t) && x !in t
    ensures Closed(t[x := Dentry(name, Nobody, [], NoInode)])
  {
  }

  /** What vfs_lookup reports for a name that is not there. */
  function Missing(canAlloc: bool): int {
    if canAlloc then -ENOENT else -ENOMEM
  }

  class Dcache {
    const root: nat
    var tree: Tree
    var refs: map<nat, nat>
    var nextId: nat

    ghost predicate Valid()
      reads this
    {
      && Closed(tree) && root in tree && refs.Keys == tree.Keys
      && AllPositive(refs) && (forall x | x in tree :: x < nextId)
    }

    /** An empty root directory with one reference. */
    constructor ()
      ensures Valid() && tree == map[root := Dentry("", Nobody, [], Directory)]
    {
      root := 0;
      tree := map[0 := Dentry("", Nobody, [], Directory)];
      refs := map[0 := 1];
      nextId := 1;
    }

    /** dentry_get. */
    method DentryGet(x: nat)
      requires Valid() && x in tree
      modifies this`refs
      ensures Valid() && refs == Plus(old(refs), x)
    {
      refs := refs[x := refs[x] + 1];
    }

    /** dentry_alloc: without an inode, with one reference, and the last child of its parent if it has one. */
    method DentryAlloc(name: string, parent: Parent) returns (x: nat)
      requires Valid() && (parent.Under? ==> parent.dir in tree)
      modifies this
      ensures Valid() && x !in old(tree) && refs == old(refs)[x := 1]
      ensures tree == if parent.Under? then Linked(old(tree), x, name, parent.dir)
                      else old(tree)[x := Dentry(name, Nobody, [], NoInode)]
    {
      x := nextId;
      if parent.Under? { LinkUndone(tree, x, name, parent.dir); } else { OrphanClosed(tree, x, name); }
      hide Closed;
      if parent.Under? {
        var dir := parent.dir;
        tree := tree[dir := tree[dir].(children := tree[dir].children + [x])];
      }
      tree := tree[x := Dentry(name, parent, [], NoInode)];
      refs := refs[x := 1];
      nextId := nextId + 1;
    }

    /** dentry_put: the last reference takes the dentry out of its parent's list and frees it. */
    method DentryPut(x: nat)
      requires x in tree && x in refs && refs[x] > 0 && (tree[x].parent.Under? ==> tree[x].parent.dir in tree)
      modifies this`refs, this`tree
      ensures old(refs)[x] > 1 ==> tree == old(tree) && refs == old(refs)[x := old(refs)[x] - 1]
      ensures old(refs)[x] == 1 ==> refs == old(refs) - {x} && tree == Freed(old(tree), x)
    {
      if refs[x] - 1 == 0 {
        if tree[x].parent.Under? {
          var dir := tree[x].parent.dir;
          tree := tree[dir := tree[dir].(children := Del(tree[dir].children, x))];
        }
        tree, refs := tree - {x}, refs - {x};
      } else {
        refs := refs[x := refs[x] - 1];
      }
    }

    /** dentry_lookup_child. */
    method LookupChild(de: nat, name: string) returns (child: seq<nat>)
      requires Closed(tree) && de in tree
      ensures child == Child(tree, de, name)
    {
      var all := tree[de].children;
      var i := 0;
      while i < |all|
        invariant 0 <= i <= |all| && ChildFrom(tree, all, name) == ChildFrom(tree, all[i..], name)
      {
        if tree[all[i]].name == name { return [all[i]]; }
        assert all[i..][1..] == all[i + 1..];
        i := i + 1;
      }
      child := [];
    }

    /** A name that is not in the tree: a child is made for it, the filesystem does not know it, and it goes again. */
    method NoSuchChild(de: nat, name: string, canAlloc: bool) returns (error: int)
      requires Valid() && de in tree
      modifies this
      ensures Valid() && tree == old(tree) && refs == old(refs) && error == Missing(canAlloc) == if canAlloc then -2 else -12
    {
      if !canAlloc { return -ENOMEM; }
      ghost var t, r := tree, refs;
      var child := DentryAlloc(name, Under(de));
      LinkUndone(t, child, name, de);
      hide Closed;
      DentryPut(child);
      assert refs == r;
      error := -ENOENT;
    }

    /** The walk's own reference moves from de to next. */
    method Move(de: nat, next: nat, ghost r0: map<nat, nat>)
      requires Valid() && de in tree && next in tree && refs == Plus(r0, de) && AllPositive(r0)
      modifies this`refs, this`tree
      ensures Valid() && tree == old(tree) && refs == Plus(r0, next)
    {
      assert tree[de].parent.Under? ==> tree[de].parent.dir in tree;
      PlusOrder(r0, de, next);
      hide Closed, Plus;
      DentryGet(next);
      DentryPut(de);
    }

    /** The walk's own reference is dropped. */
    method LetGo(de: nat, ghost r0: map<nat, nat>)
      requires Valid() && de in tree && refs == Plus(r0, de) && AllPositive(r0)
      modifies this`refs, this`tree
      ensures Valid() && tree == old(tree) && refs == r0
    {
      assert tree[de].parent.Under? ==> tree[de].parent.dir in tree;
      hide Closed;
      PlusDrop(r0, de);
      DentryPut(de);
    }

    /** One component of the walk; the caller's reference to de moves on to the result, or is dropped. */
    method Component(de: nat, name: string, more: bool, canAlloc: bool, depth: nat, ghost r0: map<nat, nat>)
      returns (r: Found)
      requires Valid() && de in tree && refs == Plus(r0, de) && AllPositive(r0)
      modifies this
      ensures Valid() && tree == old(tree)
      ensures r == Enter(tree, root, Missing(canAlloc), de, Part(name, more), depth)
      ensures refs == if r.At? then Plus(r0, r.dentry) else r0
      decreases depth, 1
    {
      hide Closed, Walk, Lookup, Child, Plus, Follow;
      if name == "." { return At(de); }
      if name == ".." {
        if tree[de].parent.Under? {
          r := At(UpFrom(tree, de));
          Move(de, r.dentry, r0);
          return;
        }
        return At(de);
      }
      if tree[de].kind == NoInode {
        LetGo(de, r0);
        return Fails(-ENOENT);
      }
      if tree[de].kind != Directory {
        LetGo(de, r0);
        return Fails(-ENOTDIR);
      }
      var child := LookupChild(de, name);
      if child == [] {
        var error := NoSuchChild(de, name, canAlloc);
        LetGo(de, r0);
        return Fails(error);
      }
      var next := child[0];
      Move(de, next, r0);
      r := At(next);
      if tree[next].kind.Link? && more {
        if depth == 0 {
          LetGo(next, r0);
          return Deeper;
        }
        r := FollowLink(next, canAlloc, depth - 1, r0);
      }
    }

    /** The target is looked up from the link's directory while the link is still referenced. */
    method FollowLink(link: nat, canAlloc: bool, depth: nat, ghost r0: map<nat, nat>) returns (r: Found)
      requires Valid() && IsLink(tree, link) && refs == Plus(r0, link) && AllPositive(r0)
      modifies this
      ensures Valid() && tree == old(tree)
      ensures r == Follow(tree, root, Missing(canAlloc), link, depth)
      ensures refs == if r.At? then Plus(r0, r.dentry) else r0
      decreases depth, 3
    {
      assert tree[link].parent.dir in tree;
      hide Closed, Walk, Lookup;
      r := LookupWithin(ReadLink(tree[link].kind.target), tree[link].parent.dir, canAlloc, depth);
      if r.At? { PlusOrder(r0, link, r.dentry); } else { PlusDrop(r0, link); }
      DentryPut(link);
    }

    /** The body of vfs_lookup, given up when links nest deeper than depth. */
    method LookupWithin(path: string, cwd: nat, canAlloc: bool, depth: nat) returns (r: Found)
      requires Valid() && cwd in tree
      modifies this
      ensures Valid() && tree == old(tree)
      ensures r == Lookup(tree, root, Missing(canAlloc), cwd, path, depth)
      ensures refs == if r.At? then Plus(old(refs), r.dentry) else old(refs)
      decreases depth, 2
    {
      if path == "" { return Fails(-EINVAL); }
      ghost var t, r0, missing := tree, refs, Missing(canAlloc);
      var de, i := cwd, 0;
      assert path[0..] == path;
      if path[0] == '/' {
        PartsSkip(path, 0);
        de, i := root, 1;
      }
      ghost var goal := Lookup(t, root, missing, cwd, path, depth);
      assert Walk(t, root, missing, de, Parts(path[i..]), depth) == goal;
      hide Closed, Lookup, Parts, Plus, Enter;
      DentryGet(de);
      while i < |path|
        invariant 0 <= i <= |path| && Valid() && tree == t && de in t && refs == Plus(r0, de)
        invariant Walk(t, root, missing, de, Parts(path[i..]), depth) == goal
        decreases |path| - i
      {
        i := SkipSlashes(path, i);
        if i == |path| { break; }
        var end := ComponentEnd(path, i);
        r := Component(de, path[i..end], end < |path|, canAlloc, depth, r0);
        WalkStep(t, root, missing, de, path, i, end, depth);
        if !r.At? { return; }
        de, i := r.dentry, end;
      }
      assert path[|path|..] == "";
      NoParts();
      r := At(de);
    }

    /**
     * vfs_lookup: on success the result carries one more reference, and otherwise nothing at all has changed. Deeper
     * stands for a lookup that never ends.
     */
    method VfsLookup(path: string, cwd: nat, canAlloc: bool) returns (r: Found)
      requires Valid() && cwd in tree
      modifies this
      ensures Valid() && tree == old(tree)
      ensures r == Deeper <==> !Ends(tree, root, Missing(canAlloc), cwd, path)
      ensures forall d | d > |tree| :: Lookup(tree, root, Missing(canAlloc), cwd, path, d) == r
      ensures refs == if r.At? then Plus(old(refs), r.dentry) else old(refs)
    {
      ghost var t, missing := tree, Missing(canAlloc);
      EndsIff(t, root, missing, cwd, path);
      forall d | d > |t| ensures Lookup(t, root, missing, cwd, path, d) == Lookup(t, root, missing, cwd, path, |t| + 1) {
        DepthSuffices(t, root, missing, cwd, path, d);
      }
      hide Closed, Lookup, Ends, Plus;
      r := LookupWithin(path, cwd, canAlloc, |tree| + 1);
    }

    /** The loop of sys_getcwd up the tree: the names end up in front of one another, before the final zero. */
    method BuildPath(tmp: array<char>, cwd: nat, ghost level: map<nat, nat>) returns (p: nat)
      requires TreeOk(tree, root, level) && cwd in tree && tmp.Length == 4096 && tmp[4095] == '\0'
      requires |Names(tree, root, level, cwd)| <= 4095
      modifies tmp
      ensures p <= 4095 && tmp[4095] == '\0' && tmp[p..4095] == Names(tree, root, level, cwd)
    {
      hide *;
      p := 4095;
      ghost var all := Names(tree, root, level, cwd);
      NamesTop(tree, root, level);
      var de := cwd;
      while de != root && tree[de].parent.Under?
        invariant de in tree && 0 <= p <= 4095 && tmp[4095] == '\0'
        invariant all == Names(tree, root, level, de) + tmp[p..4095]
        decreases level[de]
      {
        NamesUp(tree, root, level, de);
        p := Prepend(tmp, p, tree[de].name);
        de := tree[de].parent.dir;
      }
      assert de == root by { if de != root { NamesUp(tree, root, level, de); } }
    }

    /**
     * sys_getcwd, the path built backwards in a 4096-byte buffer; the caller's buffer gets it cut or zero-filled to
     * its size.
     */
    method SysGetcwd(cwd: nat, buf: array<char>, ghost level: map<nat, nat>)
      requires Valid() && TreeOk(tree, root, level) && cwd in tree && |Printed(tree, root, level, cwd)| <= 4095
      modifies buf
      ensures var path := Printed(tree, root, level, cwd);
        forall k | 0 <= k < buf.Length :: buf[k] == if k < |path| then path[k] else '\0'
    {
      hide *;
      var tmp := new char[4096];
      tmp[4095] := '\0';
      PrintedCases(tree, root, level, cwd);
      var p := BuildPath(tmp, cwd, level);
      if tmp[p] != '/' {
        p := p - 1;
        tmp[p] := '/';
        assert tmp[p..4095] == "/";
      }
      CopyString(tmp[p..4095], buf);
    }
  }

  lemma NamesUp(t: Tree, root: nat, level: map<nat, nat>, x: nat)
    requires TreeOk(t, root, level) && x in t && x != root
    ensures t[x].parent.Under? && t[x].parent.dir in t && level.Keys == t.Keys && level[t[x].parent.dir] < level[x]
    ensures Names(t, root, level, x) == Names(t, root, level, t[x].parent.dir) + "/" + t[x].name
  {
    assert NodeOk(t, x, level);
  }

  lemma PrintedCases(t: Tree, root: nat, level: map<nat, nat>, x: nat)
    requires TreeOk(t, root, level) && x in t
    ensures var names, path := Names(t, root, level, x), Printed(t, root, level, x);
      && |names| <= |path| && (names == "" ==> path == "/") && (names != "" ==> path == names && names[0] == '/')
  {
    NamesStart(t, root, level, x);
  }

  lemma NamesTop(t: Tree, root: nat, level: map<nat, nat>)
    requires TreeOk(t, root, level)
    ensures root in t && level.Keys == t.Keys && Names(t, root, level, root) == ""
  {
  }

  /** memcpy of a name in front of what the buffer holds from p on, and a slash in front of that. */
  method Prepend(tmp: array<char>, p: nat, name: string) returns (q: nat)
    requires tmp.Length == 4096 && |name| + 1 <= p <= 4095
    modifies tmp
    ensures q == p - |name| - 1 && tmp[q..4095] == "/" + name + old(tmp[p..4095]) && tmp[4095] == old(tmp[4095])
  {
    q := p - |name|;
    var i := 0;
    while i < |name|
      invariant 0 <= i <= |name| && tmp[q..q + i] == name[..i]
      invariant tmp[p..4096] == old(tmp[p..4096])
    {
      tmp[q + i] := name[i];
      i := i + 1;
    }
    ghost var rest := old(tmp[p..4095]);
    assert tmp[p..4095] == rest by { assert rest == old(tmp[p..4096])[..4095 - p]; assert tmp[p..4095] == tmp[p..4096][..4095 - p]; }
    q := q - 1;
    tmp[q] := '/';
    assert tmp[q..4095] == [tmp[q]] + tmp[q + 1..p] + tmp[p..4095];
  }

  /** strncpy. */
  method CopyString(s: string, buf: array<char>)
    modifies buf
    ensures forall k | 0 <= k < buf.Length :: buf[k] == if k < |s| then s[k] else '\0'
  {
    var i := 0;
    while i < buf.Length
      invariant 0 <= i <= buf.Length && forall k | 0 <= k < i :: buf[k] == if k < |s| then s[k] else '\0'
    {
      buf[i] := if i < |s| then s[i] else '\0';
      i := i + 1;
    }
  }
}
