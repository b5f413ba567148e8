/** The tree of names that an ext2 image is built from, and what looking a path up in the image finds. */
module Ext2Trees {
  import opened Bytes
  import opened Options
  import opened Ext2Files
  import opened Ext2Directories
  import opened Ext2Disks
  import opened Ext2Images

  // ---- paths ----

  type Name = seq<byte>

  const SLASH: byte := 47

  /** A file name: not empty, neither `.` nor `..`, at most 255 bytes, no NUL, no slash. */
  predicate ValidName(n: Name) {
    n != [] && n != [46] && n != [46, 46] && |n| <= 255 && 0 !in n && SLASH !in n
  }

  predicate AllValid(names: seq<Name>) {
    forall n :: n in names ==> ValidName(n)
  }

  /** The names, a slash in front of each. */
  function PathText(names: seq<Name>): seq<byte> {
    if names == [] then [] else [SLASH] + names[0] + PathText(names[1..])
  }

  function FirstSlash(p: seq<byte>): (k: nat)
    ensures k <= |p| && SLASH !in p[..k] && (k < |p| ==> p[k] == SLASH)
  {
    if p == [] || p[0] == SLASH then 0 else 1 + FirstSlash(p[1..])
  }

  /** The parts between the slashes. */
  function Split(p: seq<byte>): (r: seq<Name>)
    ensures r != []
    decreases |p|
  {
    var k := FirstSlash(p);
    if k == |p| then [p] else [p[..k]] + Split(p[k + 1..])
  }

  lemma {:induction false} TextSplit(p: seq<byte>)
    ensures PathText(Split(p)) == [SLASH] + p
    decreases |p|
  {
    hide FirstSlash;
    var k := FirstSlash(p);
    if k < |p| {
      TextSplit(p[k + 1..]);
      assert p == p[..k] + ([SLASH] + p[k + 1..]);
      assert Split(p)[1..] == Split(p[k + 1..]);
    }
  }

  lemma {:induction false} SlashAt(name: Name, rest: seq<byte>)
    requires SLASH !in name && (rest == [] || rest[0] == SLASH)
    ensures FirstSlash(name + rest) == |name|
  {
    if name == [] {
      assert name + rest == rest;
    } else {
      assert name[0] in name && (name + rest)[1..] == name[1..] + rest;
      SlashAt(name[1..], rest);
    }
  }

  lemma SplitFirst(name: Name, rest: seq<byte>)
    requires SLASH !in name && (rest == [] || rest[0] == SLASH)
    ensures Split(name + rest) == if rest == [] then [name] else [name] + Split(rest[1..])
  {
    SlashAt(name, rest);
    var p := name + rest;
    assert p[..|name|] == name;
    if rest == [] {
      assert p == name;
    } else {
      assert p[|name| + 1..] == rest[1..];
    }
  }

  lemma {:induction false} SplitText(names: seq<Name>)
    requires names != [] && forall n :: n in names ==> SLASH !in n
    ensures PathText(names) != [] && PathText(names)[0] == SLASH && Split(PathText(names)[1..]) == names
  {
    var rest := PathText(names[1..]);
    assert PathText(names)[1..] == names[0] + rest;
    if |names| > 1 {
      SplitText(names[1..]);
    }
    SplitFirst(names[0], rest);
  }

  /** The names of a path; none when the path is not absolute, is the root, or has an invalid name. */
  function Parse(path: seq<byte>): Option<seq<Name>> {
    if path == [] || path[0] != SLASH then None else
    var names := Split(path[1..]);
    if AllValid(names) then Some(names) else None
  }

  /** Different well-formed paths have different names: the text and the names determine each other. */
  lemma ParseExact(path: seq<byte>, names: seq<Name>)
    ensures Parse(path) == Some(names) <==>
              && names != [] && path == PathText(names)
              && forall n :: n in names ==> 1 <= |n| <= 255 && n != [46] && n != [46, 46] && 0 !in n && 47 !in n
  {
    if Parse(path) == Some(names) {
      TextSplit(path[1..]);
    } else if names != [] && path == PathText(names) && AllValid(names) {
      SplitText(names);
    }
  }

  // ---- nodes ----

  datatype Payload = FileData(data: seq<byte>) | LinkText(text: seq<byte>) | Directory

  datatype Link = Link(name: Name, target: nat)

  datatype Node = Node(inode: nat, parent: nat, mode: u16, links: u16, payload: Payload, entries: seq<Link>)

  /** Nodes, the paths that lead to them, and for every directory the only path that does. */
  datatype Tree = Tree(nodes: seq<Node>, paths: map<seq<Name>, nat>, home: seq<seq<Name>>)

  function Number(k: nat): nat {
    if k == 0 then 2 else k + 10
  }

  /** The file type in the upper bits of a mode. */
  function TypeBits(p: Payload): nat {
    match p
    case FileData(_) => 8
    case LinkText(_) => 10
    case Directory => 4
  }

  predicate IsDirectory(nodes: seq<Node>, k: nat) {
    k < |nodes| && nodes[k].payload.Directory?
  }

  ghost predicate NodeAt(t: Tree, k: nat) {
    k < |t.nodes| && |t.home| == |t.nodes| ==>
      var v := t.nodes[k];
      && v.inode == Number(k) && IsDirectory(t.nodes, v.parent) && v.mode / 4096 == TypeBits(v.payload)
      && (v.payload.Directory? ==> t.home[k] in t.paths && t.paths[t.home[k]] == k)
      && (!v.payload.Directory? ==> v.entries == [])
  }

  /** A path leads through the directory above it. */
  ghost predicate PathAt(t: Tree, p: seq<Name>) {
    p in t.paths && |t.home| == |t.nodes| ==>
      && t.paths[p] < |t.nodes| && AllValid(p)
      && (IsDirectory(t.nodes, t.paths[p]) ==> t.home[t.paths[p]] == p)
      && (p == [] ==> t.nodes[t.paths[p]].parent == t.paths[p])
      && (p != [] ==>
            var up := p[..|p| - 1];
            && (up in t.paths && IsDirectory(t.nodes, t.paths[p]) ==> t.nodes[t.paths[p]].parent == t.paths[up])
            && up in t.paths && IsDirectory(t.nodes, t.paths[up])
            && Link(p[|p| - 1], t.paths[p]) in t.nodes[t.paths[up]].entries)
  }

  /** Every entry of a directory is on a path, and no other entry has its name. */
  ghost predicate EntryAt(t: Tree, d: nat, i: nat) {
    IsDirectory(t.nodes, d) && i < |t.nodes[d].entries| && |t.home| == |t.nodes| ==>
      var e := t.nodes[d].entries[i];
      && e.target < |t.nodes| && ValidName(e.name)
      && t.home[d] + [e.name] in t.paths && t.paths[t.home[d] + [e.name]] == e.target
      && forall j :: 0 <= j < i ==> t.nodes[d].entries[j].name != e.name
  }

  ghost predicate Shaped(t: Tree) {
    && |t.home| == |t.nodes| && |t.nodes| + 9 < 0x1_0000_0000 && IsDirectory(t.nodes, 0)
    && [] in t.paths && t.paths[[]] == 0
    && (forall k {:trigger NodeAt(t, k)} :: NodeAt(t, k))
    && (forall p {:trigger PathAt(t, p)} :: PathAt(t, p))
    && (forall d, i {:trigger EntryAt(t, d, i)} :: EntryAt(t, d, i))
  }

  // ---- link counts ----

  ghost function Occurrences(entries: seq<Link>, k: nat): nat {
    if entries == [] then 0 else
    var n := |entries| - 1;
    Occurrences(entries[..n], k) + (if entries[n].target == k then 1 else 0)
  }

  /** How often node `v`, number `self`, names node `k`: by its entries, by `.` and by `..`. */
  ghost function Mentions(v: Node, self: nat, k: nat): nat {
    if !v.payload.Directory? then 0 else
    Occurrences(v.entries, k) + (if self == k then 1 else 0) + (if v.parent == k then 1 else 0)
  }

  /** All directory records that name node `k`. */
  ghost function References(nodes: seq<Node>, n: nat, k: nat): nat
    requires n <= |nodes|
  {
    if n == 0 then 0 else References(nodes, n - 1, k) + Mentions(nodes[n - 1], n - 1, k)
  }

  ghost predicate LinksAt(t: Tree, k: nat) {
    k < |t.nodes| ==> t.nodes[k].links == References(t.nodes, |t.nodes|, k)
  }

  /** The tree is well-formed and every link count is the number of directory records naming the node. */
  ghost predicate Sound(t: Tree) {
    Shaped(t) && forall k {:trigger LinksAt(t, k)} :: LinksAt(t, k)
  }

  // ---- attaching a name ----

  /** What a new path needs. */
  predicate Free(nodes: seq<Node>, paths: map<seq<Name>, nat>, p: seq<Name>) {
    && p != [] && AllValid(p) && p !in paths && p[..|p| - 1] in paths && IsDirectory(nodes, paths[p[..|p| - 1]])
  }

  ghost predicate SameNode(v: Node, v': Node) {
    v'.inode == v.inode && v'.parent == v.parent && v'.mode == v.mode && v'.payload == v.payload
  }

  /** Nodes keep all but their link counts, and directory `d` gets entry `e`. */
  ghost predicate Extended(nodes: seq<Node>, nodes': seq<Node>, d: nat, e: Link) {
    |nodes| <= |nodes'| && d < |nodes| && forall k :: 0 <= k < |nodes| ==>
      SameNode(nodes[k], nodes'[k]) && nodes'[k].entries == if k == d then nodes[k].entries + [e] else nodes[k].entries
  }

  /** Path `p` now leads to node `x`: a node that was there and is no directory, or a new one. */
  ghost predicate Attached(t: Tree, t': Tree, p: seq<Name>, x: nat) {
    && Free(t.nodes, t.paths, p) && t'.paths == t.paths[p := x]
    && Extended(t.nodes, t'.nodes, t.paths[p[..|p| - 1]], Link(p[|p| - 1], x))
    && if x < |t.nodes| then
         |t'.nodes| == |t.nodes| && t'.home == t.home && !IsDirectory(t.nodes, x)
       else
         && x == |t.nodes| && |t'.nodes| == x + 1 && t'.home == t.home + [p] && x + 10 < 0x1_0000_0000
         && t'.nodes[x].inode == Number(x) && t'.nodes[x].parent == t.paths[p[..|p| - 1]] && t'.nodes[x].entries == []
         && t'.nodes[x].mode / 4096 == TypeBits(t'.nodes[x].payload)
  }

  /** The last name of a path, and the directory it is in. */
  lemma UpAndOn(p: seq<Name>)
    requires p != []
    ensures p == p[..|p| - 1] + [p[|p| - 1]] && p[|p| - 1] in p
  {
  }

  lemma AttachedNode(t: Tree, t': Tree, p: seq<Name>, x: nat, k: nat)
    requires Shaped(t) && Attached(t, t', p, x)
    ensures NodeAt(t', k)
  {
    if k < |t.nodes| {
      assert NodeAt(t, k);
    }
  }

  lemma AttachedPath(t: Tree, t': Tree, p: seq<Name>, x: nat, q: seq<Name>)
    requires Shaped(t) && Attached(t, t', p, x)
    ensures PathAt(t', q)
  {
    assert PathAt(t, q);
    if q != p && q in t.paths && q != [] {
      assert PathAt(t, q[..|q| - 1]);
      assert Link(q[|q| - 1], t.paths[q]) in t.nodes[t.paths[q[..|q| - 1]]].entries;
    }
  }

  /** The new name was not in the directory. */
  lemma NewName(t: Tree, p: seq<Name>, j: nat)
    requires Shaped(t) && Free(t.nodes, t.paths, p)
    requires j < |t.nodes[t.paths[p[..|p| - 1]]].entries|
    ensures t.nodes[t.paths[p[..|p| - 1]]].entries[j].name != p[|p| - 1]
  {
    var d := t.paths[p[..|p| - 1]];
    assert EntryAt(t, d, j) && PathAt(t, p[..|p| - 1]);
    UpAndOn(p);
  }

  lemma AttachedEntry(t: Tree, t': Tree, p: seq<Name>, x: nat, d: nat, i: nat)
    requires Shaped(t) && Attached(t, t', p, x)
    ensures EntryAt(t', d, i)
  {
    UpAndOn(p);
    if d < |t.nodes| {
      assert EntryAt(t, d, i) && NodeAt(t, d);
      var up := p[..|p| - 1];
      assert PathAt(t, up);
      if d == t.paths[up] && i == |t.nodes[d].entries| {
        forall j | 0 <= j < i ensures t'.nodes[d].entries[j].name != p[|p| - 1] {
          NewName(t, p, j);
        }
      }
    }
  }

  /** Attaching a name keeps the tree well-formed. */
  lemma AttachedKeepsShape(t: Tree, t': Tree, p: seq<Name>, x: nat)
    requires Shaped(t) && Attached(t, t', p, x)
    ensures Shaped(t')
  {
    hide NodeAt, PathAt, EntryAt;
    forall k ensures NodeAt(t', k) {
      AttachedNode(t, t', p, x, k);
    }
    forall q ensures PathAt(t', q) {
      AttachedPath(t, t', p, x, q);
    }
    forall d, i ensures EntryAt(t', d, i) {
      AttachedEntry(t, t', p, x, d, i);
    }
  }

  // ---- attaching a name keeps the link counts ----

  lemma {:induction false} OneMoreMention(entries: seq<Link>, e: Link, k: nat)
    ensures Occurrences(entries + [e], k) == Occurrences(entries, k) + (if e.target == k then 1 else 0)
  {
    assert (entries + [e])[..|entries|] == entries;
  }

  /** The entry adds one mention to the directory it is put into. */
  lemma {:induction false} ReferencesExtended(nodes: seq<Node>, nodes': seq<Node>, d: nat, e: Link, n: nat, k: nat)
    requires Extended(nodes, nodes', d, e) && n <= |nodes| && nodes[d].payload.Directory?
    ensures References(nodes', n, k) == References(nodes, n, k) + (if d < n && e.target == k then 1 else 0)
  {
    if n > 0 {
      ReferencesExtended(nodes, nodes', d, e, n - 1, k);
      if n - 1 == d {
        OneMoreMention(nodes[d].entries, e, k);
      }
    }
  }

  lemma {:induction false} NoOccurrence(entries: seq<Link>, k: nat)
    requires forall e :: e in entries ==> e.target < k
    ensures Occurrences(entries, k) == 0
  {
    if entries != [] {
      assert entries[|entries| - 1] in entries;
      NoOccurrence(entries[..|entries| - 1], k);
    }
  }

  /** Nothing names a node that is yet to come. */
  lemma {:induction false} NoReference(t: Tree, n: nat)
    requires Shaped(t) && n <= |t.nodes|
    ensures References(t.nodes, n, |t.nodes|) == 0
  {
    if n > 0 {
      NoReference(t, n - 1);
      assert NodeAt(t, n - 1);
      var entries := t.nodes[n - 1].entries;
      forall e | e in entries ensures e.target < |t.nodes| {
        var i: nat :| i < |entries| && entries[i] == e;
        assert EntryAt(t, n - 1, i);
      }
      NoOccurrence(entries, |t.nodes|);
    }
  }

  /** What attaching a name does to the number of references to node `k`. */
  function Gain(d: nat, x: nat, made: bool, directory: bool, k: nat): nat {
    (if k == x then 1 else 0) + (if made && directory then (if k == x then 1 else 0) + (if k == d then 1 else 0) else 0)
  }

  lemma ReferencesAttached(t: Tree, t': Tree, p: seq<Name>, x: nat, k: nat)
    requires Shaped(t) && Attached(t, t', p, x) && k < |t'.nodes|
    ensures var d := t.paths[p[..|p| - 1]];
            References(t'.nodes, |t'.nodes|, k) ==
            (if k < |t.nodes| then References(t.nodes, |t.nodes|, k) else 0)
            + Gain(d, x, x == |t.nodes|, IsDirectory(t'.nodes, x), k)
  {
    hide NodeAt, PathAt, EntryAt;
    var d := t.paths[p[..|p| - 1]];
    ReferencesExtended(t.nodes, t'.nodes, d, Link(p[|p| - 1], x), |t.nodes|, k);
    if k == |t.nodes| {
      NoReference(t, |t.nodes|);
    }
  }

  /** Link counts are adjusted as the name requires. */
  ghost predicate Counted(t: Tree, t': Tree, p: seq<Name>, x: nat)
    requires Attached(t, t', p, x)
  {
    var d := t.paths[p[..|p| - 1]];
    forall k :: 0 <= k < |t'.nodes| ==>
      t'.nodes[k].links == (if k < |t.nodes| then t.nodes[k].links else 0)
      + Gain(d, x, x == |t.nodes|, IsDirectory(t'.nodes, x), k)
  }

  /** Attaching a name keeps the tree sound. */
  lemma AttachedKeeps(t: Tree, t': Tree, p: seq<Name>, x: nat)
    requires Sound(t) && Attached(t, t', p, x) && Counted(t, t', p, x)
    ensures Sound(t')
  {
    hide Shaped, References, Gain;
    AttachedKeepsShape(t, t', p, x);
    forall k: nat ensures LinksAt(t', k) {
      if k < |t'.nodes| {
        assert LinksAt(t, k);
        ReferencesAttached(t, t', p, x, k);
      }
    }
  }

  // ---- the builder ----

  /** The path is well-formed, new, and in a directory that exists. */
  predicate Placeable(nodes: seq<Node>, paths: map<seq<Name>, nat>, path: seq<byte>) {
    Parse(path).Some? && Free(nodes, paths, Parse(path).value)
  }

  /** A new node with this payload is at the path. */
  ghost predicate Added(t: Tree, t': Tree, path: seq<byte>, payload: Payload, mode: u16) {
    && Parse(path).Some? && Attached(t, t', Parse(path).value, |t.nodes|)
    && t'.nodes[|t.nodes|].payload == payload && t'.nodes[|t.nodes|].mode == mode
  }

  /** The path leads to the file that `target` leads to. */
  ghost predicate Shared(t: Tree, t': Tree, path: seq<byte>, target: seq<Name>) {
    Parse(path).Some? && target in t.paths && Attached(t, t', Parse(path).value, t.paths[target])
  }

  function Target(path: seq<byte>): Option<seq<Name>> {
    if path == [SLASH] then Some([]) else Parse(path)
  }

  /** A slash alone is the root. */
  lemma TargetExact(path: seq<byte>, names: seq<Name>)
    ensures Target(path) == Some(names) <==>
              && path == (if names == [] then [47] else PathText(names))
              && forall n :: n in names ==> 1 <= |n| <= 255 && n != [46] && n != [46, 46] && 0 !in n && 47 !in n
  {
    ParseExact(path, names);
    if path == [SLASH] {
      assert Split(path[1..]) == [[]];
    }
  }

  /** The target is a regular file whose link count can grow. */
  predicate Linkable(nodes: seq<Node>, paths: map<seq<Name>, nat>, target: seq<byte>) {
    && Target(target).Some? && Target(target).value in paths
    && var x := paths[Target(target).value]; x < |nodes| && nodes[x].payload.FileData? && nodes[x].links < 0xffff
  }

  class ImageBuilder {
    const total: nat
    var nodes: seq<Node>
    var paths: map<seq<Name>, nat>
    ghost var home: seq<seq<Name>>

    ghost function State(): Tree
      reads this
    {
      Tree(nodes, paths, home)
    }

    ghost predicate Valid()
      reads this
    {
      Sound(State()) && total < 0x1_0000_0000
    }

    /** A root directory and nothing else. */
    constructor (total: nat)
      requires total < 0x1_0000_0000
      ensures Valid() && this.total == total && paths == map[[] := 0]
    {
      this.total := total;
      nodes := [Node(2, 0, 0x4000 + 0x1ed, 2, Directory, [])];
      paths := map[[] := 0];
      home := [[]];
      new;
      RootIsSound(State());
    }

    /** Adds a node below the directory of its path. */
    method Insert(p: seq<Name>, mode: u16, payload: Payload, links: u16) returns (ok: bool)
      requires Valid() && Free(nodes, paths, p) && mode / 4096 == TypeBits(payload)
      modifies this
      ensures ok <==> |old(nodes)| + 10 < 0x1_0000_0000
      ensures !ok ==> State() == old(State())
      ensures ok ==> Attached(old(State()), State(), p, |old(nodes)|) && nodes[|old(nodes)|].payload == payload
      ensures ok ==> nodes[|old(nodes)|].mode == mode && nodes[|old(nodes)|].links == links
      ensures ok ==> forall k :: 0 <= k < |old(nodes)| ==> nodes[k].links == old(nodes)[k].links
    {
      hide NodeAt, PathAt, EntryAt, LinksAt, AllValid;
      var d, x := paths[p[..|p| - 1]], |nodes|;
      if x + 10 >= 0x1_0000_0000 {
        return false;
      }
      nodes := nodes + [Node(x + 10, d, mode, links, payload, [])];
      nodes := nodes[d := nodes[d].(entries := nodes[d].entries + [Link(p[|p| - 1], x)])];
      paths := paths[p := x];
      home := home + [p];
      return true;
    }

    method AddDirectory(path: seq<byte>, permissions: u16) returns (ok: bool)
      requires Valid()
      modifies this
      ensures Valid()
      ensures ok <==>
                && Placeable(old(nodes), old(paths), path) && |old(nodes)| + 10 < 0x1_0000_0000
                && var p := Parse(path).value; old(nodes)[old(paths)[p[..|p| - 1]]].links < 0xffff
      ensures !ok ==> State() == old(State())
      ensures ok ==> Added(old(State()), State(), path, Directory, 0x4000 + permissions % 0x1000)
    {
      hide Shaped, LinksAt, AllValid;
      if !Placeable(nodes, paths, path) {
        return false;
      }
      var p := Parse(path).value;
      var d := paths[p[..|p| - 1]];
      if nodes[d].links == 0xffff {
        return false;
      }
      ok := Insert(p, 0x4000 + permissions % 0x1000, Directory, 2);
      if ok {
        nodes := nodes[d := nodes[d].(links := nodes[d].links + 1)];
        AttachedKeeps(old(State()), State(), p, |old(nodes)|);
      }
    }

    method AddFile(path: seq<byte>, permissions: u16, data: seq<byte>) returns (ok: bool)
      requires Valid()
      modifies this
      ensures Valid()
      ensures ok <==>
                |data| <= MAX_FILE_BYTES && Placeable(old(nodes), old(paths), path) && |old(nodes)| + 10 < 0x1_0000_0000
      ensures !ok ==> State() == old(State())
      ensures ok ==> Added(old(State()), State(), path, FileData(data), 0x8000 + permissions % 0x1000)
    {
      hide Shaped, LinksAt, AllValid;
      if |data| > MAX_FILE_BYTES || !Placeable(nodes, paths, path) {
        return false;
      }
      ok := Insert(Parse(path).value, 0x8000 + permissions % 0x1000, FileData(data), 1);
      if ok {
        AttachedKeeps(old(State()), State(), Parse(path).value, |old(nodes)|);
      }
    }

    method AddSymlink(path: seq<byte>, target: seq<byte>) returns (ok: bool)
      requires Valid()
      modifies this
      ensures Valid()
      ensures ok <==>
                && 0 < |target| <= 4095 && 0 !in target
                && Placeable(old(nodes), old(paths), path) && |old(nodes)| + 10 < 0x1_0000_0000
      ensures !ok ==> State() == old(State())
      ensures ok ==> Added(old(State()), State(), path, LinkText(target), 0xa000 + 0x1ff)
    {
      hide Shaped, LinksAt, AllValid;
      if target == [] || 0 in target || |target| > 4095 || !Placeable(nodes, paths, path) {
        return false;
      }
      ok := Insert(Parse(path).value, 0xa000 + 0x1ff, LinkText(target), 1);
      if ok {
        AttachedKeeps(old(State()), State(), Parse(path).value, |old(nodes)|);
      }
    }

    method AddHardLink(path: seq<byte>, target: seq<byte>) returns (ok: bool)
      requires Valid()
      modifies this
      ensures Valid()
      ensures ok <==> Placeable(old(nodes), old(paths), path) && Linkable(old(nodes), old(paths), target)
      ensures !ok ==> State() == old(State())
      ensures ok ==> Shared(old(State()), State(), path, Target(target).value)
    {
      hide NodeAt, PathAt, EntryAt, LinksAt, AllValid;
      if !Placeable(nodes, paths, path) || !Linkable(nodes, paths, target) {
        return false;
      }
      var p, x := Parse(path).value, paths[Target(target).value];
      var d := paths[p[..|p| - 1]];
      nodes := nodes[x := nodes[x].(links := nodes[x].links + 1)];
      nodes := nodes[d := nodes[d].(entries := nodes[d].entries + [Link(p[|p| - 1], x)])];
      paths := paths[p := x];
      AttachedKeeps(old(State()), State(), p, x);
      return true;
    }
  }

  lemma RootIsSound(t: Tree)
    requires t == Tree([Node(2, 0, 0x4000 + 0x1ed, 2, Directory, [])], map[[] := 0], [[]])
    ensures Sound(t)
  {
    assert References(t.nodes, 1, 0) == 2;
  }

  // ---- directories as records ----

  /** The type byte of a directory record. */
  function KindOf(mode: u16): byte {
    if mode / 4096 == 4 then 2 else if mode / 4096 == 10 then 7 else 1
  }

  predicate InRange(nodes: seq<Node>, entries: seq<Link>) {
    forall i :: 0 <= i < |entries| ==> entries[i].target < |nodes|
  }

  function RecordOf(nodes: seq<Node>, e: Link): Record
    requires e.target < |nodes|
  {
    Record(e.name, nodes[e.target].inode, KindOf(nodes[e.target].mode))
  }

  /** What a directory lists: itself, the directory above, its entries. */
  function Records(nodes: seq<Node>, k: nat): seq<Record>
    requires k < |nodes| && nodes[k].parent < |nodes| && InRange(nodes, nodes[k].entries)
  {
    var v := nodes[k];
    [Record([46], v.inode, 2), Record([46, 46], nodes[v.parent].inode, 2)]
    + seq(|v.entries|, i requires 0 <= i < |v.entries| => RecordOf(nodes, v.entries[i]))
  }

  lemma Listable(t: Tree, k: nat)
    requires Shaped(t) && k < |t.nodes|
    ensures t.nodes[k].parent < |t.nodes| && InRange(t.nodes, t.nodes[k].entries)
    ensures forall r :: r in Records(t.nodes, k) ==> Encodable(r)
  {
    var v := t.nodes[k];
    assert NodeAt(t, k) && NodeAt(t, v.parent);
    forall i | 0 <= i < |v.entries|
      ensures v.entries[i].target < |t.nodes| && Encodable(RecordOf(t.nodes, v.entries[i]))
    {
      assert EntryAt(t, k, i) && NodeAt(t, v.entries[i].target);
    }
  }

  /** The first record with the name. */
  function Find(records: seq<Record>, name: Name): Option<nat> {
    if records == [] then None else if records[0].name == name then Some(records[0].inode) else Find(records[1..], name)
  }

  lemma {:induction false} FindsNothing(records: seq<Record>, name: Name)
    requires forall r :: r in records ==> r.name != name
    ensures Find(records, name) == None
  {
    if records != [] {
      assert records[0] in records;
      FindsNothing(records[1..], name);
    }
  }

  lemma {:induction false} FindsFirst(records: seq<Record>, name: Name, i: nat)
    requires i < |records| && records[i].name == name && forall j :: 0 <= j < i ==> records[j].name != name
    ensures Find(records, name) == Some(records[i].inode)
  {
    if i > 0 {
      FindsFirst(records[1..], name, i - 1);
    }
  }

  /** In the records of a directory a name is found exactly when a path continues with it. */
  lemma FindsEntry(t: Tree, d: nat, name: Name)
    requires Shaped(t) && IsDirectory(t.nodes, d) && ValidName(name)
    requires t.nodes[d].parent < |t.nodes| && InRange(t.nodes, t.nodes[d].entries)
    ensures var p := t.home[d] + [name];
            && (p in t.paths ==> t.paths[p] < |t.nodes|)
            && Find(Records(t.nodes, d), name) == if p in t.paths then Some(t.nodes[t.paths[p]].inode) else None
  {
    var p, records, entries := t.home[d] + [name], Records(t.nodes, d), t.nodes[d].entries;
    assert NodeAt(t, d) && PathAt(t, p);
    assert p[..|p| - 1] == t.home[d];
    if p in t.paths {
      var i: nat :| i < |entries| && entries[i] == Link(name, t.paths[p]);
      assert EntryAt(t, d, i);
      FindsFirst(records, name, i + 2);
    } else {
      forall r | r in records ensures r.name != name {
        var i: nat :| i < |records| && records[i] == r;
        if i >= 2 {
          assert EntryAt(t, d, i - 2);
        }
      }
      FindsNothing(records, name);
    }
  }

  // ---- looking up a path in the image ----

  /** The reader takes the inode for a directory. */
  predicate SeemsDirectory(image: Image, number: nat)
    requires Blocks(image) && number >= 1
  {
    Get16(BlockAt(image, ReaderInodeBlock(image, number)), InodeOffset(number)) / 4096 == 4
  }

  function BytesOf(image: Image, number: nat): seq<byte>
    requires Blocks(image) && number >= 1
  {
    Contents(image, ReaderInodeBlock(image, number), InodeOffset(number))
  }

  /** Follows the names from the root: the inode they lead to in the image. */
  function Lookup(image: Image, names: seq<Name>): Option<nat>
    requires Blocks(image)
  {
    if names == [] then Some(2) else
    var up := Lookup(image, names[..|names| - 1]);
    if up.None? || up.value == 0 || !SeemsDirectory(image, up.value) then None else
    Find(Walk(BytesOf(image, up.value), 0), names[|names| - 1])
  }

  /** The image holds node `k`. */
  ghost predicate Holds(image: Image, nodes: seq<Node>, k: nat)
    requires Blocks(image)
  {
    k < |nodes| ==>
      var v := nodes[k];
      && v.inode >= 1 && v.parent < |nodes| && InRange(nodes, v.entries)
      && Get16(BlockAt(image, ReaderInodeBlock(image, v.inode)), InodeOffset(v.inode)) == v.mode
      && Get16(BlockAt(image, ReaderInodeBlock(image, v.inode)), InodeOffset(v.inode) + 26) == v.links
      && match v.payload
         case FileData(data) => BytesOf(image, v.inode) == data
         case LinkText(text) =>
           if |text| >= 60 then BytesOf(image, v.inode) == text else
           var at := InodeOffset(v.inode) + 40;
           BlockAt(image, ReaderInodeBlock(image, v.inode))[at..at + |text|] == text
         case Directory => Walk(BytesOf(image, v.inode), 0) == Records(nodes, k)
  }

  // ---- what the directories of the image say ----

  /** The records that a reader finds in a directory. */
  function Listing(image: Image, number: nat): seq<Record>
    requires Blocks(image) && number >= 1
  {
    Walk(BytesOf(image, number), 0)
  }

  /** In the directory that the names lead to, `.` is the directory itself and `..` the one that the names
      without the last lead to; for the root it is the root. */
  ghost predicate DotsAt(image: Image, names: seq<Name>)
    requires Blocks(image)
  {
    var n := Lookup(image, names);
    n.Some? && n.value >= 1 && SeemsDirectory(image, n.value) ==>
      && Find(Listing(image, n.value), [46]) == n
      && Find(Listing(image, n.value), [46, 46]) == if names == [] then n else Lookup(image, names[..|names| - 1])
  }

  /** The file type that the mode of an inode has. */
  function TypeAt(image: Image, number: nat): nat
    requires Blocks(image) && number >= 1
  {
    Get16(BlockAt(image, ReaderInodeBlock(image, number)), InodeOffset(number)) / 4096
  }

  /** Every record says of the inode it names whether it is a directory, a symbolic link or a file. */
  ghost predicate KindsAt(image: Image, number: nat)
    requires Blocks(image)
  {
    number >= 1 && SeemsDirectory(image, number) ==>
      forall r :: r in Listing(image, number) ==>
        && r.inode >= 1 && (r.kind == 2 <==> TypeAt(image, r.inode) == 4)
        && (r.kind == 7 <==> TypeAt(image, r.inode) == 10) && (r.kind == 1 <==> TypeAt(image, r.inode) == 8)
  }

  /** How many records carry the number. */
  ghost function Naming(records: seq<Record>, number: nat): nat {
    if records == [] then 0 else
    var n := |records| - 1;
    Naming(records[..n], number) + (if records[n].inode == number then 1 else 0)
  }

  /** How many records in directories among the first `n` inodes, 2, 11, 12 and so on, carry the number. */
  ghost function NamedIn(image: Image, n: nat, number: nat): nat
    requires Blocks(image)
  {
    if n == 0 then 0 else
    var d := if n == 1 then 2 else n + 9;
    NamedIn(image, n - 1, number) + (if SeemsDirectory(image, d) then Naming(Listing(image, d), number) else 0)
  }

  /** The link count of an inode is the number of records that name it, in all directories of the image. */
  ghost predicate LinksCounted(image: Image, n: nat, number: nat)
    requires Blocks(image)
  {
    number >= 1 &&
    Get16(BlockAt(image, ReaderInodeBlock(image, number)), InodeOffset(number) + 26) == NamedIn(image, n, number)
  }

  lemma NumbersDiffer(i: nat, j: nat)
    ensures Number(i) == Number(j) <==> i == j
  {
  }

  /** The records of a directory name a node as often as the tree says. */
  lemma {:induction false} NamingRecords(t: Tree, d: nat, k: nat, m: nat)
    requires Shaped(t) && IsDirectory(t.nodes, d) && k < |t.nodes| && m <= |t.nodes[d].entries|
    requires t.nodes[d].parent < |t.nodes| && InRange(t.nodes, t.nodes[d].entries)
    ensures Naming(Records(t.nodes, d)[..m + 2], Number(k)) ==
              Occurrences(t.nodes[d].entries[..m], k) + (if d == k then 1 else 0)
              + (if t.nodes[d].parent == k then 1 else 0)
  {
    var v, records := t.nodes[d], Records(t.nodes, d);
    assert NodeAt(t, d) && NodeAt(t, v.parent);
    if m == 0 {
      NumbersDiffer(d, k);
      NumbersDiffer(v.parent, k);
      assert records[..2][..1] == records[..1] && records[..1][..0] == [];
      assert Naming(records[..1], Number(k)) == if d == k then 1 else 0;
    } else {
      NamingRecords(t, d, k, m - 1);
      assert records[..m + 2][..m + 1] == records[..m + 1];
      assert v.entries[..m][..m - 1] == v.entries[..m - 1];
      assert EntryAt(t, d, m - 1) && NodeAt(t, v.entries[m - 1].target);
      NumbersDiffer(v.entries[m - 1].target, k);
    }
  }

  /** What a reader finds of node `k`, and that its directory is one exactly when it looks like one. */
  lemma SeenAsHeld(image: Image, t: Tree, k: nat)
    requires Blocks(image) && Shaped(t) && k < |t.nodes| && Holds(image, t.nodes, k)
    ensures t.nodes[k].inode == Number(k) && t.nodes[k].parent < |t.nodes| && InRange(t.nodes, t.nodes[k].entries)
    ensures TypeAt(image, Number(k)) == TypeBits(t.nodes[k].payload)
    ensures SeemsDirectory(image, Number(k)) <==> IsDirectory(t.nodes, k)
    ensures IsDirectory(t.nodes, k) ==> Listing(image, Number(k)) == Records(t.nodes, k)
  {
    hide ReaderInodeBlock, BytesOf, Walk, Records, Get16, InodeOffset;
    assert NodeAt(t, k);
  }

  lemma {:induction false} NamedAsReferred(image: Image, t: Tree, n: nat, k: nat)
    requires Blocks(image) && Shaped(t) && n <= |t.nodes| && k < |t.nodes|
    requires forall j {:trigger Holds(image, t.nodes, j)} :: Holds(image, t.nodes, j)
    ensures NamedIn(image, n, Number(k)) == References(t.nodes, n, k)
  {
    hide Listing, SeemsDirectory, Naming, Records, Holds, NodeAt, PathAt, EntryAt, Occurrences, TypeAt;
    if n > 0 {
      NamedAsReferred(image, t, n - 1, k);
      assert Holds(image, t.nodes, n - 1);
      SeenAsHeld(image, t, n - 1);
      if IsDirectory(t.nodes, n - 1) {
        var entries, records := t.nodes[n - 1].entries, Records(t.nodes, n - 1);
        NamingRecords(t, n - 1, k, |entries|);
        RecordCount(t.nodes, n - 1);
        assert records[..|entries| + 2] == records && entries[..|entries|] == entries;
      }
    }
  }

  lemma RecordCount(nodes: seq<Node>, k: nat)
    requires k < |nodes| && nodes[k].parent < |nodes| && InRange(nodes, nodes[k].entries)
    ensures |Records(nodes, k)| == |nodes[k].entries| + 2
  {
  }

  lemma LinksInImage(image: Image, t: Tree, k: nat)
    requires Blocks(image) && Sound(t) && k < |t.nodes|
    requires forall j {:trigger Holds(image, t.nodes, j)} :: Holds(image, t.nodes, j)
    ensures LinksCounted(image, |t.nodes|, t.nodes[k].inode)
  {
    hide NamedIn, References, ReaderInodeBlock, Get16, InodeOffset, BytesOf, Walk, Records;
    assert Holds(image, t.nodes, k) && LinksAt(t, k) && NodeAt(t, k);
    NamedAsReferred(image, t, |t.nodes|, k);
  }

  lemma KindsInImage(image: Image, t: Tree, k: nat)
    requires Blocks(image) && Shaped(t) && k < |t.nodes|
    requires forall j {:trigger Holds(image, t.nodes, j)} :: Holds(image, t.nodes, j)
    ensures KindsAt(image, t.nodes[k].inode)
  {
    hide TypeAt, Listing, Holds, SeemsDirectory;
    assert Holds(image, t.nodes, k) && NodeAt(t, k);
    SeenAsHeld(image, t, k);
    if IsDirectory(t.nodes, k) {
      var v, records := t.nodes[k], Records(t.nodes, k);
      forall i | 0 <= i < |records|
        ensures records[i].inode >= 1 && (records[i].kind == 2 <==> TypeAt(image, records[i].inode) == 4)
        ensures records[i].kind == 7 <==> TypeAt(image, records[i].inode) == 10
        ensures records[i].kind == 1 <==> TypeAt(image, records[i].inode) == 8
      {
        var x := if i == 0 then k else if i == 1 then v.parent else v.entries[i - 2].target;
        assert i >= 2 ==> EntryAt(t, k, i - 2);
        assert NodeAt(t, x) && Holds(image, t.nodes, x);
        SeenAsHeld(image, t, x);
      }
    }
  }

  lemma DotsInImage(image: Image, t: Tree, names: seq<Name>)
    requires Blocks(image) && Shaped(t) && AllValid(names)
    requires forall j {:trigger Holds(image, t.nodes, j)} :: Holds(image, t.nodes, j)
    ensures DotsAt(image, names)
  {
    hide Holds, Lookup, Listing, SeemsDirectory, TypeAt, Walk;
    LookupIsExact(image, t, names);
    if names in t.paths {
      var k := t.paths[names];
      assert PathAt(t, names) && NodeAt(t, k) && Holds(image, t.nodes, k);
      SeenAsHeld(image, t, k);
      if IsDirectory(t.nodes, k) {
        var records := Records(t.nodes, k);
        assert NodeAt(t, t.nodes[k].parent);
        FindsFirst(records, [46], 0);
        FindsFirst(records, [46, 46], 1);
        if names != [] {
          LookupIsExact(image, t, names[..|names| - 1]);
        }
      }
    }
  }

  /** The names in the image are exactly those of the tree: a path leads to the same node in both, and what
      is not in the tree is not in the image. */
  lemma {:induction false} LookupIsExact(image: Image, t: Tree, names: seq<Name>)
    requires Blocks(image) && Shaped(t) && AllValid(names)
    requires forall k {:trigger Holds(image, t.nodes, k)} :: Holds(image, t.nodes, k)
    ensures names in t.paths ==> t.paths[names] < |t.nodes|
    ensures Lookup(image, names) == if names in t.paths then Some(t.nodes[t.paths[names]].inode) else None
  {
    hide ReaderInodeBlock, BytesOf, Walk, Records, Get16, InodeOffset;
    assert PathAt(t, names) && NodeAt(t, 0);
    if names != [] {
      var n := |names| - 1;
      var up := names[..n];
      assert names == up + [names[n]];
      LookupIsExact(image, t, up);
      assert PathAt(t, up);
      if up in t.paths {
        var d := t.paths[up];
        assert NodeAt(t, d) && Holds(image, t.nodes, d);
        if IsDirectory(t.nodes, d) {
          FindsEntry(t, d, names[n]);
        }
      }
    }
  }

  // ---- building ----

  /** Entry `k` carries node `k`; that of a directory carries its records. */
  ghost predicate EncodedAt(nodes: seq<Node>, entries: seq<Entry>, k: nat) {
    k < |entries| && k < |nodes| ==>
      var v, e := nodes[k], entries[k];
      && e.inode == v.inode && e.mode == v.mode && e.links == v.links
      && (e.symlink <==> v.payload.LinkText?) && (e.directory <==> v.payload.Directory?)
      && v.parent < |nodes| && InRange(nodes, v.entries)
      && match v.payload
         case FileData(data) => e.data == data
         case LinkText(text) => e.data == text
         case Directory => Walk(e.data, 0) == Records(nodes, k) && |e.data| == Length(v)
  }

  /** How many bytes the contents of a node take up; a directory fills whole blocks. */
  function Length(v: Node): nat {
    match v.payload
    case FileData(data) => |data|
    case LinkText(text) => |text|
    case Directory => BLOCK_SIZE * DirectoryBlocks([1, 2] + EntryLengths(v.entries))
  }

  function EntryLengths(entries: seq<Link>): (r: seq<nat>)
    ensures |r| == |entries|
  {
    seq(|entries|, i requires 0 <= i < |entries| => |entries[i].name|)
  }

  lemma RecordLengths(nodes: seq<Node>, k: nat)
    requires k < |nodes| && nodes[k].parent < |nodes| && InRange(nodes, nodes[k].entries)
    ensures NameLengths(Records(nodes, k)) == [1, 2] + EntryLengths(nodes[k].entries)
  {
  }

  /** Blocks that the first `n` nodes take up. */
  function TreeDemand(nodes: seq<Node>, n: nat): nat
    requires n <= |nodes|
  {
    if n == 0 then 0 else TreeDemand(nodes, n - 1) + Demand(Length(nodes[n - 1]), nodes[n - 1].payload.LinkText?)
  }

  predicate NodeFits(v: Node, groupCount: nat) {
    v.inode <= groupCount * INODES_PER_GROUP && Length(v) <= MAX_FILE_BYTES
  }

  /** When the image of a tree can be built: every group has room for its metadata, there are enough inodes,
      nothing is too long, and all contents together fit into the blocks that are left. */
  predicate TreeFits(total: nat, nodes: seq<Node>) {
    && LayoutFits(total) && TreeDemand(nodes, |nodes|) <= Capacity(total)
    && forall k :: 0 <= k < |nodes| ==> NodeFits(nodes[k], GroupCount(total))
  }

  lemma EncodedLength(nodes: seq<Node>, entries: seq<Entry>, k: nat)
    requires k < |entries| && k < |nodes| && EncodedAt(nodes, entries, k)
    ensures |entries[k].data| == Length(nodes[k]) && (entries[k].symlink <==> nodes[k].payload.LinkText?)
    ensures entries[k].inode == nodes[k].inode
  {
  }

  lemma {:induction false} SameDemand(nodes: seq<Node>, entries: seq<Entry>, n: nat)
    requires Encodes(nodes, entries) && n <= |nodes|
    ensures Demands(entries[..n]) == TreeDemand(nodes, n)
  {
    hide EncodedAt, Length, Demand;
    if n > 0 {
      SameDemand(nodes, entries, n - 1);
      assert EncodedAt(nodes, entries, n - 1);
      EncodedLength(nodes, entries, n - 1);
      assert entries[..n][..n - 1] == entries[..n - 1];
    }
  }

  /** The entries can be written exactly when the tree fits. */
  lemma BuildableTree(total: nat, nodes: seq<Node>, entries: seq<Entry>)
    requires Encodes(nodes, entries)
    ensures Buildable(total, entries) <==> TreeFits(total, nodes)
  {
    hide EncodedAt, Length, LayoutFits, Capacity, GroupCount;
    SameDemand(nodes, entries, |nodes|);
    assert entries[..|nodes|] == entries;
    forall k | 0 <= k < |nodes|
      ensures |entries[k].data| == Length(nodes[k]) && entries[k].inode == nodes[k].inode
    {
      assert EncodedAt(nodes, entries, k);
      EncodedLength(nodes, entries, k);
    }
  }

  /** Directories among the first `n` nodes whose inodes are in group `g`. */
  function TreeDirectories(nodes: seq<Node>, n: nat, g: nat): nat
    requires n <= |nodes|
  {
    if n == 0 then 0 else
    var v := nodes[n - 1];
    TreeDirectories(nodes, n - 1, g)
    + (if v.payload.Directory? && v.inode >= 1 && (v.inode - 1) / INODES_PER_GROUP == g then 1 else 0)
  }

  lemma {:induction false} SameDirectories(nodes: seq<Node>, entries: seq<Entry>, n: nat, g: nat)
    requires Encodes(nodes, entries) && n <= |nodes|
    ensures DirectoriesIn(entries[..n], g) == TreeDirectories(nodes, n, g)
  {
    if n > 0 {
      SameDirectories(nodes, entries, n - 1, g);
      assert EncodedAt(nodes, entries, n - 1);
      assert entries[..n][..n - 1] == entries[..n - 1];
    }
  }

  /** The contents of a node are in blocks rather than in its inode. */
  predicate InBlocksOf(v: Node) {
    !(v.payload.LinkText? && |v.payload.text| < 60)
  }

  lemma SameUse(nodes: seq<Node>, entries: seq<Entry>, k: nat)
    requires k < |entries| && k < |nodes| && EncodedAt(nodes, entries, k)
    ensures (UsesBlocks(entries[k]) <==> InBlocksOf(nodes[k])) && entries[k].inode == nodes[k].inode
    ensures Demand(|entries[k].data|, entries[k].symlink) == Demand(Length(nodes[k]), nodes[k].payload.LinkText?)
  {
  }

  /** The node has as many blocks as it needs, all of them different and none of them metadata. */
  ghost predicate NodeOwnsBlocks(image: Image, gdt: nat, v: Node)
    requires Blocks(image)
  {
    v.inode >= 1 && (InBlocksOf(v) ==>
      && |ReachedFrom(image, v.inode)| == Demand(Length(v), v.payload.LinkText?)
      && forall b :: b in ReachedFrom(image, v.inode) ==> IsData(gdt, b) && b < |image|)
  }

  /** Two nodes share no block. */
  ghost predicate NodesApart(image: Image, v: Node, w: Node)
    requires Blocks(image)
  {
    v.inode >= 1 && w.inode >= 1 && InBlocksOf(v) && InBlocksOf(w) ==>
      ReachedFrom(image, v.inode) !! ReachedFrom(image, w.inode)
  }

  lemma NodeOwns(image: Image, gdt: nat, nodes: seq<Node>, entries: seq<Entry>, k: nat)
    requires Blocks(image) && k < |entries| && k < |nodes| && EncodedAt(nodes, entries, k)
    requires entries[k].inode >= 1 && OwnsBlocks(image, gdt, entries[k])
    ensures NodeOwnsBlocks(image, gdt, nodes[k])
  {
    hide EncodedAt, Length, Demand, ReachedFrom, IsData;
    SameUse(nodes, entries, k);
  }

  ghost predicate Encodes(nodes: seq<Node>, entries: seq<Entry>) {
    |entries| == |nodes| && forall k {:trigger EncodedAt(nodes, entries, k)} :: EncodedAt(nodes, entries, k)
  }

  method EntryOf(nodes: seq<Node>, k: nat, ghost t: Tree) returns (e: Entry)
    requires Shaped(t) && t.nodes == nodes && k < |nodes|
    ensures nodes[k].parent < |nodes| && InRange(nodes, nodes[k].entries)
    ensures forall entries: seq<Entry> :: |entries| > k && entries[k] == e ==> EncodedAt(nodes, entries, k)
    ensures e.inode == Number(k)
  {
    hide Walk, Records;
    Listable(t, k);
    assert NodeAt(t, k);
    var v := nodes[k];
    var data: seq<byte>;
    match v.payload {
      case FileData(d) => data := d;
      case LinkText(text) => data := text;
      case Directory =>
        data := DirectoryData(Records(nodes, k));
        RecordLengths(nodes, k);
    }
    e := Entry(v.inode, v.mode, v.links, data, v.payload.LinkText?, v.payload.Directory?);
  }

  /** Everything that is to be written, in the order of the inodes. */
  method Entries(nodes: seq<Node>, ghost t: Tree) returns (entries: seq<Entry>)
    requires Shaped(t) && t.nodes == nodes
    ensures Encodes(nodes, entries) && Numbered(entries)
  {
    hide Shaped;
    entries := [];
    for k := 0 to |nodes|
      invariant |entries| == k && Numbered(entries)
      invariant forall i: nat {:trigger EncodedAt(nodes, entries, i)} :: i < k ==> EncodedAt(nodes, entries, i)
    {
      var e := EntryOf(nodes, k, t);
      EncodedFurther(nodes, entries, e);
      entries := entries + [e];
    }
  }

  lemma EncodedFurther(nodes: seq<Node>, entries: seq<Entry>, e: Entry)
    requires forall i: nat {:trigger EncodedAt(nodes, entries, i)} :: i < |entries| ==> EncodedAt(nodes, entries, i)
    requires EncodedAt(nodes, entries + [e], |entries|)
    ensures forall i: nat {:trigger EncodedAt(nodes, entries + [e], i)} ::
              i <= |entries| ==> EncodedAt(nodes, entries + [e], i)
  {
    var entries' := entries + [e];
    forall i: nat | i <= |entries| ensures EncodedAt(nodes, entries', i) {
      if i < |entries| {
        assert EncodedAt(nodes, entries, i);
      }
    }
  }

  /** What a reader finds of an entry is the node it carries. */
  lemma HoldsEntry(image: Image, nodes: seq<Node>, entries: seq<Entry>, k: nat)
    requires Blocks(image) && k < |nodes| == |entries| && EncodedAt(nodes, entries, k)
    requires entries[k].inode >= 1 && Reads(image, entries[k])
    ensures Holds(image, nodes, k)
  {
    hide ReaderInodeBlock, Contents, Walk, Records, Get16, Get32, InodeOffset, Demand;
  }

  /** Builds the image of a tree. Every node can be read back from it, its link count with it, and looking
      up a path in the image leads where the path leads in the tree. */
  method BuildTree(b: ImageBuilder, volume: seq<byte>) returns (r: Option<Image>)
    requires b.Valid() && |volume| == 16
    ensures r.Some? <==> TreeFits(b.total, b.nodes)
    ensures r.Some? ==> b.total > 1 && Blocks(r.value) && |r.value| == b.total
    ensures r.Some? ==> forall k {:trigger Holds(r.value, b.nodes, k)} :: Holds(r.value, b.nodes, k)
    ensures r.Some? ==> forall names {:trigger Lookup(r.value, names)} :: AllValid(names) ==>
              && (names in b.paths ==> b.paths[names] < |b.nodes|)
              && Lookup(r.value, names) == if names in b.paths then Some(b.nodes[b.paths[names]].inode) else None
    ensures r.Some? ==> forall names {:trigger DotsAt(r.value, names)} :: AllValid(names) ==> DotsAt(r.value, names)
    ensures r.Some? ==> forall k :: 0 <= k < |b.nodes| ==> KindsAt(r.value, b.nodes[k].inode)
    ensures r.Some? ==> forall k :: 0 <= k < |b.nodes| ==> LinksCounted(r.value, |b.nodes|, b.nodes[k].inode)
    ensures r.Some? ==> forall k :: 0 <= k < |b.nodes| ==> NodeOwnsBlocks(r.value, GdtBlocks(b.total), b.nodes[k])
    ensures r.Some? ==> forall j, k :: 0 <= j < k < |b.nodes| ==> NodesApart(r.value, b.nodes[j], b.nodes[k])
    ensures r.Some? ==> forall g: nat {:trigger TreeDirectories(b.nodes, |b.nodes|, g)} :: g < GroupCount(b.total) ==>
              GroupBooks(r.value, GdtBlocks(b.total), GroupCount(b.total), volume, g,
                         TreeDirectories(b.nodes, |b.nodes|, g))
  {
    hide Reads, OwnsBlocks, NodeOwnsBlocks, ReachedFrom, GroupBooks, DirectoriesIn, TreeDirectories, UsesBlocks,
         InBlocksOf, Holds, EncodedAt, Shaped, Lookup, Buildable, TreeFits, AllValid, LinksAt, DotsAt, KindsAt,
         LinksCounted;
    var entries := Entries(b.nodes, b.State());
    BuildableTree(b.total, b.nodes, entries);
    r := Build(b.total, volume, entries);
    if r.Some? {
      forall k: nat ensures Holds(r.value, b.nodes, k) {
        if k < |entries| {
          assert EncodedAt(b.nodes, entries, k) && Reads(r.value, entries[k]);
          HoldsEntry(r.value, b.nodes, entries, k);
        } else {
          NoNode(r.value, b.nodes, k);
        }
      }
      forall k | 0 <= k < |b.nodes|
        ensures NodeOwnsBlocks(r.value, GdtBlocks(b.total), b.nodes[k])
        ensures (UsesBlocks(entries[k]) <==> InBlocksOf(b.nodes[k])) && entries[k].inode == b.nodes[k].inode
      {
        assert EncodedAt(b.nodes, entries, k);
        NodeOwns(r.value, GdtBlocks(b.total), b.nodes, entries, k);
        SameUse(b.nodes, entries, k);
      }
      assert entries[..|b.nodes|] == entries;
      forall g: nat | g < GroupCount(b.total)
        ensures GroupBooks(r.value, GdtBlocks(b.total), GroupCount(b.total), volume, g,
                           TreeDirectories(b.nodes, |b.nodes|, g))
      {
        SameDirectories(b.nodes, entries, |b.nodes|, g);
      }
      forall names | AllValid(names)
        ensures names in b.paths ==> b.paths[names] < |b.nodes|
        ensures Lookup(r.value, names) == if names in b.paths then Some(b.nodes[b.paths[names]].inode) else None
        ensures DotsAt(r.value, names)
      {
        LookupIsExact(r.value, b.State(), names);
        DotsInImage(r.value, b.State(), names);
      }
      forall k | 0 <= k < |b.nodes|
        ensures KindsAt(r.value, b.nodes[k].inode) && LinksCounted(r.value, |b.nodes|, b.nodes[k].inode)
      {
        KindsInImage(r.value, b.State(), k);
        LinksInImage(r.value, b.State(), k);
      }
    }
  }

  lemma NoNode(image: Image, nodes: seq<Node>, k: nat)
    requires Blocks(image) && k >= |nodes|
    ensures Holds(image, nodes, k)
  {
  }
}
