/** Path resolution over a tree of vnodes with mounts and symbolic links, and the printer that it
    inverts (kernel/fs/vfs.c:71-156, 458-485). A vnode is a nonzero number; 0 is no vnode. */
module Vfs {
  const SYMLOOP_MAX: nat := 16
  const PATH_MAX: nat := 1024

  type Path = seq<char>

  datatype Kind = File | Dir | Link(target: Path) | BrokenLink | Device

  /** `mounted` is the root of a filesystem that covers this directory, `mountpoint` the directory a
      mounted root covers. */
  datatype Vnode = Vnode(name: Path, kind: Kind, parent: nat, children: seq<nat>, mounted: nat, mountpoint: nat)

  datatype Tree = Tree(root: nat, nodes: map<nat, Vnode>)

  function At(g: Tree, n: nat): Vnode {
    if n in g.nodes then g.nodes[n] else Vnode([], File, 0, [], 0, 0)
  }

  /** The root paths start from: what covers it, if anything does. */
  function RootOf(g: Tree): nat { if At(g, g.root).mounted != 0 then At(g, g.root).mounted else g.root }

  // ---- looking up one component ------------------------------------------------------------------

  function FindChild(g: Tree, kids: seq<nat>, name: Path): nat {
    if kids == [] then 0 else if At(g, kids[0]).name == name then kids[0] else FindChild(g, kids[1..], name)
  }

  /** What covers a vnode, or itself. */
  function Top(g: Tree, n: nat): nat { if n != 0 && At(g, n).mounted != 0 then At(g, n).mounted else n }

  function DirFind(g: Tree, dir: nat, name: Path): nat {
    if name == "." then dir
    else if name == ".." then
      var up := if At(g, dir).mountpoint != 0 then At(g, dir).mountpoint else dir;
      if At(g, up).parent != 0 then At(g, up).parent else up
    else Top(g, FindChild(g, At(g, dir).children, name))
  }

  // ---- paths -------------------------------------------------------------------------------------

  function Skip(p: Path): (r: Path)
    ensures |r| <= |p|
  {
    if p != [] && p[0] == '/' then Skip(p[1..]) else p
  }

  /** The length of the first component. */
  function SegLen(p: Path): (n: nat)
    ensures n <= |p|
  {
    if p == [] || p[0] == '/' then 0 else 1 + SegLen(p[1..])
  }

  /** What follows the first component. */
  function Rest(p: Path): (r: Path)
    ensures |r| <= |p| && (r != [] ==> |r| < |p|)
  {
    Skip(p[SegLen(p)..])
  }

  /** A lookup in progress: the vnode reached (0 for none), the last component where it is still to be
      looked up, and how many links have been followed. */
  datatype Walk = Walk(n: nat, last: Path, depth: nat)

  function LinksLeft(depth: nat): nat { if depth > SYMLOOP_MAX then 0 else SYMLOOP_MAX + 1 - depth }

  /** All components but the last, following links on the way. */
  function WalkParent(g: Tree, dir: nat, path: Path, depth: nat): (w: Walk)
    ensures Counted(w, depth)
    decreases LinksLeft(depth), |path| + 1, 1
  {
    var seg := path[..SegLen(path)];
    var rest := Rest(path);
    if rest == [] then Walk(dir, seg, depth)
    else if At(g, dir).kind != Dir then Walk(0, [], depth)
    else
      var w := Follow(g, dir, DirFind(g, dir, seg), depth);
      if w.n == 0 then w else WalkParent(g, w.n, rest, w.depth)
  }

  /** The count only grows, and is at most one past the limit; a vnode comes out only within it. */
  predicate Counted(w: Walk, depth: nat) {
    w.depth >= depth && (depth <= SYMLOOP_MAX ==> w.depth <= SYMLOOP_MAX + 1 && (w.n != 0 ==> w.depth <= SYMLOOP_MAX))
  }

  /** `n`, or where it leads if it is a link. */
  function Follow(g: Tree, dir: nat, n: nat, depth: nat): (w: Walk)
    ensures Counted(w, depth)
    decreases LinksLeft(depth), 0, 0
  {
    if n == 0 || !(At(g, n).kind.Link? || At(g, n).kind.BrokenLink?) then Walk(n, [], depth)
    else if depth + 1 > SYMLOOP_MAX || At(g, n).kind.BrokenLink? then Walk(0, [], depth + 1)
    else
      var w := Resolve(g, dir, At(g, n).kind.target, true, depth + 1);
      if w.n == 0 then w else Follow(g, dir, w.n, w.depth)
  }

  function Start(g: Tree, cwd: nat, path: Path): nat {
    if path != [] && path[0] == '/' then RootOf(g) else if cwd != 0 then cwd else RootOf(g)
  }

  /** The vnode a path leads to, 0 for none. */
  function Resolve(g: Tree, cwd: nat, path: Path, followLast: bool, depth: nat): (w: Walk)
    ensures Counted(w, depth)
    decreases LinksLeft(depth), |path| + 1, 2
  {
    if path == [] then Walk(0, [], depth)
    else
      var w := WalkParent(g, Start(g, cwd, path), Skip(path), depth);
      if w.n == 0 then w
      else if w.last == [] then Walk(w.n, [], w.depth)
      else if At(g, w.n).kind != Dir then Walk(0, [], w.depth)
      else
        var n := DirFind(g, w.n, w.last);
        if followLast then Follow(g, w.n, n, w.depth) else Walk(n, [], w.depth)
  }

  predicate IsLink(v: Vnode) { v.kind.Link? || v.kind.BrokenLink? }

  /** Following leads out of links: what a lookup that follows returns is not one. */
  lemma {:induction false} FollowEndsOutside(g: Tree, dir: nat, n: nat, depth: nat)
    ensures Follow(g, dir, n, depth).n == 0 || !IsLink(At(g, Follow(g, dir, n, depth).n))
    decreases LinksLeft(depth)
  {
    if n != 0 && IsLink(At(g, n)) && depth + 1 <= SYMLOOP_MAX && At(g, n).kind.Link? {
      var w := Resolve(g, dir, At(g, n).kind.target, true, depth + 1);
      if w.n != 0 { FollowEndsOutside(g, dir, w.n, w.depth); }
    }
  }

  /** On any tree, cyclic links included: a lookup ends (the functions are total), and if it finds
      something, it followed at most 16 links and what it found is not a link or the path had no
      last component. */
  lemma LookupWithinLimit(g: Tree, cwd: nat, path: Path, followLast: bool)
    requires Resolve(g, cwd, path, followLast, 0).n != 0
    ensures Resolve(g, cwd, path, followLast, 0).depth <= SYMLOOP_MAX
    ensures followLast ==> !IsLink(At(g, Resolve(g, cwd, path, followLast, 0).n))
                           || WalkParent(g, Start(g, cwd, path), Skip(path), 0).last == []
  {
    var w := WalkParent(g, Start(g, cwd, path), Skip(path), 0);
    if w.last != [] { FollowEndsOutside(g, w.n, DirFind(g, w.n, w.last), w.depth); }
  }

  // ---- well-formed trees -------------------------------------------------------------------------

  predicate NameOk(s: Path) {
    s != [] && s != "." && s != ".." && forall i :: 0 <= i < |s| ==> s[i] != '/' && s[i] != '\0'
  }

  /** A vnode below another: a named child of a directory, alone in bearing its name there. */
  predicate ChildOk(g: Tree, n: nat) {
    var v := At(g, n);
    v.parent != 0 ==>
      && NameOk(v.name) && At(g, v.parent).kind == Dir
      && n in At(g, v.parent).children
      && forall c :: c in At(g, v.parent).children && At(g, c).name == v.name ==> c == n
  }

  predicate ChildrenOk(g: Tree, n: nat) {
    forall c :: c in At(g, n).children ==> c in g.nodes && At(g, c).parent == n
  }

  /** What a mounted root says it covers is covered by it, and is the global root or below another
      directory. Mounting over the global root moves directories of the old one to the new one: then, and
      only then, a directory may still name a root that covers another one now, and a mounted root may
      have a parent. */
  predicate MountOk(g: Tree, n: nat) {
    var v := At(g, n);
    && (v.mounted != 0 ==> v.mounted in g.nodes)
    && (v.mounted != 0 ==> At(g, v.mounted).mountpoint == n || (RootCovered(g) && n != g.root))
    && (v.mountpoint != 0 && v.parent != 0 ==> RootCovered(g))
    && (v.mountpoint != 0 ==> v.mountpoint in g.nodes && At(g, v.mountpoint).mounted == n
                              && At(g, v.mountpoint).mountpoint == 0
                              && if v.mountpoint == g.root then v.kind == Dir else At(g, v.mountpoint).parent != 0)
    && (v.parent == 0 && v.mountpoint == 0 ==> n == g.root)
  }

  predicate RootCovered(g: Tree) { At(g, g.root).mounted != 0 }

  /** `rank` orders vnodes by distance from the root, mounts included. */
  ghost predicate TreeOk(g: Tree, rank: map<nat, nat>) {
    && g.root in g.nodes && g.root != 0 && 0 !in g.nodes && At(g, g.root).parent == 0 && At(g, g.root).mountpoint == 0
    && At(g, g.root).kind == Dir && rank.Keys == g.nodes.Keys
    && forall n :: n in g.nodes ==>
         && ChildOk(g, n) && ChildrenOk(g, n) && MountOk(g, n)
         && (At(g, n).parent != 0 ==> At(g, n).parent in g.nodes && rank[At(g, n).parent] < rank[n])
         && (At(g, n).mountpoint != 0 ==> rank[At(g, n).mountpoint] < rank[n])
  }

  /** The directory a mounted root sits on, or the vnode itself. */
  function Base(g: Tree, n: nat): nat { if At(g, n).mountpoint != 0 then At(g, n).mountpoint else n }

  lemma BaseRank(g: Tree, rank: map<nat, nat>, n: nat)
    requires TreeOk(g, rank) && n in g.nodes
    ensures Base(g, n) in g.nodes && rank[Base(g, n)] <= rank[n] && ChildOk(g, Base(g, n)) && MountOk(g, n)
    ensures Base(g, n) != g.root ==> At(g, Base(g, n)).parent in g.nodes && rank[At(g, Base(g, n)).parent] < rank[n]
    ensures Base(g, n) != g.root ==> At(g, Base(g, n)).parent != 0
  {
    hide ChildOk;
    assert MountOk(g, n);
    assert MountOk(g, Base(g, n));
  }

  /** The names from the root down to a vnode. */
  ghost function Names(g: Tree, rank: map<nat, nat>, n: nat): seq<Path>
    requires TreeOk(g, rank) && n in g.nodes
    decreases rank[n]
  {
    if Base(g, n) == g.root then []
    else
      BaseRank(g, rank, n);
      Names(g, rank, At(g, Base(g, n)).parent) + [At(g, Base(g, n)).name]
  }

  /** Neither it nor a directory above it is covered by a mount. */
  ghost predicate Visible(g: Tree, rank: map<nat, nat>, n: nat)
    requires TreeOk(g, rank) && n in g.nodes
    decreases rank[n]
  {
    && At(g, n).mounted == 0
    && (Base(g, n) == g.root || (BaseRank(g, rank, n); Visible(g, rank, At(g, Base(g, n)).parent)))
  }

  // ---- walking a list of names -------------------------------------------------------------------

  function Descend(g: Tree, dir: nat, cs: seq<Path>): nat
    decreases |cs|
  {
    if cs == [] then dir else Descend(g, DirFind(g, dir, cs[0]), cs[1..])
  }

  lemma {:induction false} DescendLast(g: Tree, dir: nat, cs: seq<Path>, c: Path)
    ensures Descend(g, dir, cs + [c]) == DirFind(g, Descend(g, dir, cs), c)
    decreases |cs|
  {
    if cs == [] {
      assert (cs + [c])[1..] == [];
    } else {
      assert (cs + [c])[1..] == cs[1..] + [c];
      DescendLast(g, DirFind(g, dir, cs[0]), cs[1..], c);
    }
  }

  lemma {:induction false} FindsOnly(g: Tree, kids: seq<nat>, name: Path, n: nat)
    requires n in kids && At(g, n).name == name && forall c :: c in kids && At(g, c).name == name ==> c == n
    ensures FindChild(g, kids, name) == n
  {
    if At(g, kids[0]).name != name {
      assert n in kids[1..];
      FindsOnly(g, kids[1..], name, n);
    }
  }

  /** Looking a visible vnode's name up where it belongs finds it, through the mount if there is one. */
  lemma FoundInParent(g: Tree, rank: map<nat, nat>, n: nat)
    requires TreeOk(g, rank) && n in g.nodes && Base(g, n) != g.root && At(g, n).mounted == 0
    ensures Base(g, n) in g.nodes && At(g, Base(g, n)).parent in g.nodes && At(g, At(g, Base(g, n)).parent).kind == Dir
    ensures NameOk(At(g, Base(g, n)).name)
    ensures DirFind(g, At(g, Base(g, n)).parent, At(g, Base(g, n)).name) == n && n != 0
  {
    BaseRank(g, rank, n);
    var m := Base(g, n);
    FindsOnly(g, At(g, At(g, m).parent).children, At(g, m).name, m);
    assert m != 0 by { assert m in g.nodes; }
  }

  /** The directories on the way are directories. */
  ghost predicate DirsOn(g: Tree, dir: nat, cs: seq<Path>)
    decreases |cs|
  {
    At(g, dir).kind == Dir && dir != 0 && (cs != [] ==> DirsOn(g, DirFind(g, dir, cs[0]), cs[1..]))
  }

  lemma {:induction false} DirsOnLast(g: Tree, dir: nat, cs: seq<Path>, c: Path)
    requires DirsOn(g, dir, cs) && At(g, DirFind(g, Descend(g, dir, cs), c)).kind == Dir
    requires DirFind(g, Descend(g, dir, cs), c) != 0
    ensures DirsOn(g, dir, cs + [c])
    decreases |cs|
  {
    if cs == [] {
      assert (cs + [c])[1..] == [];
    } else {
      assert (cs + [c])[1..] == cs[1..] + [c];
      DirsOnLast(g, DirFind(g, dir, cs[0]), cs[1..], c);
    }
  }

  lemma {:induction false} NamesLeadBack(g: Tree, rank: map<nat, nat>, n: nat)
    requires TreeOk(g, rank) && n in g.nodes && Visible(g, rank, n)
    ensures Descend(g, RootOf(g), Names(g, rank, n)) == n
    ensures At(g, n).kind == Dir ==> DirsOn(g, RootOf(g), Names(g, rank, n))
    ensures forall i :: 0 <= i < |Names(g, rank, n)| ==> NameOk(Names(g, rank, n)[i])
    decreases rank[n]
  {
    if Base(g, n) == g.root {
      RootLeadsBack(g, rank, n);
    } else {
      BaseRank(g, rank, n);
      FoundInParent(g, rank, n);
      var p, c := At(g, Base(g, n)).parent, At(g, Base(g, n)).name;
      NamesLeadBack(g, rank, p);
      var cs := Names(g, rank, p);
      assert Names(g, rank, n) == cs + [c];
      hide TreeOk, Names, Visible;
      OneMore(g, RootOf(g), cs, c, n);
    }
  }

  /** One more name behind a list that leads to a directory. */
  lemma OneMore(g: Tree, dir: nat, cs: seq<Path>, c: Path, n: nat)
    requires DirsOn(g, dir, cs) && DirFind(g, Descend(g, dir, cs), c) == n != 0
    requires NameOk(c) && forall i :: 0 <= i < |cs| ==> NameOk(cs[i])
    ensures Descend(g, dir, cs + [c]) == n
    ensures At(g, n).kind == Dir ==> DirsOn(g, dir, cs + [c])
    ensures forall i :: 0 <= i < |cs + [c]| ==> NameOk((cs + [c])[i])
  {
    hide DirsOn, Descend, DirFind, NameOk;
    DescendLast(g, dir, cs, c);
    if At(g, n).kind == Dir { DirsOnLast(g, dir, cs, c); }
  }

  lemma RootLeadsBack(g: Tree, rank: map<nat, nat>, n: nat)
    requires TreeOk(g, rank) && n in g.nodes && Visible(g, rank, n) && Base(g, n) == g.root
    ensures Names(g, rank, n) == [] && n == RootOf(g) && n != 0
  {
    assert MountOk(g, n);
  }

  // ---- what lookups find ---------------------------------------------------------------------------

  ghost predicate Found(g: Tree, rank: map<nat, nat>, n: nat)
    requires TreeOk(g, rank)
  {
    n == 0 || (n in g.nodes && Visible(g, rank, n))
  }

  lemma {:induction false} ChildFound(g: Tree, kids: seq<nat>, name: Path)
    ensures FindChild(g, kids, name) == 0 || FindChild(g, kids, name) in kids
  {
    if kids != [] && At(g, kids[0]).name != name { ChildFound(g, kids[1..], name); }
  }

  /** With the global root not covered, one component leads from a visible vnode to a visible one. */
  lemma StepVisible(g: Tree, rank: map<nat, nat>, dir: nat, name: Path)
    requires TreeOk(g, rank) && !RootCovered(g) && dir in g.nodes && Visible(g, rank, dir)
    ensures Found(g, rank, DirFind(g, dir, name))
  {
    BaseRank(g, rank, dir);
    if name != "." && name != ".." {
      ChildFound(g, At(g, dir).children, name);
      var c := FindChild(g, At(g, dir).children, name);
      hide FindChild;
      if c != 0 {
        assert ChildrenOk(g, dir);
        assert c in g.nodes && At(g, c).parent == dir && MountOk(g, c) && c != g.root;
        var m := At(g, c).mounted;
        if m != 0 {
          assert MountOk(g, m) && Base(g, m) == c;
          assert At(g, m).mounted != 0 ==> MountOk(g, At(g, m).mounted);
        }
      }
    }
  }

  lemma RootVisible(g: Tree, rank: map<nat, nat>)
    requires TreeOk(g, rank) && !RootCovered(g)
    ensures RootOf(g) == g.root && Visible(g, rank, g.root)
  {
  }

  lemma {:induction false} FollowVisible(g: Tree, rank: map<nat, nat>, dir: nat, n: nat, depth: nat)
    requires TreeOk(g, rank) && !RootCovered(g) && dir != 0 && Found(g, rank, dir) && Found(g, rank, n)
    ensures Found(g, rank, Follow(g, dir, n, depth).n)
    decreases LinksLeft(depth), 0, 0
  {
    hide TreeOk, Visible, WalkParent;
    if n != 0 && At(g, n).kind.Link? && depth + 1 <= SYMLOOP_MAX {
      LookupVisible(g, rank, dir, At(g, n).kind.target, true, depth + 1);
      var w := Resolve(g, dir, At(g, n).kind.target, true, depth + 1);
      hide Resolve;
      if w.n != 0 { FollowVisible(g, rank, dir, w.n, w.depth); }
    }
  }

  lemma {:induction false} WalkVisible(g: Tree, rank: map<nat, nat>, dir: nat, path: Path, depth: nat)
    requires TreeOk(g, rank) && !RootCovered(g) && dir != 0 && Found(g, rank, dir)
    ensures Found(g, rank, WalkParent(g, dir, path, depth).n)
    decreases LinksLeft(depth), |path| + 1, 1
  {
    hide TreeOk, Visible, Resolve, Follow, DirFind;
    var seg, rest := path[..SegLen(path)], Rest(path);
    if rest != [] && At(g, dir).kind == Dir {
      StepVisible(g, rank, dir, seg);
      FollowVisible(g, rank, dir, DirFind(g, dir, seg), depth);
      var w := Follow(g, dir, DirFind(g, dir, seg), depth);
      if w.n != 0 { WalkVisible(g, rank, w.n, rest, w.depth); }
    }
  }

  /** Every lookup, of any path from any visible directory, through links, mounts and "..", finds a visible
      vnode or none, as long as the global root is not covered. */
  lemma {:induction false} LookupVisible(g: Tree, rank: map<nat, nat>, cwd: nat, path: Path, followLast: bool,
                                         depth: nat)
    requires TreeOk(g, rank) && !RootCovered(g) && Found(g, rank, cwd)
    ensures Found(g, rank, Resolve(g, cwd, path, followLast, depth).n)
    decreases LinksLeft(depth), |path| + 1, 2
  {
    RootVisible(g, rank);
    RootThere(g, rank);
    hide TreeOk, Visible, WalkParent, Follow, DirFind;
    if path != [] {
      WalkVisible(g, rank, Start(g, cwd, path), Skip(path), depth);
      var w := WalkParent(g, Start(g, cwd, path), Skip(path), depth);
      if w.n != 0 && w.last != [] {
        StepVisible(g, rank, w.n, w.last);
        FollowVisible(g, rank, w.n, DirFind(g, w.n, w.last), w.depth);
      }
    }
  }

  lemma RootThere(g: Tree, rank: map<nat, nat>)
    requires TreeOk(g, rank)
    ensures g.root != 0 && g.root in g.nodes
  {
  }

  /** Covered or not: going up from the root path leads to the global root itself, so it stays at the root
      of paths exactly if nothing covers that. */
  lemma UpFromRoot(g: Tree, rank: map<nat, nat>, cwd: nat)
    requires TreeOk(g, rank)
    ensures Resolve(g, cwd, "/..", false, 0).n == g.root
    ensures Resolve(g, cwd, "/..", false, 0).n == RootOf(g) <==> !RootCovered(g)
  {
    var p := "/..";
    assert p[1..] == ".." && Skip("..") == "..";
    assert ".."[1..] == "." && "."[1..] == [];
    assert SegLen("..") == 2 && ".."[2..] == [] && ".."[..2] == "..";
    assert Rest("..") == [];
    assert MountOk(g, g.root);
    assert RootCovered(g) ==> MountOk(g, At(g, g.root).mounted);
    hide SegLen, Rest, Skip;
    assert WalkParent(g, RootOf(g), "..", 0) == Walk(RootOf(g), "..", 0);
  }

  // ---- paths as text -----------------------------------------------------------------------------

  /** Each name with a slash before it. */
  function Flat(cs: seq<Path>): Path { if cs == [] then [] else "/" + cs[0] + Flat(cs[1..]) }

  /** The same without the first slash. */
  function Spell(cs: seq<Path>): Path
    requires cs != []
  {
    if |cs| == 1 then cs[0] else cs[0] + "/" + Spell(cs[1..])
  }

  lemma {:induction false} FlatSpell(cs: seq<Path>)
    requires cs != []
    ensures Flat(cs) == "/" + Spell(cs)
  {
    if |cs| == 1 {
      assert cs[1..] == [] && Flat(cs) == "/" + cs[0] + [];
    } else {
      FlatSpell(cs[1..]);
      assert Flat(cs) == "/" + cs[0] + ("/" + Spell(cs[1..]));
      assert "/" + cs[0] + ("/" + Spell(cs[1..])) == "/" + (cs[0] + "/" + Spell(cs[1..]));
    }
  }

  lemma {:induction false} FlatLast(cs: seq<Path>, c: Path)
    ensures Flat(cs + [c]) == Flat(cs) + "/" + c
  {
    if cs == [] {
      assert (cs + [c])[1..] == [];
    } else {
      assert (cs + [c])[1..] == cs[1..] + [c];
      FlatLast(cs[1..], c);
      assert "/" + cs[0] + (Flat(cs[1..]) + "/" + c) == ("/" + cs[0] + Flat(cs[1..])) + "/" + c;
    }
  }

  lemma SpellStart(cs: seq<Path>)
    requires cs != [] && NameOk(cs[0])
    ensures Spell(cs) != [] && Spell(cs)[0] != '/' && Skip(Spell(cs)) == Spell(cs)
  {
    assert Spell(cs)[0] == cs[0][0];
  }

  lemma {:induction false} SegOf(c: Path, r: Path)
    requires (forall i :: 0 <= i < |c| ==> c[i] != '/') && (r == [] || r[0] == '/')
    ensures SegLen(c + r) == |c| && (c + r)[..|c|] == c && (c + r)[|c|..] == r
  {
    if c != [] {
      assert (c + r)[1..] == c[1..] + r;
      SegOf(c[1..], r);
    } else {
      assert c + r == r;
    }
  }

  /** Walking the text of a list of names is descending the list but for the last. */
  lemma {:induction false} WalkSpell(g: Tree, dir: nat, cs: seq<Path>, depth: nat)
    requires cs != [] && (forall i :: 0 <= i < |cs| ==> NameOk(cs[i])) && DirsOn(g, dir, cs[..|cs| - 1])
    ensures WalkParent(g, dir, Spell(cs), depth) == Walk(Descend(g, dir, cs[..|cs| - 1]), cs[|cs| - 1], depth)
    decreases |cs|
  {
    var c := cs[0];
    if |cs| == 1 {
      SegOf(c, []);
      assert c + [] == c && cs[..0] == [];
    } else {
      var r := cs[1..];
      var path := Spell(cs);
      SpellStart(r);
      assert path == c + ("/" + Spell(r));
      SegOf(c, "/" + Spell(r));
      assert ("/" + Spell(r))[1..] == Spell(r);
      assert Rest(path) == Spell(r);
      assert cs[..|cs| - 1][0] == c && cs[..|cs| - 1][1..] == r[..|r| - 1];
      var next := DirFind(g, dir, c);
      assert DirsOn(g, next, r[..|r| - 1]);
      hide SegLen, Rest, Skip, Spell, DirFind;
      WalkSpell(g, next, r, depth);
      assert Follow(g, dir, next, depth) == Walk(next, [], depth);
    }
  }

  /** The absolute path of a vnode. */
  ghost function PathOf(g: Tree, rank: map<nat, nat>, n: nat): Path
    requires TreeOk(g, rank) && n in g.nodes
  {
    if n == g.root then "/" else Flat(Names(g, rank, n))
  }

  /** Resolving the path printed for a visible vnode gives that vnode, across nested mounts, exactly if it
      is not the root of a filesystem that covers the global root: that one's path is empty. A vnode that
      is a link itself comes back when the last component is not followed. */
  lemma PathResolves(g: Tree, rank: map<nat, nat>, n: nat, cwd: nat, followLast: bool)
    requires TreeOk(g, rank) && n in g.nodes && Visible(g, rank, n) && (followLast ==> !IsLink(At(g, n)))
    ensures Resolve(g, cwd, PathOf(g, rank, n), followLast, 0) == Walk(n, [], 0) <==> At(g, n).mountpoint != g.root
    ensures At(g, n).mountpoint == g.root ==> PathOf(g, rank, n) == []
  {
    hide Resolve, PathOf;
    if Base(g, n) == g.root {
      PathAtRoot(g, rank, n, cwd, followLast);
    } else {
      PathBelow(g, rank, n, cwd, followLast);
    }
  }

  lemma PathAtRoot(g: Tree, rank: map<nat, nat>, n: nat, cwd: nat, followLast: bool)
    requires TreeOk(g, rank) && n in g.nodes && Visible(g, rank, n) && Base(g, n) == g.root
    ensures Resolve(g, cwd, PathOf(g, rank, n), followLast, 0) == Walk(n, [], 0) <==> At(g, n).mountpoint != g.root
    ensures At(g, n).mountpoint == g.root ==> PathOf(g, rank, n) == []
  {
    assert n == g.root ==> RootOf(g) == n;
    assert n != 0 && At(g, g.root).mountpoint == 0;
    hide TreeOk, Visible;
    assert "/"[1..] == [] && Skip("/") == [];
    assert WalkParent(g, g.root, [], 0) == Walk(g.root, [], 0);
  }

  lemma PathBelow(g: Tree, rank: map<nat, nat>, n: nat, cwd: nat, followLast: bool)
    requires TreeOk(g, rank) && n in g.nodes && Visible(g, rank, n) && Base(g, n) != g.root
    requires followLast ==> !IsLink(At(g, n))
    ensures Resolve(g, cwd, PathOf(g, rank, n), followLast, 0) == Walk(n, [], 0) && At(g, n).mountpoint != g.root
  {
    ParentLeadsTo(g, rank, n);
    FoundInParent(g, rank, n);
    assert n != g.root && n != 0;
    var cs := Names(g, rank, n);
    FlatSpell(cs);
    SpellStart(cs);
    assert Flat(cs)[1..] == Spell(cs);
    SkipOne(Flat(cs), Spell(cs));
    hide WalkParent, Spell, Flat, Names, DirFind, Skip, TreeOk, Visible;
    assert PathOf(g, rank, n) == Flat(cs);
  }

  /** With the global root not covered, for every vnode there is: its path leads back to it exactly if
      neither it nor a directory above it is covered. */
  lemma PathResolvesIff(g: Tree, rank: map<nat, nat>, n: nat, cwd: nat, followLast: bool)
    requires TreeOk(g, rank) && !RootCovered(g) && n in g.nodes && Found(g, rank, cwd)
    requires followLast ==> !IsLink(At(g, n))
    ensures Resolve(g, cwd, PathOf(g, rank, n), followLast, 0).n == n <==> Visible(g, rank, n)
  {
    hide Resolve, PathOf;
    LookupVisible(g, rank, cwd, PathOf(g, rank, n), followLast, 0);
    NotOverRoot(g, rank, n);
    hide TreeOk;
    if Visible(g, rank, n) { PathResolves(g, rank, n, cwd, followLast); }
  }

  lemma NotOverRoot(g: Tree, rank: map<nat, nat>, n: nat)
    requires TreeOk(g, rank) && !RootCovered(g) && n in g.nodes
    ensures n != 0 && At(g, n).mountpoint != g.root
  {
    assert MountOk(g, n);
  }

  /** A filesystem (2) mounted over the global root (1), with the old /dev (3) moved on to its own (4): the
      path of its root is empty and leads nowhere, while the moved directory is found again. */
  lemma CoveredRootLost()
    ensures var g, rank := Covered(), CoveredRank();
            && TreeOk(g, rank) && Visible(g, rank, 2) && PathOf(g, rank, 2) == []
            && Resolve(g, 2, PathOf(g, rank, 2), true, 0).n == 0
            && Visible(g, rank, 3) && PathOf(g, rank, 3) == "/dev"
            && Resolve(g, 2, PathOf(g, rank, 3), true, 0).n == 3
            && RootOf(g) == 2 && Resolve(g, 2, "/..", false, 0).n == 1
  {
    CoveredOk();
    CoveredNames();
    var g, rank := Covered(), CoveredRank();
    PathResolves(g, rank, 2, 2, true);
    PathResolves(g, rank, 3, 2, true);
    assert !IsLink(At(g, 2)) && !IsLink(At(g, 3)) && At(g, 3).mountpoint == 4;
    assert Resolve(g, 2, [], true, 0).n == 0;
    hide TreeOk, Visible, Resolve, PathOf;
    UpFromRoot(g, rank, 2);
  }

  lemma CoveredOk()
    ensures TreeOk(Covered(), CoveredRank())
  {
    CoveredOkAt(1);
    CoveredOkAt(2);
    CoveredOkAt(3);
    CoveredOkAt(4);
    hide ChildOk, ChildrenOk, MountOk;
    var g, rank := Covered(), CoveredRank();
    assert forall n :: n in g.nodes ==> n == 1 || n == 2 || n == 3 || n == 4;
  }

  lemma CoveredOkAt(n: nat)
    requires 1 <= n <= 4
    ensures ChildOk(Covered(), n) && ChildrenOk(Covered(), n) && MountOk(Covered(), n)
  {
    hide NameOk;
    DevOk();
  }

  lemma DevOk()
    ensures NameOk("dev")
  {
  }

  lemma CoveredNames()
    requires TreeOk(Covered(), CoveredRank())
    ensures Visible(Covered(), CoveredRank(), 2) && PathOf(Covered(), CoveredRank(), 2) == []
    ensures Visible(Covered(), CoveredRank(), 3) && PathOf(Covered(), CoveredRank(), 3) == "/dev"
  {
    hide TreeOk;
    var g, rank := Covered(), CoveredRank();
    assert Base(g, 2) == 1 && Base(g, 3) == 4 && At(g, 4).parent == 2;
    assert Names(g, rank, 2) == [] && Names(g, rank, 3) == ["dev"];
    assert ["dev"][1..] == [] && Flat(["dev"]) == "/dev" + [];
  }

  function CoveredRank(): map<nat, nat> { map[1 := 0, 2 := 1, 3 := 3, 4 := 2] }

  function Covered(): Tree {
    Tree(1, map[1 := Vnode([], Dir, 0, [3], 2, 0), 2 := Vnode([], Dir, 0, [4], 0, 1),
                3 := Vnode("dev", Dir, 1, [], 0, 4), 4 := Vnode("dev", Dir, 2, [], 3, 0)])
  }

  lemma SkipOne(p: Path, q: Path)
    requires p != [] && p[0] == '/' && p[1..] == q && Skip(q) == q
    ensures Skip(p) == q
  {
  }

  lemma ParentLeadsTo(g: Tree, rank: map<nat, nat>, n: nat)
    requires TreeOk(g, rank) && n in g.nodes && Visible(g, rank, n) && Base(g, n) != g.root
    ensures At(g, Base(g, n)).parent in g.nodes && At(g, Base(g, n)).parent != 0
    ensures Names(g, rank, n) != [] && NameOk(Names(g, rank, n)[0])
    ensures WalkParent(g, RootOf(g), Spell(Names(g, rank, n)), 0)
            == Walk(At(g, Base(g, n)).parent, At(g, Base(g, n)).name, 0)
  {
    BaseRank(g, rank, n);
    FoundInParent(g, rank, n);
    var p, cs := At(g, Base(g, n)).parent, Names(g, rank, n);
    NamesLeadBack(g, rank, n);
    NamesLeadBack(g, rank, p);
    assert cs[..|cs| - 1] == Names(g, rank, p) && cs[|cs| - 1] == At(g, Base(g, n)).name;
    hide Names, Visible;
    WalkSpell(g, RootOf(g), cs, 0);
  }

  /** vfs_path_of: the path is built backwards in a buffer of its own, then copied with its end mark. It
      fails exactly when one of the two buffers is too short. */
  method PrintPath(g: Tree, ghost rank: map<nat, nat>, n0: nat, buf: array<char>) returns (ok: bool)
    requires TreeOk(g, rank) && n0 in g.nodes
    modifies buf
    ensures ok <==> |PathOf(g, rank, n0)| < buf.Length && (n0 == g.root || |PathOf(g, rank, n0)| < PATH_MAX)
    ensures ok ==> buf[..|PathOf(g, rank, n0)| + 1] == PathOf(g, rank, n0) + ['\0']
  {
    hide Names, Flat, TreeOk;
    if n0 == g.root {
      if buf.Length < 2 { return false; }
      buf[0], buf[1] := '/', '\0';
      assert buf[..2] == "/" + ['\0'];
      return true;
    }
    var tmp := new char[PATH_MAX];
    var pos := PATH_MAX - 1;
    ghost var whole := Flat(Names(g, rank, n0));
    var n := n0;
    assert whole == Flat(Names(g, rank, n)) + [];
    while true
      invariant n in g.nodes && 0 <= pos < PATH_MAX && whole == Flat(Names(g, rank, n)) + tmp[pos..PATH_MAX - 1]
      decreases RankOf(rank, n)
    {
      var m := Base(g, n);
      if At(g, m).parent == 0 {
        RootNames(g, rank, n);
        break;
      }
      NamesStep(g, rank, n);
      var name := At(g, m).name;
      if pos < |name| + 1 { return false; }
      ghost var tail := tmp[pos..PATH_MAX - 1];
      Prepend(tmp, pos, name);
      pos := pos - |name| - 1;
      Regroup(Flat(Names(g, rank, At(g, m).parent)), name, tail);
      n := At(g, m).parent;
    }
    assert whole == tmp[pos..PATH_MAX - 1];
    var l := PATH_MAX - 1 - pos;
    if l + 1 > buf.Length { return false; }
    CopyOut(tmp, pos, buf, l);
    return true;
  }

  method CopyOut(tmp: array<char>, pos: nat, buf: array<char>, l: nat)
    requires pos + l <= tmp.Length && l < buf.Length && tmp != buf
    modifies buf
    ensures buf[..l + 1] == tmp[pos..pos + l] + ['\0']
  {
    for i := 0 to l
      invariant forall k :: 0 <= k < i ==> buf[k] == tmp[pos + k]
    {
      buf[i] := tmp[pos + i];
    }
    buf[l] := '\0';
  }

  lemma Regroup(a: Path, name: Path, tail: Path)
    ensures (a + "/" + name) + tail == a + ("/" + name + tail)
  {
  }

  method Prepend(tmp: array<char>, pos: nat, name: Path)
    requires pos <= tmp.Length - 1 && |name| + 1 <= pos
    modifies tmp
    ensures tmp[pos - |name| - 1..tmp.Length - 1] == "/" + name + old(tmp[pos..tmp.Length - 1])
  {
    for i := 0 to |name|
      invariant forall k :: 0 <= k < tmp.Length ==>
                  tmp[k] == if pos - |name| <= k < pos - |name| + i then name[k - (pos - |name|)] else old(tmp[k])
    {
      tmp[pos - |name| + i] := name[i];
    }
    tmp[pos - |name| - 1] := '/';
  }

  ghost function RankOf(rank: map<nat, nat>, n: nat): nat { if n in rank then rank[n] else 0 }

  lemma RootNames(g: Tree, rank: map<nat, nat>, n: nat)
    requires TreeOk(g, rank) && n in g.nodes && At(g, Base(g, n)).parent == 0
    ensures Base(g, n) == g.root && Flat(Names(g, rank, n)) == []
  {
    BaseRank(g, rank, n);
  }

  lemma NamesStep(g: Tree, rank: map<nat, nat>, n: nat)
    requires TreeOk(g, rank) && n in g.nodes && At(g, Base(g, n)).parent != 0
    ensures At(g, Base(g, n)).parent in g.nodes && RankOf(rank, At(g, Base(g, n)).parent) < RankOf(rank, n)
    ensures Flat(Names(g, rank, n)) == Flat(Names(g, rank, At(g, Base(g, n)).parent)) + "/" + At(g, Base(g, n)).name
  {
    BaseRank(g, rank, n);
    assert Base(g, n) != g.root;
    FlatLast(Names(g, rank, At(g, Base(g, n)).parent), At(g, Base(g, n)).name);
  }
}
