/** What a path means: POSIX pathname resolution, which replaces a symbolic link by the components of its target,
    is what the recursive lookup computes (kernel/fs/vfs.c:71-156). */
module VfsMeaning {
  import opened Vfs

  /** The components of a path, without the slashes. */
  function Comps(p: Path): (cs: seq<Path>)
    decreases |p|
  {
    if p == [] then []
    else if p[0] == '/' then Comps(p[1..])
    else [p[..SegLen(p)]] + Comps(p[SegLen(p)..])
  }

  /** Pathname resolution by substitution: from a directory along the components; a link, unless it is the
      last and not to be followed, gives way to the components of its target, which count from the directory
      it is in or from the root. At most 16 links. */
  function Look(g: Tree, dir: nat, cs: seq<Path>, followLast: bool, depth: nat): (w: Walk)
    ensures w.depth >= depth
    decreases LinksLeft(depth), |cs|
  {
    if cs == [] then Walk(dir, [], depth)
    else if At(g, dir).kind != Dir then Walk(0, [], depth)
    else
      var n := DirFind(g, dir, cs[0]);
      if n == 0 then Walk(0, [], depth)
      else if !IsLink(At(g, n)) || (|cs| == 1 && !followLast) then Look(g, n, cs[1..], followLast, depth)
      else if depth + 1 > SYMLOOP_MAX || At(g, n).kind.BrokenLink? || At(g, n).kind.target == [] then Walk(0, [], depth)
      else
        var target := At(g, n).kind.target;
        Look(g, Start(g, dir, target), Comps(target) + cs[1..], followLast, depth + 1)
  }

  /** Both fail, or both find the same vnode after the same number of links. */
  predicate Agree(a: Walk, b: Walk) { a.n == b.n && (a.n != 0 ==> a.depth == b.depth) }

  /** Resolving in two parts: the components `a`, then `b` from where they lead. */
  lemma {:induction false} LookAppend(g: Tree, dir: nat, a: seq<Path>, b: seq<Path>, f: bool, depth: nat)
    requires (b != [] || f) && dir != 0 && RootOf(g) != 0
    ensures var w := Look(g, dir, a, true, depth);
            Agree(Look(g, dir, a + b, f, depth), if w.n == 0 then w else Look(g, w.n, b, f, w.depth))
    decreases LinksLeft(depth), |a|
  {
    if a == [] {
      assert a + b == b;
    } else {
      assert (a + b)[0] == a[0] && (a + b)[1..] == a[1..] + b;
      if At(g, dir).kind == Dir && DirFind(g, dir, a[0]) != 0 {
        var n := DirFind(g, dir, a[0]);
        if !IsLink(At(g, n)) {
          LookAppend(g, n, a[1..], b, f, depth);
        } else if depth + 1 <= SYMLOOP_MAX && At(g, n).kind.Link? && At(g, n).kind.target != [] {
          var t := At(g, n).kind.target;
          assert Comps(t) + (a[1..] + b) == (Comps(t) + a[1..]) + b;
          LookAppend(g, Start(g, dir, t), Comps(t) + a[1..], b, f, depth + 1);
        }
      }
    }
  }

  /** The paths of links may start at the root, which is a directory. */
  predicate RootOk(g: Tree) { RootOf(g) != 0 && At(g, RootOf(g)).kind == Dir }

  // ---- the lookup computes it ----------------------------------------------------------------------

  lemma {:induction false} CompsSkip(p: Path)
    ensures Comps(Skip(p)) == Comps(p)
    ensures Skip(p) == [] || Skip(p)[0] != '/'
  {
    if p != [] && p[0] == '/' { CompsSkip(p[1..]); }
  }

  /** A path without a slash in front: its first component and those of the rest. */
  lemma {:induction false} CompsRest(p: Path)
    requires p != [] && p[0] != '/'
    ensures Comps(p) == [p[..SegLen(p)]] + Comps(Rest(p)) && SegLen(p) > 0
    ensures Rest(p) == [] || Rest(p)[0] != '/'
  {
    CompsSkip(p[SegLen(p)..]);
  }

  /** Resolving a whole path is resolution by substitution. */
  lemma {:induction false} ResolveLooks(g: Tree, cwd: nat, path: Path, f: bool, depth: nat)
    requires RootOk(g) && path != []
    ensures Agree(Resolve(g, cwd, path, f, depth), Look(g, Start(g, cwd, path), Comps(path), f, depth))
    decreases LinksLeft(depth), |path| + 1, 2
  {
    CompsSkip(path);
    var dir, p := Start(g, cwd, path), Skip(path);
    WalkLooks(g, dir, p, f, depth);
    var w := WalkParent(g, dir, p, depth);
    if w.n != 0 && w.last != [] && At(g, w.n).kind == Dir {
      LastLooks(g, w, f);
    }
  }

  /** The last component, from the directory it is looked up in. */
  lemma {:induction false} LastLooks(g: Tree, w: Walk, f: bool)
    requires RootOk(g) && w.n != 0 && w.last != [] && At(g, w.n).kind == Dir
    ensures var n := DirFind(g, w.n, w.last);
            Agree(if f then Follow(g, w.n, n, w.depth) else Walk(n, [], w.depth), Look(g, w.n, [w.last], f, w.depth))
    decreases LinksLeft(w.depth), 1, 0
  {
    var n := DirFind(g, w.n, w.last);
    assert [w.last][1..] == [];
    if f && n != 0 && At(g, n).kind.Link? && At(g, n).kind.target != [] && w.depth + 1 <= SYMLOOP_MAX {
      FollowLooks(g, w.n, n, w.depth);
      var t := At(g, n).kind.target;
      assert Comps(t) + [w.last][1..] == Comps(t);
    }
  }

  /** Where a link leads. */
  lemma {:induction false} FollowLooks(g: Tree, dir: nat, n: nat, depth: nat)
    requires RootOk(g) && dir != 0 && n != 0 && At(g, n).kind.Link? && At(g, n).kind.target != []
    requires depth + 1 <= SYMLOOP_MAX
    ensures var t := At(g, n).kind.target;
            Agree(Follow(g, dir, n, depth), Look(g, Start(g, dir, t), Comps(t), true, depth + 1))
    decreases LinksLeft(depth), 0, 1
  {
    var t := At(g, n).kind.target;
    ResolveLooks(g, dir, t, true, depth + 1);
    ResolveOutside(g, dir, t, depth + 1);
  }

  /** All components but the last. */
  lemma {:induction false} WalkLooks(g: Tree, dir: nat, path: Path, f: bool, depth: nat)
    requires RootOk(g) && dir != 0 && (path == [] || path[0] != '/')
    ensures var w := WalkParent(g, dir, path, depth);
            Agree(Look(g, dir, Comps(path), f, depth),
                  if w.n == 0 || w.last == [] then w else Look(g, w.n, [w.last], f, w.depth))
    decreases LinksLeft(depth), |path| + 1, 1
  {
    if path != [] {
      CompsRest(path);
      var seg, rest := path[..SegLen(path)], Rest(path);
      var cs := Comps(path);
      assert cs[0] == seg && cs[1..] == Comps(rest);
      if rest == [] {
        assert cs == [seg];
      } else if At(g, dir).kind == Dir {
        CompsRest(rest);
        FirstLooks(g, dir, cs, f, depth);
        var w := Follow(g, dir, DirFind(g, dir, seg), depth);
        hide Look, Follow, Comps, Rest, SegLen;
        if w.n != 0 { WalkLooks(g, w.n, rest, f, w.depth); }
      }
    }
  }

  /** The first component of several. */
  lemma {:induction false} FirstLooks(g: Tree, dir: nat, cs: seq<Path>, f: bool, depth: nat)
    requires RootOk(g) && dir != 0 && |cs| > 1 && At(g, dir).kind == Dir
    ensures var w := Follow(g, dir, DirFind(g, dir, cs[0]), depth);
            Agree(Look(g, dir, cs, f, depth), if w.n == 0 then w else Look(g, w.n, cs[1..], f, w.depth))
    decreases LinksLeft(depth), 1, 0
  {
    var n := DirFind(g, dir, cs[0]);
    if n != 0 && At(g, n).kind.Link? && At(g, n).kind.target != [] && depth + 1 <= SYMLOOP_MAX {
      var t := At(g, n).kind.target;
      FollowLooks(g, dir, n, depth);
      LookAppend(g, Start(g, dir, t), Comps(t), cs[1..], f, depth + 1);
    }
  }

  /** What a following lookup finds is no link. */
  lemma {:induction false} ResolveOutside(g: Tree, dir: nat, path: Path, depth: nat)
    requires RootOk(g) && path != [] && dir != 0
    ensures Resolve(g, dir, path, true, depth).n == 0 || !IsLink(At(g, Resolve(g, dir, path, true, depth).n))
  {
    CompsSkip(path);
    var w := WalkParent(g, Start(g, dir, path), Skip(path), depth);
    if Skip(path) == [] {
      assert path[0] == '/';
    } else {
      LastNamed(g, Start(g, dir, path), Skip(path), depth);
      if w.n != 0 { FollowEndsOutside(g, w.n, DirFind(g, w.n, w.last), w.depth); }
    }
  }

  lemma {:induction false} LastNamed(g: Tree, dir: nat, path: Path, depth: nat)
    requires path != [] && path[0] != '/'
    ensures WalkParent(g, dir, path, depth).n != 0 ==> WalkParent(g, dir, path, depth).last != []
    decreases |path|
  {
    CompsRest(path);
    var rest := Rest(path);
    if rest != [] && At(g, dir).kind == Dir {
      var w := Follow(g, dir, DirFind(g, dir, path[..SegLen(path)]), depth);
      if w.n != 0 { LastNamed(g, w.n, rest, w.depth); }
    }
  }

  // ---- what links and ".." mean ---------------------------------------------------------------------

  /** A component: not empty, without slashes. */
  predicate Plain(c: Path) { c != [] && forall k :: 0 <= k < |c| ==> c[k] != '/' }

  /** Splitting undoes joining. */
  lemma {:induction false} CompsFlat(cs: seq<Path>, p: Path)
    requires (forall i :: 0 <= i < |cs| ==> Plain(cs[i])) && (p == [] || p[0] == '/')
    ensures Comps(Flat(cs) + p) == cs + Comps(p)
  {
    if cs == [] {
      assert Flat(cs) + p == p;
    } else {
      hide Comps, Plain;
      FlatFirst(cs, p);
      hide Flat;
      CompsFlat(cs[1..], p);
      CompsOne(cs[0], Flat(cs[1..]) + p);
      Behind(cs, Comps(p));
    }
  }

  lemma {:induction false} FlatFirst(cs: seq<Path>, p: Path)
    requires cs != [] && (p == [] || p[0] == '/')
    ensures var rest := Flat(cs[1..]) + p;
            Flat(cs) + p == "/" + (cs[0] + rest) && (rest == [] || rest[0] == '/')
  {
    var f := Flat(cs[1..]);
    assert f == [] || f[0] == '/';
    assert Flat(cs) == "/" + cs[0] + f;
    hide Flat;
    assert "/" + cs[0] + f + p == "/" + (cs[0] + (f + p));
  }

  lemma Behind(cs: seq<Path>, ds: seq<Path>)
    requires cs != []
    ensures [cs[0]] + (cs[1..] + ds) == cs + ds
  {
  }

  lemma {:induction false} CompsOne(c: Path, rest: Path)
    requires Plain(c) && (rest == [] || rest[0] == '/')
    ensures Comps("/" + (c + rest)) == [c] + Comps(rest)
  {
    assert ("/" + (c + rest))[1..] == c + rest;
    SegOf(c, rest);
  }

  lemma RootIsOk(g: Tree, rank: map<nat, nat>)
    requires TreeOk(g, rank)
    ensures RootOk(g)
  {
    assert MountOk(g, g.root);
    if RootCovered(g) { assert MountOk(g, At(g, g.root).mounted); }
  }

  /** A list of names that leads through directories, and then any components. */
  lemma {:induction false} LookDescends(g: Tree, dir: nat, cs: seq<Path>, b: seq<Path>, f: bool, depth: nat)
    requires DirsOn(g, dir, cs)
    ensures Look(g, dir, cs + b, f, depth) == Look(g, Descend(g, dir, cs), b, f, depth)
    decreases |cs|
  {
    if cs == [] {
      assert cs + b == b;
    } else {
      assert (cs + b)[0] == cs[0] && (cs + b)[1..] == cs[1..] + b;
      LookDescends(g, DirFind(g, dir, cs[0]), cs[1..], b, f, depth);
    }
  }

  /** A path that begins with that of a visible directory goes on from the directory. */
  lemma {:induction false} PathOn(g: Tree, rank: map<nat, nat>, d: nat, p: Path, cwd: nat, f: bool)
    requires TreeOk(g, rank) && d in g.nodes && Visible(g, rank, d) && At(g, d).kind == Dir
    ensures Agree(Resolve(g, cwd, PathOf(g, rank, d) + "/" + p, f, 0), Look(g, d, Comps(p), f, 0))
  {
    RootIsOk(g, rank);
    NamesLeadBack(g, rank, d);
    var path, cs := PathOf(g, rank, d) + "/" + p, Names(g, rank, d);
    assert path[0] == '/' && Comps(path) == cs + Comps(p) by { PathComps(g, rank, d, p); }
    hide Resolve, Look, Names, PathOf, TreeOk, Visible;
    ResolveLooks(g, cwd, path, f, 0);
    LookDescends(g, RootOf(g), cs, Comps(p), f, 0);
  }

  lemma {:induction false} PathComps(g: Tree, rank: map<nat, nat>, d: nat, p: Path)
    requires TreeOk(g, rank) && d in g.nodes && Visible(g, rank, d)
    ensures var path := PathOf(g, rank, d) + "/" + p;
            path[0] == '/' && Comps(path) == Names(g, rank, d) + Comps(p)
  {
    hide Visible, TreeOk, NameOk;
    NamesLeadBack(g, rank, d);
    var cs := Names(g, rank, d);
    if d == g.root {
      hide Names, PathOf;
      RootPath(g, rank);
      RootComps(p);
    } else {
      hide Names;
      NamesPlain(cs);
      hide Flat, Comps;
      FlatComps(cs, p);
    }
  }

  lemma RootPath(g: Tree, rank: map<nat, nat>)
    requires TreeOk(g, rank) && g.root in g.nodes
    ensures Names(g, rank, g.root) == [] && PathOf(g, rank, g.root) == "/"
  {
  }

  lemma RootComps(p: Path)
    ensures ("/" + "/" + p)[0] == '/' && Comps("/" + "/" + p) == Comps(p)
  {
    assert ("/" + "/" + p)[1..] == "/" + p && ("/" + p)[1..] == p;
  }

  lemma NamesPlain(cs: seq<Path>)
    requires forall i :: 0 <= i < |cs| ==> NameOk(cs[i])
    ensures forall i :: 0 <= i < |cs| ==> Plain(cs[i])
  {
  }

  lemma FlatComps(cs: seq<Path>, p: Path)
    requires forall i :: 0 <= i < |cs| ==> Plain(cs[i])
    ensures (Flat(cs) + "/" + p)[0] == '/' && Comps(Flat(cs) + "/" + p) == cs + Comps(p)
  {
    assert Flat(cs) == [] || Flat(cs)[0] == '/';
    hide Flat, Plain;
    CompsFlat(cs, "/" + p);
    assert Flat(cs) + ("/" + p) == Flat(cs) + "/" + p;
    assert ("/" + p)[1..] == p;
  }

  /** One link more on the way costs one of the sixteen, and changes nothing else. */
  lemma {:induction false} LookShift(g: Tree, dir: nat, cs: seq<Path>, f: bool, depth: nat)
    requires depth < SYMLOOP_MAX
    ensures var a, b := Look(g, dir, cs, f, depth), Look(g, dir, cs, f, depth + 1);
            if a.n != 0 && a.depth < SYMLOOP_MAX then b.n == a.n && b.depth == a.depth + 1 else b.n == 0
    decreases LinksLeft(depth), |cs|
  {
    if cs != [] && At(g, dir).kind == Dir && DirFind(g, dir, cs[0]) != 0 {
      var n := DirFind(g, dir, cs[0]);
      if !IsLink(At(g, n)) || (|cs| == 1 && !f) {
        LookShift(g, n, cs[1..], f, depth);
      } else if depth + 1 < SYMLOOP_MAX && At(g, n).kind.Link? && At(g, n).kind.target != [] {
        var t := At(g, n).kind.target;
        LookShift(g, Start(g, dir, t), Comps(t) + cs[1..], f, depth + 1);
      }
    }
  }

  /** Where a visible symbolic link leads: following its path gives what its target gives, a relative one counted
      from the directory that holds the link, if sixteen links are enough for one more. */
  lemma {:induction false} LinkLeads(g: Tree, rank: map<nat, nat>, n: nat, d: nat, target: Path, cwd: nat)
    requires TreeOk(g, rank) && n in g.nodes && Visible(g, rank, n) && d in g.nodes
    requires At(g, n).kind == Link(target) && target != [] && At(g, Base(g, n)).parent == d
    ensures var w := Resolve(g, cwd, if target[0] == '/' then target else PathOf(g, rank, d) + "/" + target, true, 0);
            Resolve(g, cwd, PathOf(g, rank, n), true, 0).n == if w.depth < 16 then w.n else 0
  {
    hide TreeOk, Visible, PathOf, Comps, Resolve, DirFind, Start, NameOk;
    LinkPlace(g, rank, n);
    var name := At(g, Base(g, n)).name;
    NodePath(g, rank, n, d, name, cwd, true);
    TargetLook(g, rank, d, target, cwd);
    LinkLook(g, d, n, name);
    hide Look;
    LookShift(g, Start(g, d, target), Comps(target), true, 0);
  }

  lemma {:induction false} LinkLook(g: Tree, d: nat, n: nat, name: Path)
    requires At(g, d).kind == Dir && DirFind(g, d, name) == n != 0 && At(g, n).kind.Link? && At(g, n).kind.target != []
    ensures var t := At(g, n).kind.target;
            Look(g, d, [name], true, 0) == Look(g, Start(g, d, t), Comps(t), true, 1)
  {
    hide DirFind, Start, Comps;
    var t := At(g, n).kind.target;
    assert [name][1..] == [] && Comps(t) + [] == Comps(t);
  }

  lemma {:induction false} TargetLook(g: Tree, rank: map<nat, nat>, d: nat, t: Path, cwd: nat)
    requires TreeOk(g, rank) && d in g.nodes && d != 0 && Visible(g, rank, d) && At(g, d).kind == Dir && t != []
    ensures Agree(Resolve(g, cwd, if t[0] == '/' then t else PathOf(g, rank, d) + "/" + t, true, 0),
                  Look(g, Start(g, d, t), Comps(t), true, 0))
  {
    RootIsOk(g, rank);
    hide Look, TreeOk, Visible, PathOf, Comps, Resolve;
    if t[0] == '/' { ResolveLooks(g, cwd, t, true, 0); } else { PathOn(g, rank, d, t, cwd, true); }
  }

  /** A link is not the root; it is in a visible directory, under its name. */
  lemma LinkPlace(g: Tree, rank: map<nat, nat>, n: nat)
    requires TreeOk(g, rank) && n in g.nodes && Visible(g, rank, n) && At(g, n).kind.Link?
    ensures Base(g, n) in g.nodes && Base(g, n) != g.root
    ensures var d := At(g, Base(g, n)).parent;
            && d in g.nodes && d != 0 && Visible(g, rank, d) && At(g, d).kind == Dir
            && DirFind(g, d, At(g, Base(g, n)).name) == n && NameOk(At(g, Base(g, n)).name) && n != 0 && n != g.root
  {
    BaseRank(g, rank, n);
    if Base(g, n) == g.root { RootLeadsBack(g, rank, n); RootIsOk(g, rank); }
    FoundInParent(g, rank, n);
  }

  /** The path of a vnode below the root: its name in its directory. */
  lemma {:induction false} NodePath(g: Tree, rank: map<nat, nat>, n: nat, d: nat, name: Path, cwd: nat, f: bool)
    requires TreeOk(g, rank) && n in g.nodes && Base(g, n) in g.nodes && Base(g, n) != g.root && n != g.root
    requires d == At(g, Base(g, n)).parent && name == At(g, Base(g, n)).name && NameOk(name)
    requires d in g.nodes && Visible(g, rank, d) && At(g, d).kind == Dir
    ensures Agree(Resolve(g, cwd, PathOf(g, rank, n), f, 0), Look(g, d, [name], f, 0))
  {
    RootIsOk(g, rank);
    NamesLeadBack(g, rank, d);
    var cs := Names(g, rank, d);
    assert Names(g, rank, n) == cs + [name];
    hide TreeOk, Visible, Names, Resolve, Look, NameOk;
    FlatNames(cs, name);
    var path := PathOf(g, rank, n);
    assert path == Flat(cs + [name]);
    hide PathOf, Flat, Comps;
    ResolveLooks(g, cwd, path, f, 0);
    LookDescends(g, RootOf(g), cs, [name], f, 0);
  }

  lemma {:induction false} FlatNames(cs: seq<Path>, name: Path)
    requires NameOk(name) && forall i :: 0 <= i < |cs| ==> NameOk(cs[i])
    ensures Flat(cs + [name]) != [] && Flat(cs + [name])[0] == '/' && Comps(Flat(cs + [name])) == cs + [name]
  {
    CompsFlat(cs + [name], []);
    assert Flat(cs + [name]) + [] == Flat(cs + [name]);
  }

  /** ".." from a visible directory below the root leads to the directory it is in, through the mount if it is
      the root of a mounted filesystem. */
  lemma {:induction false} UpLeads(g: Tree, rank: map<nat, nat>, n: nat, cwd: nat)
    requires TreeOk(g, rank) && n in g.nodes && Visible(g, rank, n) && At(g, n).kind == Dir && Base(g, n) != g.root
    ensures Resolve(g, cwd, PathOf(g, rank, n) + "/..", true, 0) == Walk(At(g, Base(g, n)).parent, [], 0)
    ensures At(g, Base(g, n)).parent in g.nodes && Visible(g, rank, At(g, Base(g, n)).parent)
  {
    var d := At(g, Base(g, n)).parent;
    UpFound(g, rank, n);
    hide TreeOk, Visible, PathOf, Resolve, DirFind, Comps;
    PathOn(g, rank, n, "..", cwd, true);
    DotsAlone();
    assert PathOf(g, rank, n) + "/" + ".." == PathOf(g, rank, n) + "/..";
    assert [".."][1..] == [];
    assert Look(g, n, [".."], true, 0) == Walk(d, [], 0);
    ResolveLast(g, cwd, PathOf(g, rank, n) + "/..", true, 0);
  }

  lemma UpFound(g: Tree, rank: map<nat, nat>, n: nat)
    requires TreeOk(g, rank) && n in g.nodes && Visible(g, rank, n) && Base(g, n) != g.root
    ensures var d := At(g, Base(g, n)).parent;
            d != 0 && d in g.nodes && Visible(g, rank, d) && At(g, d).kind == Dir && DirFind(g, n, "..") == d
  {
    BaseRank(g, rank, n);
    FoundInParent(g, rank, n);
  }

  /** A single dot leads nowhere else. */
  lemma {:induction false} DotLeads(g: Tree, rank: map<nat, nat>, n: nat, cwd: nat)
    requires TreeOk(g, rank) && n in g.nodes && Visible(g, rank, n) && At(g, n).kind == Dir
    ensures Resolve(g, cwd, PathOf(g, rank, n) + "/.", true, 0) == Walk(n, [], 0)
  {
    DotFound(g, rank, n);
    hide TreeOk, Visible, PathOf, Resolve, DirFind, Comps;
    PathOn(g, rank, n, ".", cwd, true);
    DotAlone();
    assert PathOf(g, rank, n) + "/" + "." == PathOf(g, rank, n) + "/.";
    assert ["."][1..] == [];
    assert Look(g, n, ["."], true, 0) == Walk(n, [], 0);
    ResolveLast(g, cwd, PathOf(g, rank, n) + "/.", true, 0);
  }

  lemma DotFound(g: Tree, rank: map<nat, nat>, n: nat)
    requires TreeOk(g, rank) && n in g.nodes
    ensures n != 0 && DirFind(g, n, ".") == n
  {
  }

  lemma DotAlone()
    ensures Comps(".") == ["."]
  {
    SegOf(".", []);
    assert "." + [] == ".";
  }

  lemma DotsAlone()
    ensures Comps("..") == [".."]
  {
    SegOf("..", []);
    assert ".." + [] == "..";
  }

  /** A finished lookup has no component left. */
  lemma {:induction false} ResolveLast(g: Tree, cwd: nat, path: Path, f: bool, depth: nat)
    ensures Resolve(g, cwd, path, f, depth).n != 0 ==> Resolve(g, cwd, path, f, depth).last == []
  {
    hide WalkParent;
    if path != [] {
      var w := WalkParent(g, Start(g, cwd, path), Skip(path), depth);
      if w.n != 0 && w.last != [] { FollowLast(g, w.n, DirFind(g, w.n, w.last), w.depth); }
    }
  }

  lemma {:induction false} FollowLast(g: Tree, dir: nat, n: nat, depth: nat)
    ensures Follow(g, dir, n, depth).n != 0 ==> Follow(g, dir, n, depth).last == []
    decreases LinksLeft(depth)
  {
    hide Resolve;
    if n != 0 && At(g, n).kind.Link? && depth + 1 <= SYMLOOP_MAX {
      var w := Resolve(g, dir, At(g, n).kind.target, true, depth + 1);
      if w.n != 0 { FollowLast(g, dir, w.n, w.depth); }
    }
  }
}
