/** How long a file lives (kernel/fs/zaefs.c:355-373, 636-673): over every history of names given and taken and
    of vnodes coming and going, until neither a name nor a vnode is left, and no longer. */
module ZaefsNames {
  import opened ZaefsBytes
  import opened ZaefsTree
  import opened ZaefsFs

  datatype NameOp = Named | Unnamed | Opened | Closed

  function Count(ops: seq<NameOp>, op: NameOp): nat { multiset(ops)[op] }

  /** What is left of the names and the vnodes after a history. */
  function Names(links: nat, ops: seq<NameOp>): int { links + Count(ops, Named) - Count(ops, Unnamed) }

  function Vnodes(refs: nat, ops: seq<NameOp>): int { refs + Count(ops, Opened) - Count(ops, Closed) }

  /** Every step is taken by a vnode, and only a name there is gets taken away. */
  ghost predicate Possible(links: nat, refs: nat, ops: seq<NameOp>) {
    forall i :: 0 <= i < |ops| ==>
      Vnodes(refs, ops[..i]) > 0 && (ops[i].Unnamed? ==> Names(links, ops[..i]) > 0)
  }

  /** The file is as it was in `d0`, `i0`, with this many names. */
  ghost predicate Unharmed(d0: seq<Block>, di: Inode, d: seq<Block>, di': Inode, links: int) {
    di' == di.(links := di'.links) && di'.links == links && File(d, di') == File(d0, di)
  }

  lemma CountMore(ops: seq<NameOp>, i: nat, op: NameOp)
    requires i < |ops|
    ensures Count(ops[..i + 1], op) == Count(ops[..i], op) + if ops[i] == op then 1 else 0
  {
    assert ops[..i + 1] == ops[..i] + [ops[i]];
  }

  function Named1(op: NameOp): int { if op.Named? then 1 else if op.Unnamed? then -1 else 0 }

  function Held1(op: NameOp): int { if op.Opened? then 1 else if op.Closed? then -1 else 0 }

  lemma TalliesMore(links: nat, refs: nat, ops: seq<NameOp>, i: nat)
    requires i < |ops|
    ensures Names(links, ops[..i + 1]) == Names(links, ops[..i]) + Named1(ops[i])
    ensures Vnodes(refs, ops[..i + 1]) == Vnodes(refs, ops[..i]) + Held1(ops[i])
  {
    CountMore(ops, i, Named);
    CountMore(ops, i, Unnamed);
    CountMore(ops, i, Opened);
    CountMore(ops, i, Closed);
  }

  lemma LinksKeepFile(disk: seq<Block>, di: Inode, links: nat)
    ensures File(disk, di.(links := links)) == File(disk, di)
  {
    hide ByteAt;
    MetaIs(di, links, di.size);
    forall p: nat ensures ByteAt(disk, di.(links := links), p) == ByteAt(disk, di, p) {
      MetaBytes(disk, di, links, di.size, p);
    }
  }

  /** What has become of the file `ino` of `d0`, `i0` and `own0`, with this many names and vnodes left: its inode
      is there exactly if one of them is, and then with its contents and its blocks; else all its blocks are free.
      No other file has changed. */
  ghost predicate Lived(fs: Zaefs, d0: seq<Block>, i0: map<nat, Inode>, own0: map<nat, Owner>, ino: nat, names: int,
                        vnodes: int)
    reads fs
  {
    && (ino in fs.held <==> vnodes > 0) && (vnodes > 0 ==> fs.held[ino].refs == vnodes)
    && (ino in fs.inodes <==> names > 0 || vnodes > 0)
    && ino in i0 && Others(d0, i0, fs.disk, fs.inodes[ino := i0[ino]], ino)
    && (ino in fs.inodes ==> fs.own == own0 && Unharmed(d0, i0[ino], fs.disk, fs.inodes[ino], names))
    && (ino !in fs.inodes ==> fs.own.Keys == own0.Keys - BlocksOf(own0, ino))
  }

  lemma OthersOn(d0: seq<Block>, i0: map<nat, Inode>, d1: seq<Block>, i1: map<nat, Inode>, d2: seq<Block>,
                 i2: map<nat, Inode>, ino: nat)
    requires ino in i0 && ino in i1 && Others(d0, i0, d1, i1[ino := i0[ino]], ino)
    requires Others(d1, i1, d2, i2[ino := i1[ino]], ino)
    ensures Others(d0, i0, d2, i2[ino := i0[ino]], ino)
  {
    hide File;
    assert i2[ino := i0[ino]].Keys == i2[ino := i1[ino]].Keys;
    assert i1[ino := i0[ino]].Keys == i1.Keys;
    forall j | j in i0 && j != ino ensures File(d2, i2[j]) == File(d0, i0[j]) && i2[j].links == i0[j].links {
      assert i1[ino := i0[ino]][j] == i1[j] && i2[ino := i1[ino]][j] == i2[j];
    }
  }

  /** Any history of one file. */
  method Replay(fs: Zaefs, ino: nat, ops: seq<NameOp>)
    requires fs.Valid() && ino in fs.held && ino in fs.inodes
    requires Possible(fs.inodes[ino].links, fs.held[ino].refs, ops)
    modifies fs
    ensures fs.Valid()
    ensures Lived(fs, old(fs.disk), old(fs.inodes), old(fs.own), ino, Names(old(fs.inodes[ino].links), ops),
                  Vnodes(old(fs.held[ino].refs), ops))
  {
    hide Lived, Zaefs.Valid, Names, Vnodes;
    ghost var l, r := fs.inodes[ino].links, fs.held[ino].refs;
    Untouched(fs, ino);
    assert ops[..0] == [];
    NoneYet(l, r);
    for i := 0 to |ops|
      invariant fs.Valid()
      invariant Lived(fs, old(fs.disk), old(fs.inodes), old(fs.own), ino, Names(l, ops[..i]), Vnodes(r, ops[..i]))
    {
      Step(fs, old(fs.disk), old(fs.inodes), old(fs.own), ino, ops[i], Names(l, ops[..i]), Vnodes(r, ops[..i]));
      TalliesMore(l, r, ops, i);
    }
    assert ops[..|ops|] == ops;
  }

  lemma NoneYet(links: nat, refs: nat)
    ensures Names(links, []) == links && Vnodes(refs, []) == refs
  {
  }

  lemma Untouched(fs: Zaefs, ino: nat)
    requires fs.Valid() && ino in fs.held
    ensures ino in fs.inodes
    ensures Lived(fs, fs.disk, fs.inodes, fs.own, ino, fs.inodes[ino].links, fs.held[ino].refs)
  {
    hide ByteAt, CacheOk, BlockBits, InodeBits, TreeOk, CountOk, TailsZero, GeoOk, BlocksOf;
    HeldRefs(fs.itable, fs.held, fs.inodes, ino);
  }

  method Step(fs: Zaefs, ghost d0: seq<Block>, ghost i0: map<nat, Inode>, ghost own0: map<nat, Owner>, ino: nat,
              op: NameOp, ghost names: int, ghost vnodes: int)
    requires fs.Valid() && Lived(fs, d0, i0, own0, ino, names, vnodes) && vnodes > 0 && (op.Unnamed? ==> names > 0)
    modifies fs
    ensures fs.Valid() && Lived(fs, d0, i0, own0, ino, names + Named1(op), vnodes + Held1(op))
  {
    hide Zaefs.Valid, Others, File, BlocksOf;
    ghost var was, di := fs.inodes, fs.inodes[ino];
    match op
    case Named =>
      fs.Link(ino);
      LinksKeepFile(fs.disk, di, fs.inodes[ino].links);
      assert fs.inodes[ino := i0[ino]] == was[ino := i0[ino]];
    case Unnamed =>
      fs.Unlink(ino);
      LinksKeepFile(fs.disk, di, fs.inodes[ino].links);
      assert fs.inodes[ino := i0[ino]] == was[ino := i0[ino]];
    case Opened =>
      fs.Get(ino);
    case Closed =>
      HeldIs(fs, ino);
      ghost var d := fs.disk;
      fs.Put(ino);
      OthersOn(d0, i0, d, was, fs.disk, fs.inodes, ino);
  }

  lemma HeldIs(fs: Zaefs, ino: nat)
    requires fs.Valid() && ino in fs.held
    ensures ino in fs.inodes && fs.held[ino].di == fs.inodes[ino]
  {
    hide CacheOk, BlockBits, InodeBits, TreeOk, CountOk, TailsZero, GeoOk;
  }

  /** A name given and taken again leaves everything as it was. */
  method LinkUnlink(fs: Zaefs, ino: nat)
    requires fs.Valid() && ino in fs.held
    modifies fs
    ensures fs.Valid() && fs.inodes == old(fs.inodes) && fs.own == old(fs.own) && fs.disk == old(fs.disk)
    ensures SameRefs(old(fs.held), fs.held)
  {
    hide Zaefs.Valid;
    fs.Link(ino);
    fs.Unlink(ino);
  }
}
