/** The FAT16/32 driver's table: a one-sector write-back cache over the copies of the FAT, cluster
    allocation, and chains looked up from a remembered place (kernel/fs/fat.c:122-272). */
module Fat {
  import opened Division
  import opened FatChains

  datatype Kind = Fat16 | Fat32

  /** A sector of the table, as raw entries. */
  type Sector = seq<nat>

  const NIBBLE: nat := 0x1000_0000

  function Decode(k: Kind, raw: nat): nat {
    match k
    case Fat16 => if raw >= 0xFFF8 then EOC else raw
    case Fat32 => if raw % NIBBLE >= EOC_MIN then EOC else raw % NIBBLE
  }

  /** A new value for an entry; on FAT32 the top four bits are kept. */
  function Encode(k: Kind, raw: nat, v: nat): nat {
    match k
    case Fat16 => v % 0x1_0000
    case Fat32 => raw / NIBBLE * NIBBLE + v % NIBBLE
  }

  /** The marker written at the end of a chain. */
  function EndMark(k: Kind): nat { if k.Fat16? then 0xFFFF else 0x0FFF_FFFF }

  /** Values that are free, reserved or a cluster number of the kind. */
  function Limit(k: Kind): nat { if k.Fat16? then 0xFFF8 else EOC_MIN }

  lemma DecodeEncode(k: Kind, raw: nat, v: nat)
    ensures v < Limit(k) ==> Decode(k, Encode(k, raw, v)) == v
    ensures Decode(k, Encode(k, raw, EndMark(k))) == EOC
  {
    if k.Fat32? { Low(raw / NIBBLE, v % NIBBLE); Low(raw / NIBBLE, EndMark(k) % NIBBLE); }
  }

  /** An entry ends a chain exactly if it is one of the eight values reserved for that, and otherwise is a number
      of as many bits as the kind has; the four high bits of a FAT32 entry say nothing. */
  lemma DecodeMeans(k: Kind, raw: nat)
    requires raw < if k.Fat16? then 0x1_0000 else 0x1_0000_0000
    ensures k.Fat16? ==> (IsEnd(Decode(k, raw)) <==> 0xFFF8 <= raw <= 0xFFFF)
    ensures k.Fat32? ==> (IsEnd(Decode(k, raw)) <==> 0x0FFF_FFF8 <= raw % 0x1000_0000 <= 0x0FFF_FFFF)
    ensures !IsEnd(Decode(k, raw)) ==> Decode(k, raw) == if k.Fat16? then raw else raw % 0x1000_0000
  {
  }

  /** A new value fills the low 16 or 28 bits; the four high bits of a FAT32 entry stay. */
  lemma EncodeKeepsHigh(k: Kind, raw: nat, v: nat)
    ensures k.Fat16? ==> Encode(k, raw, v) == v % 0x1_0000
    ensures k.Fat32? ==> Encode(k, raw, v) / 0x1000_0000 == raw / 0x1000_0000
    ensures k.Fat32? ==> Encode(k, raw, v) % 0x1000_0000 == v % 0x1000_0000
    ensures EndMark(k) == if k.Fat16? then 0xFFFF else 0x0FFF_FFFF
  {
    if k.Fat32? { Low(raw / NIBBLE, v % NIBBLE); }
  }

  lemma Low(q: nat, r: nat)
    requires r < NIBBLE
    ensures (q * NIBBLE + r) % NIBBLE == r
  {
  }

  // ---- the cache -------------------------------------------------------------------------------

  /** A sector as the driver sees it: the cached one if it is that, else the first copy's. */
  function SectorOf(fat: seq<Sector>, cached: int, cache: Sector, s: nat): Sector
    requires s < |fat|
  {
    if s == cached then cache else fat[s]
  }

  /** The raw entry of cluster `c`. */
  function EntryOf(per: nat, fat: seq<Sector>, cached: int, cache: Sector, c: nat): nat
    requires per > 0
  {
    if c / per < |fat| && c % per < |SectorOf(fat, cached, cache, c / per)|
    then SectorOf(fat, cached, cache, c / per)[c % per] else 0
  }

  predicate Shaped(per: nat, fat: seq<Sector>, cache: Sector) {
    per > 0 && |cache| == per && forall s :: 0 <= s < |fat| ==> |fat[s]| == per
  }

  /** `t` is the decoded table the driver sees. */
  ghost predicate TableIs(k: Kind, per: nat, fat: seq<Sector>, cached: int, cache: Sector, t: seq<nat>) {
    && Shaped(per, fat, cache)
    && forall c: nat :: c < |t| ==> c / per < |fat| && t[c] == Decode(k, EntryOf(per, fat, cached, cache, c))
  }

  /** Writing the cached sector back, or reading another one in when it is clean, changes nothing the
      driver sees. */
  lemma StoreSame(k: Kind, per: nat, fat: seq<Sector>, cached: nat, cache: Sector, t: seq<nat>)
    requires TableIs(k, per, fat, cached, cache, t) && cached < |fat|
    ensures TableIs(k, per, fat[cached := cache], cached, cache, t)
  {
    hide Decode;
  }

  lemma LoadSame(k: Kind, per: nat, fat: seq<Sector>, cached: int, cache: Sector, t: seq<nat>, s: nat)
    requires TableIs(k, per, fat, cached, cache, t) && s < |fat| && (0 <= cached < |fat| ==> fat[cached] == cache)
    ensures TableIs(k, per, fat, s, fat[s], t)
  {
    hide Decode;
  }

  /** Changing one entry of the cached sector changes one entry of the table. */
  lemma PutEntry(k: Kind, per: nat, fat: seq<Sector>, cached: nat, cache: Sector, t: seq<nat>, c: nat, raw: nat)
    requires TableIs(k, per, fat, cached, cache, t) && c < |t| && cached == c / per
    ensures c % per < per && TableIs(k, per, fat, cached, cache[c % per := raw], t[c := Decode(k, raw)])
  {
    hide Decode;
    var t', cache' := t[c := Decode(k, raw)], cache[c % per := raw];
    forall d: nat | d < |t'| ensures d / per < |fat| && t'[d] == Decode(k, EntryOf(per, fat, cached, cache', d)) {
      if d != c && d / per == c / per { SameSlot(per, c, d); }
    }
  }

  lemma SameSlot(per: nat, c: nat, d: nat)
    requires per > 0 && c / per == d / per && c != d
    ensures c % per != d % per
  {
    assert c == per * (c / per) + c % per && d == per * (d / per) + d % per;
  }

  // ---- the driver ------------------------------------------------------------------------------

  class FatFs {
    const kind: Kind
    const per: nat
    const clusters: nat
    /** The copies of the table on disk, and the cached sector (-1 for none). */
    var copies: seq<seq<Sector>>
    var cached: int
    var cache: Sector
    var dirty: bool
    var batch: bool
    var nextFree: nat
    /** Open files and directories. */
    var nodes: map<nat, Node>
    ghost var table: seq<nat>
    ghost var chains: map<nat, seq<nat>>

    /** The copies agree; a clean cache is on disk, and a dirty one belongs to a batch. */
    ghost predicate IoOk()
      reads this`copies, this`cached, this`cache, this`dirty, this`batch, this`table
    {
      && |copies| > 0 && (forall i :: 0 <= i < |copies| ==> copies[i] == copies[0])
      && -1 <= cached < |copies[0]| && TableIs(kind, per, copies[0], cached, cache, table)
      && (!dirty && cached >= 0 ==> copies[0][cached] == cache)
      && (dirty ==> batch && cached >= 0)
    }

    ghost predicate Valid()
      reads this
    {
      && IoOk() && Sane(table, clusters) && 2 + clusters <= Limit(kind) && nextFree >= 2
      && ChainsOk(table, clusters, nodes, chains)
    }

    /** A mounted disk with `n` equal copies of the table, and nothing open. */
    constructor (kind: Kind, per: nat, clusters: nat, fat: seq<Sector>, n: nat, ghost t: seq<nat>)
      requires n > 0 && 2 + clusters <= Limit(kind) && Sane(t, clusters)
      requires TableIs(kind, per, fat, -1, seq(per, _ => 0), t)
      ensures Valid() && this.kind == kind && this.clusters == clusters && table == t && nodes == map[]
    {
      this.kind, this.per, this.clusters := kind, per, clusters;
      copies, cached, cache := seq(n, _ => fat), -1, seq(per, _ => 0);
      dirty, batch, nextFree := false, false, 2;
      nodes, table, chains := map[], t, map[];
    }

    method Store()
      requires |copies| > 0 && 0 <= cached < |copies[0]| && forall i :: 0 <= i < |copies| ==> copies[i] == copies[0]
      modifies this`copies, this`dirty
      ensures !dirty && |copies| == |old(copies)|
      ensures forall i :: 0 <= i < |copies| ==> copies[i] == old(copies[0])[cached := cache]
    {
      dirty := false;
      for i := 0 to |copies|
        invariant !dirty && |copies| == |old(copies)|
        invariant forall j :: 0 <= j < |copies| ==>
                    copies[j] == if j < i then old(copies[0])[cached := cache] else old(copies[0])
      {
        copies := copies[i := copies[i][cached := cache]];
      }
    }

    method Load(s: nat)
      requires IoOk() && s < |copies[0]|
      modifies this`copies, this`cached, this`cache, this`dirty
      ensures IoOk() && cached == s && |copies[0]| == old(|copies[0]|)
    {
      hide TableIs;
      if cached == s { return; }
      if dirty {
        StoreSame(kind, per, copies[0], cached, cache, table);
        Store();
      }
      LoadSame(kind, per, copies[0], cached, cache, table, s);
      cache := copies[0][s];
      cached := s;
    }

    method BatchBegin()
      requires IoOk()
      modifies this`batch
      ensures IoOk() && batch
    {
      batch := true;
    }

    /** Everything waiting is written: every copy on disk is the table. */
    method BatchEnd()
      requires IoOk()
      modifies this`batch, this`copies, this`dirty
      ensures IoOk() && !batch && !dirty
      ensures forall i :: 0 <= i < |copies| ==> TableIs(kind, per, copies[i], -1, cache, table)
    {
      hide Decode;
      batch := false;
      if dirty {
        StoreSame(kind, per, copies[0], cached, cache, table);
        Store();
      }
      OnDisk(kind, per, copies[0], cached, cache, table);
    }

    /** The latest value of an entry, whatever is cached or waiting. */
    method Get(c: nat) returns (v: nat)
      requires IoOk() && c < |table|
      modifies this`copies, this`cached, this`cache, this`dirty
      ensures IoOk() && v == table[c]
    {
      EntryThere(kind, per, copies[0], cached, cache, table, c);
      hide TableIs;
      Load(c / per);
      EntryThere(kind, per, copies[0], cached, cache, table, c);
      v := Decode(kind, cache[c % per]);
    }

    method Set(c: nat, v: nat)
      requires IoOk() && c < |table| && (v < Limit(kind) || v == EndMark(kind))
      modifies this`copies, this`cached, this`cache, this`dirty, this`table
      ensures IoOk() && table == old(table)[c := if v < Limit(kind) then v else EOC] && (!batch ==> !dirty)
    {
      EntryThere(kind, per, copies[0], cached, cache, table, c);
      hide TableIs;
      Load(c / per);
      EntryThere(kind, per, copies[0], cached, cache, table, c);
      DecodeEncode(kind, cache[c % per], v);
      var raw := Encode(kind, cache[c % per], v);
      hide Decode, Encode;
      PutEntry(kind, per, copies[0], cached, cache, table, c, raw);
      cache := cache[c % per := raw];
      table := table[c := Decode(kind, raw)];
      if batch {
        dirty := true;
      } else {
        StoreSame(kind, per, copies[0], cached, cache, table);
        Store();
      }
    }

    // ---- clusters --------------------------------------------------------------------------------

    /** The next free cluster in cyclic order, marked as an end; 0 exactly when none is free. */
    method AllocCluster() returns (c: nat)
      requires IoOk() && Sane(table, clusters) && 2 + clusters <= Limit(kind) && nextFree >= 2
      modifies this`copies, this`cached, this`cache, this`dirty, this`table, this`nextFree
      ensures IoOk() && Sane(table, clusters) && nextFree >= 2
      ensures c == 0 <==> NoneFree(old(table), clusters)
      ensures c == 0 ==> table == old(table)
      ensures c > 0 ==> 2 <= c < 2 + clusters && old(table)[c] == 0 && table == old(table)[c := EOC]
    {
      hide IoOk;
      for n := 0 to clusters
        invariant IoOk() && table == old(table) && nextFree == old(nextFree)
        invariant forall k :: 0 <= k < n ==> table[Candidate(nextFree, k, clusters)] != 0
      {
        var d := Candidate(nextFree, n, clusters);
        var v := Get(d);
        if v == 0 {
          SanePut(table, clusters, d, EOC);
          Set(d, EndMark(kind));
          nextFree := d + 1;
          return d;
        }
      }
      forall d | 2 <= d < 2 + clusters ensures table[d] != 0 {
        var k := Reaches(nextFree, d, clusters);
      }
      return 0;
    }

    /** Follow the links from `c`, clearing every entry on the way. */
    method FreeChain(c0: nat)
      requires IoOk() && Sane(table, clusters) && nextFree >= 2 && Followable(table, clusters, c0)
      modifies this`copies, this`cached, this`cache, this`dirty, this`table, this`nextFree
      ensures IoOk() && table == Freed(old(table), c0, clusters) && nextFree >= 2
    {
      hide IoOk;
      var c: nat := c0;
      while c >= 2 && !IsEnd(c)
        invariant IoOk() && Sane(table, clusters) && nextFree >= 2 && Followable(table, clusters, c)
        invariant Freed(table, c, clusters) == Freed(old(table), c0, clusters)
        decreases NonZero(table), if c >= 2 then 1 else 0
      {
        var next := Get(c);
        NonZeroPut(table, c, 0);
        SanePut(table, clusters, c, 0);
        Set(c, 0);
        if c < nextFree { nextFree := c; }
        c := next;
      }
    }

    /** A file is looked up: its first cluster comes from its directory entry, and its chain is its own. */
    method Open(f: nat, first: nat, ghost s: seq<nat>)
      requires Valid() && f !in nodes && IsChain(table, clusters, first, s)
      requires forall g, i :: g in chains && 0 <= i < |s| ==> s[i] !in chains[g]
      modifies this`nodes, this`chains
      ensures Valid() && nodes == old(nodes)[f := Node(first, 0, 0)] && chains == old(chains)[f := s]
    {
      hide IoOk, IsChain;
      Opened(table, clusters, nodes, chains, f, first, s);
      hide ChainsOk;
      nodes := nodes[f := Node(first, 0, 0)];
      chains := chains[f := s];
    }

    /** A new file has no clusters. */
    method Create(f: nat)
      requires Valid() && f !in nodes
      modifies this`nodes, this`chains
      ensures Valid() && nodes == old(nodes)[f := Node(0, 0, 0)] && chains == old(chains)[f := []]
    {
      hide IoOk, ChainsOk;
      EmptyChain(table, clusters);
      Open(f, 0, []);
    }

    /** Cut a file to nothing: exactly its clusters become free. */
    method Truncate(f: nat)
      requires Valid() && f in nodes
      modifies this`copies, this`cached, this`cache, this`dirty, this`table, this`nextFree, this`nodes, this`chains
      ensures Valid() && chains == old(chains)[f := []] && nodes == old(nodes)[f := Node(0, 0, 0)]
      ensures |table| == |old(table)|
      ensures forall c :: 0 <= c < |table| ==> table[c] == if c in old(chains)[f] then 0 else old(table)[c]
    {
      hide IoOk, ChainsOk, Sane, Freed, Zeroed;
      KnownFile(table, clusters, nodes, chains, f);
      Dropped(table, clusters, nodes, chains, f);
      FreeChain(nodes[f].first);
      forall c | 0 <= c < |table| ensures table[c] == if c in chains[f] then 0 else old(table)[c] {
        ZeroedAt(old(table), chains[f], c);
      }
      nodes := nodes[f := Node(0, 0, 0)];
      chains := chains[f := []];
    }

    /** The cluster `idx` places after `first`, which is place `k` of the file's chain; the chain is
        extended if asked and possible. */
    method ChainWalk(f: nat, first: nat, ghost k: nat, idx: nat, alloc: bool) returns (c: nat)
      requires Valid() && f in nodes && f in chains
      requires if chains[f] == [] then first == 0 && k == 0 else k < |chains[f]| && chains[f][k] == first
      modifies this`copies, this`cached, this`cache, this`dirty, this`table, this`nextFree, this`nodes, this`chains
      ensures Valid() && f in chains && f in nodes && Extended(old(chains), chains, f) && SameHints(old(nodes), nodes)
      ensures c == PlaceOf(chains[f], k + idx)
      ensures !alloc ==> chains == old(chains) && table == old(table) && nodes == old(nodes)
      ensures alloc && c == 0 ==> NoneFree(table, clusters)
      ensures alloc && c != 0 ==> |chains[f]| == if k + idx < |old(chains)[f]| then |old(chains)[f]| else k + idx + 1
    {
      hide IoOk, ChainsOk, Sane, NoneFree;
      ExtendedRefl(chains, f, nodes);
      c := first;
      if c == 0 {
        NoZeroPlace(table, clusters, nodes, chains, f, k);
        if !alloc { return 0; }
        c := StartChain(f);
        if c == 0 { return 0; }
      } else {
        NonEmptyPlace(table, clusters, nodes, chains, f, k);
      }
      for i := 0 to idx
        invariant Valid() && f in chains && f in nodes && Extended(old(chains), chains, f)
        invariant SameHints(old(nodes), nodes)
        invariant k + i < |chains[f]| && c == chains[f][k + i] && c != 0
        invariant !alloc ==> chains == old(chains) && table == old(table) && nodes == old(nodes)
        invariant |chains[f]| <= (if k + i < |old(chains)[f]| then |old(chains)[f]| else k + i + 1)
      {
        ghost var before := chains;
        c := NextPlace(f, c, k + i, alloc);
        ExtendedTrans(old(chains), before, chains, f);
        if c == 0 { return 0; }
      }
    }

    /** From place `i` of the chain to the next one, adding it if asked. */
    method NextPlace(f: nat, c: nat, ghost i: nat, alloc: bool) returns (next: nat)
      requires Valid() && f in nodes && f in chains && i < |chains[f]| && c == chains[f][i]
      modifies this`copies, this`cached, this`cache, this`dirty, this`table, this`nextFree, this`chains
      ensures Valid() && f in chains && next == PlaceOf(chains[f], i + 1) && (next == 0 <==> i + 1 >= |chains[f]|)
      ensures next == 0 && alloc ==> NoneFree(table, clusters)
      ensures next == 0 || !alloc || i + 1 < |old(chains)[f]| ==> chains == old(chains) && table == old(table)
      ensures next != 0 && i + 1 == |old(chains)[f]| ==> chains == old(chains)[f := old(chains)[f] + [next]]
    {
      hide IoOk, ChainsOk, Sane;
      Step(table, clusters, nodes, chains, f, i);
      next := Get(c);
      if IsEnd(next) || next < 2 {
        if !alloc { return 0; }
        next := Extend(f, c);
      }
    }

    /** A first cluster for an empty file. */
    method StartChain(f: nat) returns (c: nat)
      requires Valid() && f in nodes && f in chains && chains[f] == []
      modifies this`copies, this`cached, this`cache, this`dirty, this`table, this`nextFree, this`nodes, this`chains
      ensures Valid() && (c == 0 <==> NoneFree(old(table), clusters))
      ensures c == 0 ==> chains == old(chains) && nodes == old(nodes) && table == old(table)
      ensures c > 0 ==> chains == old(chains)[f := [c]] && nodes == old(nodes)[f := Node(c, 0, 0)]
    {
      hide IoOk, ChainsOk, Sane;
      KnownFile(table, clusters, nodes, chains, f);
      c := AllocCluster();
      if c == 0 { return; }
      SaneLength(table, clusters);
      Marked(old(table), clusters, nodes, chains, c, EOC);
      Started(table, clusters, nodes, chains, f, c);
      nodes := nodes[f := Node(c, 0, 0)];
      chains := chains[f := [c]];
    }

    /** One more cluster behind the last one, `c`. */
    method Extend(f: nat, c: nat) returns (next: nat)
      requires Valid() && f in nodes && f in chains && chains[f] != [] && c == chains[f][|chains[f]| - 1]
      modifies this`copies, this`cached, this`cache, this`dirty, this`table, this`nextFree, this`chains
      ensures Valid() && (next == 0 <==> NoneFree(old(table), clusters))
      ensures next == 0 ==> chains == old(chains) && table == old(table)
      ensures next > 0 ==> chains == old(chains)[f := old(chains)[f] + [next]]
    {
      hide IoOk, ChainsOk, Sane;
      KnownFile(table, clusters, nodes, chains, f);
      LastIn(table, clusters, nodes, chains, f);
      next := AllocCluster();
      if next == 0 { return; }
      SaneLength(table, clusters);
      Marked(old(table), clusters, nodes, chains, next, EOC);
      Linked(table, clusters, nodes, chains, f, next);
      SanePut(table, clusters, c, next);
      Set(c, next);
      chains := chains[f := chains[f] + [next]];
    }

    /** chain_walk resumed from the remembered place when that is not past `idx`: the same answer as
        walking from the first cluster. */
    method ChainAt(f: nat, idx: nat, alloc: bool) returns (c: nat)
      requires Valid() && f in nodes && f in chains
      modifies this`copies, this`cached, this`cache, this`dirty, this`table, this`nextFree, this`nodes, this`chains
      ensures Valid() && f in chains && f in nodes && Extended(old(chains), chains, f)
      ensures c == PlaceOf(chains[f], idx)
      ensures !alloc ==> chains == old(chains) && table == old(table)
      ensures alloc && c == 0 ==> NoneFree(table, clusters)
    {
      hide IoOk, Sane, ChainsOk;
      Places(table, clusters, nodes, chains, f);
      var n := nodes[f];
      if n.hint != 0 && n.first != 0 && n.hintIdx <= idx {
        c := ChainWalk(f, n.hint, n.hintIdx, idx - n.hintIdx, alloc);
      } else {
        c := ChainWalk(f, n.first, 0, idx, alloc);
      }
      if c != 0 {
        Remember(table, clusters, nodes, chains, f, idx);
        nodes := nodes[f := Node(nodes[f].first, idx, c)];
      }
    }
  }

  // ---- facts about clusters and chains ---------------------------------------------------------------

  ghost predicate NoneFree(t: seq<nat>, clusters: nat) { forall d :: 2 <= d < 2 + clusters && d < |t| ==> t[d] != 0 }

  function Candidate(nextFree: nat, n: nat, clusters: nat): (c: nat)
    requires nextFree >= 2 && clusters > 0
    ensures 2 <= c < 2 + clusters
  {
    2 + (nextFree - 2 + n) % clusters
  }

  /** The scan comes to every cluster. */
  lemma Reaches(nextFree: nat, d: nat, clusters: nat) returns (k: nat)
    requires nextFree >= 2 && 2 <= d < 2 + clusters
    ensures k < clusters && Candidate(nextFree, k, clusters) == d
  {
    k := StepsTo(nextFree - 2, d - 2, clusters);
  }

  /** How far it is from `a` to a number of remainder `r`. */
  lemma StepsTo(a: nat, r: nat, n: nat) returns (k: nat)
    requires r < n
    ensures k < n && (a + k) % n == r
  {
    var q, b := a / n, a % n;
    ghost var product := n * q;
    assert a == product + b;
    if r >= b {
      k := r - b;
      ModOf(n, q, r);
      assert a + k == product + r;
    } else {
      k := r - b + n;
      ModOf(n, q + 1, r);
      assert n * (q + 1) == product + n;
      assert a + k == product + n + r;
    }
  }

  function PlaceOf(s: seq<nat>, i: nat): nat { if i < |s| then s[i] else 0 }

  /** Only the chain of `f` changed, by getting longer. */
  ghost predicate Extended(old': map<nat, seq<nat>>, new': map<nat, seq<nat>>, f: nat) {
    new'.Keys == old'.Keys && f in old' && old'[f] <= new'[f] && forall g :: g in old' && g != f ==> new'[g] == old'[g]
  }

  /** The remembered places did not change, or were cleared. */
  predicate SameHints(old': map<nat, Node>, new': map<nat, Node>) {
    new'.Keys == old'.Keys && forall g :: g in old' ==> new'[g].hint == 0 || new'[g] == old'[g]
  }

  lemma ExtendedRefl(chains: map<nat, seq<nat>>, f: nat, nodes: map<nat, Node>)
    requires f in chains
    ensures Extended(chains, chains, f) && SameHints(nodes, nodes)
  {
  }

  lemma ExtendedTrans(a: map<nat, seq<nat>>, b: map<nat, seq<nat>>, c: map<nat, seq<nat>>, f: nat)
    requires Extended(a, b, f) && (c == b || (f in b && exists x :: c == b[f := b[f] + [x]]))
    ensures Extended(a, c, f)
  {
  }

  lemma SaneLength(t: seq<nat>, clusters: nat)
    requires Sane(t, clusters)
    ensures 2 + clusters <= |t|
  {
  }

  lemma KnownFile(t: seq<nat>, clusters: nat, nodes: map<nat, Node>, chains: map<nat, seq<nat>>, f: nat)
    requires ChainsOk(t, clusters, nodes, chains) && f in nodes
    ensures f in chains && 2 + clusters <= |t|
  {
  }

  lemma NoZeroPlace(t: seq<nat>, clusters: nat, nodes: map<nat, Node>, chains: map<nat, seq<nat>>, f: nat, k: nat)
    requires ChainsOk(t, clusters, nodes, chains) && f in chains
    requires if chains[f] == [] then k == 0 else k < |chains[f]| && chains[f][k] == 0
    ensures chains[f] == []
  {
    assert IsChain(t, clusters, nodes[f].first, chains[f]);
  }

  lemma NonEmptyPlace(t: seq<nat>, clusters: nat, nodes: map<nat, Node>, chains: map<nat, seq<nat>>, f: nat, k: nat)
    requires ChainsOk(t, clusters, nodes, chains) && f in chains && k < |chains[f]|
    ensures 2 <= chains[f][k] < 2 + clusters <= |t|
  {
    assert IsChain(t, clusters, nodes[f].first, chains[f]);
  }

  /** What the table says at a place of a chain. */
  lemma Step(t: seq<nat>, clusters: nat, nodes: map<nat, Node>, chains: map<nat, seq<nat>>, f: nat, i: nat)
    requires Sane(t, clusters) && ChainsOk(t, clusters, nodes, chains) && f in chains && i < |chains[f]|
    ensures chains[f][i] < |t|
    ensures i + 1 < |chains[f]| ==>
              t[chains[f][i]] == chains[f][i + 1] && 2 <= chains[f][i + 1] && !IsEnd(chains[f][i + 1])
    ensures i + 1 == |chains[f]| ==> IsEnd(t[chains[f][i]])
  {
    hide Apart;
    assert IsChain(t, clusters, nodes[f].first, chains[f]);
    assert i + 1 < |chains[f]| ==> 2 <= chains[f][i + 1] < 2 + clusters;
  }

  lemma Places(t: seq<nat>, clusters: nat, nodes: map<nat, Node>, chains: map<nat, seq<nat>>, f: nat)
    requires ChainsOk(t, clusters, nodes, chains) && f in chains
    ensures if chains[f] == [] then nodes[f].first == 0 else chains[f][0] == nodes[f].first
    ensures nodes[f].hint != 0 ==> nodes[f].hintIdx < |chains[f]| && chains[f][nodes[f].hintIdx] == nodes[f].hint
  {
    assert IsChain(t, clusters, nodes[f].first, chains[f]);
  }

  lemma Remember(t: seq<nat>, clusters: nat, nodes: map<nat, Node>, chains: map<nat, seq<nat>>, f: nat, idx: nat)
    requires ChainsOk(t, clusters, nodes, chains) && f in chains && idx < |chains[f]|
    ensures ChainsOk(t, clusters, nodes[f := Node(nodes[f].first, idx, chains[f][idx])], chains)
  {
    hide IsChain, Apart;
  }

  lemma EntryThere(k: Kind, per: nat, fat: seq<Sector>, cached: int, cache: Sector, t: seq<nat>, c: nat)
    requires TableIs(k, per, fat, cached, cache, t) && c < |t|
    ensures per > 0 && c / per < |fat| && 0 <= c % per < per == |cache|
    ensures cached == c / per ==> t[c] == Decode(k, cache[c % per])
  {
    hide Decode;
  }

  lemma OnDisk(k: Kind, per: nat, fat: seq<Sector>, cached: int, cache: Sector, t: seq<nat>)
    requires TableIs(k, per, fat, cached, cache, t) && (0 <= cached < |fat| ==> fat[cached] == cache)
    ensures TableIs(k, per, fat, -1, cache, t)
  {
    hide Decode;
  }
}
