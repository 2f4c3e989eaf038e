/** FAT tables as sequences of next pointers: chains of clusters, freeing one, and what allocating
    and linking do to the others (kernel/fs/fat.c:227-257). */
module FatChains {
  /** What reading an end-of-chain entry gives; every value from EOC_MIN on is one. */
  const EOC: nat := 0x0FFF_FFFF
  const EOC_MIN: nat := 0x0FFF_FFF8

  predicate IsEnd(v: nat) { v >= EOC_MIN }

  /** Neither free, a cluster of the volume, nor an end: the mark of a bad cluster, or a reserved value. */
  predicate Strange(v: nat, clusters: nat) { v >= 2 + clusters && !IsEnd(v) }

  /** An end, or a cluster without such a mark. */
  predicate Followable(t: seq<nat>, clusters: nat, v: nat)
    requires 2 + clusters <= |t|
  {
    !Strange(v, clusters) && (2 <= v < 2 + clusters ==> !Strange(t[v], clusters))
  }

  /** Links lead to clusters of the volume, and to none that is marked. */
  predicate Sane(t: seq<nat>, clusters: nat) {
    && 2 + clusters <= |t| && 2 + clusters <= EOC_MIN
    && forall c :: 0 <= c < |t| ==> Strange(t[c], clusters) || Followable(t, clusters, t[c])
  }

  /** Clearing an entry, ending a chain at it, or linking a cluster without a mark keeps that so. */
  lemma SanePut(t: seq<nat>, clusters: nat, c: nat, v: nat)
    requires Sane(t, clusters) && c < |t| && Followable(t, clusters, v)
    ensures Sane(t[c := v], clusters)
    ensures forall x: nat :: Followable(t, clusters, x) ==> Followable(t[c := v], clusters, x)
  {
  }

  function NonZero(t: seq<nat>): nat {
    if t == [] then 0 else NonZero(t[..|t| - 1]) + if t[|t| - 1] != 0 then 1 else 0
  }

  lemma {:induction false} NonZeroPut(t: seq<nat>, c: nat, v: nat)
    requires c < |t|
    ensures NonZero(t[c := v]) == NonZero(t) + (if v != 0 then 1 else 0) - (if t[c] != 0 then 1 else 0)
  {
    var n := |t| - 1;
    if c < n {
      NonZeroPut(t[..n], c, v);
      assert t[c := v][..n] == t[..n][c := v];
    } else {
      assert t[c := v][..n] == t[..n];
    }
  }

  /** Following and clearing entries until an end or a free one: it stops even on a cycle. */
  function Freed(t: seq<nat>, c: nat, clusters: nat): (r: seq<nat>)
    requires Sane(t, clusters) && Followable(t, clusters, c)
    ensures Sane(r, clusters) && |r| == |t|
    decreases NonZero(t)
  {
    if c < 2 || IsEnd(c) || t[c] == 0 then t
    else
      NonZeroPut(t, c, 0);
      SanePut(t, clusters, c, 0);
      Freed(t[c := 0], t[c], clusters)
  }

  // ---- chains ----------------------------------------------------------------------------------

  /** `s` is the chain that starts at `first`; 0 starts the empty one. */
  predicate IsChain(t: seq<nat>, clusters: nat, first: nat, s: seq<nat>) {
    && 2 + clusters <= |t|
    && (if s == [] then first == 0 else s[0] == first)
    && (forall i :: 0 <= i < |s| ==> 2 <= s[i] < 2 + clusters)
    && (forall i :: 0 <= i < |s| - 1 ==> t[s[i]] == s[i + 1])
    && (s != [] ==> IsEnd(t[s[|s| - 1]]))
  }

  predicate Distinct(s: seq<nat>) { forall i, j :: 0 <= i < j < |s| ==> s[i] != s[j] }

  function Zeroed(t: seq<nat>, s: seq<nat>): (r: seq<nat>)
    requires forall i :: 0 <= i < |s| ==> s[i] < |t|
    ensures |r| == |t|
    decreases |s|
  {
    if s == [] then t else Zeroed(t[s[0] := 0], s[1..])
  }

  lemma {:induction false} ZeroedAt(t: seq<nat>, s: seq<nat>, c: nat)
    requires (forall i :: 0 <= i < |s| ==> s[i] < |t|) && c < |t|
    ensures Zeroed(t, s)[c] == if c in s then 0 else t[c]
    decreases |s|
  {
    if s != [] { ZeroedAt(t[s[0] := 0], s[1..], c); }
  }

  /** Freeing from the first cluster frees exactly the chain. */
  lemma {:induction false} FreedIsZeroed(t: seq<nat>, clusters: nat, s: seq<nat>)
    requires Sane(t, clusters) && s != [] && IsChain(t, clusters, s[0], s) && Distinct(s)
    ensures Followable(t, clusters, s[0]) && Freed(t, s[0], clusters) == Zeroed(t, s)
    decreases |s|
  {
    var t', n := t[s[0] := 0], t[s[0]];
    ChainFollowable(t, clusters, s);
    SanePut(t, clusters, s[0], 0);
    if |s| > 1 {
      ChainTail(t, clusters, s);
      FreedIsZeroed(t', clusters, s[1..]);
    } else {
      assert s[1..] == [] && Zeroed(t, s) == t';
      assert Freed(t', n, clusters) == t';
    }
  }

  lemma ChainFollowable(t: seq<nat>, clusters: nat, s: seq<nat>)
    requires s != [] && IsChain(t, clusters, s[0], s)
    ensures Followable(t, clusters, s[0])
  {
    assert |s| > 1 ==> t[s[0]] == s[1];
  }

  /** A chain ends, so it has no cycle. */
  lemma ChainDistinct(t: seq<nat>, clusters: nat, first: nat, s: seq<nat>)
    requires IsChain(t, clusters, first, s) && 2 + clusters <= EOC_MIN
    ensures Distinct(s)
  {
    hide IsChain;
    forall i, j | 0 <= i < j < |s| ensures s[i] != s[j] { NoReturn(t, clusters, first, s, i, j); }
  }

  /** From equal clusters a chain goes on equally, and so ends at the same place. */
  lemma {:induction false} NoReturn(t: seq<nat>, clusters: nat, first: nat, s: seq<nat>, i: nat, j: nat)
    requires IsChain(t, clusters, first, s) && i < j < |s| && 2 + clusters <= EOC_MIN
    ensures s[i] != s[j]
    decreases |s| - j
  {
    assert t[s[i]] == s[i + 1] && s[i + 1] < 2 + clusters;
    if j + 1 < |s| { NoReturn(t, clusters, first, s, i + 1, j + 1); }
  }

  lemma ChainTail(t: seq<nat>, clusters: nat, s: seq<nat>)
    requires |s| > 1 && IsChain(t, clusters, s[0], s) && Distinct(s)
    ensures IsChain(t[s[0] := 0], clusters, s[1], s[1..]) && Distinct(s[1..])
  {
    var u := s[1..];
    forall i | 0 <= i < |u| ensures u[i] == s[i + 1] && u[i] != s[0] {}
  }

  // ---- the chains of all files -------------------------------------------------------------------

  /** A file's first cluster (0 for none) and the place in its chain last looked up (0 for none). */
  datatype Node = Node(first: nat, hintIdx: nat, hint: nat)

  predicate HintOk(n: Node, s: seq<nat>) { n.hint != 0 ==> n.hintIdx < |s| && s[n.hintIdx] == n.hint }

  /** Every file's chain is in the table, and no cluster is in two places. */
  ghost predicate ChainsOk(t: seq<nat>, clusters: nat, nodes: map<nat, Node>, chains: map<nat, seq<nat>>) {
    && nodes.Keys == chains.Keys
    && (forall f :: f in chains ==> IsChain(t, clusters, nodes[f].first, chains[f]) && HintOk(nodes[f], chains[f]))
    && Apart(chains)
  }

  predicate Apart(chains: map<nat, seq<nat>>) {
    forall f, g, i, j ::
      f in chains && g in chains && 0 <= i < |chains[f]| && 0 <= j < |chains[g]| && chains[f][i] == chains[g][j]
      ==> f == g && i == j
  }

  lemma ApartDistinct(chains: map<nat, seq<nat>>, f: nat)
    requires Apart(chains) && f in chains
    ensures Distinct(chains[f])
  {
  }

  lemma ChainNonZero(t: seq<nat>, clusters: nat, first: nat, s: seq<nat>, i: nat)
    requires IsChain(t, clusters, first, s) && i < |s|
    ensures 2 <= s[i] < |t| && t[s[i]] != 0
  {
    assert i < |s| - 1 ==> t[s[i]] == s[i + 1] && 2 <= s[i + 1];
  }

  /** A free cluster is in no chain. */
  lemma FreeNotInChain(t: seq<nat>, clusters: nat, first: nat, s: seq<nat>, c: nat)
    requires IsChain(t, clusters, first, s) && c < |t| && t[c] == 0
    ensures c !in s
  {
    hide IsChain;
    forall i | 0 <= i < |s| ensures s[i] != c { ChainNonZero(t, clusters, first, s, i); }
  }

  /** Whatever happens to entries outside a chain, it stays. */
  lemma PutOutside(t: seq<nat>, clusters: nat, first: nat, s: seq<nat>, c: nat, v: nat)
    requires IsChain(t, clusters, first, s) && c < |t| && c !in s
    ensures IsChain(t[c := v], clusters, first, s)
  {
    forall i | 0 <= i < |s| ensures s[i] != c { assert s[i] in s; }
  }

  lemma {:induction false} ZeroedOutside(t: seq<nat>, clusters: nat, first: nat, s: seq<nat>, u: seq<nat>)
    requires IsChain(t, clusters, first, s) && (forall i :: 0 <= i < |u| ==> u[i] < |t| && u[i] !in s)
    ensures IsChain(Zeroed(t, u), clusters, first, s)
    decreases |u|
  {
    hide IsChain;
    if u != [] {
      PutOutside(t, clusters, first, s, u[0], 0);
      ZeroedOutside(t[u[0] := 0], clusters, first, s, u[1..]);
    }
  }

  lemma ChainGrown(t: seq<nat>, clusters: nat, first: nat, s: seq<nat>, c: nat)
    requires IsChain(t, clusters, first, s) && s != [] && Distinct(s) && 2 <= c < 2 + clusters && IsEnd(t[c]) && c !in s
    ensures s[|s| - 1] < |t| && IsChain(t[s[|s| - 1] := c], clusters, first, s + [c])
  {
    var n := |s| - 1;
    var t', s' := t[s[n] := c], s + [c];
    forall i | 0 <= i < |s'| - 1 ensures t'[s'[i]] == s'[i + 1] {
      if i < n { assert s[i] != s[n] && t[s[i]] == s[i + 1]; }
    }
    assert c != s[n];
  }

  /** Marking a free cluster as an end changes no chain. */
  lemma Marked(t: seq<nat>, clusters: nat, nodes: map<nat, Node>, chains: map<nat, seq<nat>>, c: nat, v: nat)
    requires ChainsOk(t, clusters, nodes, chains) && c < |t| && t[c] == 0
    ensures ChainsOk(t[c := v], clusters, nodes, chains) && forall f :: f in chains ==> c !in chains[f]
  {
    hide IsChain, HintOk, Apart;
    forall f | f in chains ensures IsChain(t[c := v], clusters, nodes[f].first, chains[f]) && c !in chains[f] {
      FreeNotInChain(t, clusters, nodes[f].first, chains[f], c);
      PutOutside(t, clusters, nodes[f].first, chains[f], c, v);
    }
  }

  lemma LastIn(t: seq<nat>, clusters: nat, nodes: map<nat, Node>, chains: map<nat, seq<nat>>, f: nat)
    requires ChainsOk(t, clusters, nodes, chains) && f in chains && chains[f] != []
    ensures chains[f][|chains[f]| - 1] < |t|
  {
    hide Apart;
    assert IsChain(t, clusters, nodes[f].first, chains[f]);
  }

  /** Linking a marked, unused cluster behind the end of a chain makes the chain longer. */
  lemma Linked(t: seq<nat>, clusters: nat, nodes: map<nat, Node>, chains: map<nat, seq<nat>>, f: nat, c: nat)
    requires ChainsOk(t, clusters, nodes, chains) && f in chains && chains[f] != [] && 2 <= c < 2 + clusters <= |t|
    requires IsEnd(t[c]) && forall g :: g in chains ==> c !in chains[g]
    ensures chains[f][|chains[f]| - 1] < |t|
    ensures ChainsOk(t[chains[f][|chains[f]| - 1] := c], clusters, nodes, chains[f := chains[f] + [c]])
  {
    hide IsChain, Distinct;
    var s := chains[f];
    ApartDistinct(chains, f);
    ChainGrown(t, clusters, nodes[f].first, s, c);
    var last := s[|s| - 1];
    forall g | g in chains && g != f ensures IsChain(t[last := c], clusters, nodes[g].first, chains[g]) {
      NotInOther(chains, f, |s| - 1, g);
      PutOutside(t, clusters, nodes[g].first, chains[g], last, c);
    }
    ApartGrown(chains, f, c);
    hide Apart;
  }

  lemma NotInOther(chains: map<nat, seq<nat>>, f: nat, i: nat, g: nat)
    requires Apart(chains) && f in chains && g in chains && f != g && i < |chains[f]|
    ensures chains[f][i] !in chains[g]
  {
  }

  lemma ApartGrown(chains: map<nat, seq<nat>>, f: nat, c: nat)
    requires Apart(chains) && f in chains && forall g :: g in chains ==> c !in chains[g]
    ensures Apart(chains[f := chains[f] + [c]])
  {
    var chains' := chains[f := chains[f] + [c]];
    forall g, h, i, j | g in chains' && h in chains' && 0 <= i < |chains'[g]| && 0 <= j < |chains'[h]|
                        && chains'[g][i] == chains'[h][j]
      ensures g == h && i == j
    {
      assert i < |chains[g]| ==> chains'[g][i] == chains[g][i] && chains[g][i] in chains[g];
      assert j < |chains[h]| ==> chains'[h][j] == chains[h][j] && chains[h][j] in chains[h];
    }
  }

  /** The first cluster of an empty file. */
  lemma Started(t: seq<nat>, clusters: nat, nodes: map<nat, Node>, chains: map<nat, seq<nat>>, f: nat, c: nat)
    requires ChainsOk(t, clusters, nodes, chains) && f in chains && chains[f] == [] && 2 <= c < 2 + clusters <= |t|
    requires IsEnd(t[c]) && forall g :: g in chains ==> c !in chains[g]
    ensures ChainsOk(t, clusters, nodes[f := Node(c, 0, 0)], chains[f := [c]])
  {
    hide IsChain, Apart;
    OneChain(t, clusters, c);
    ApartGrown(chains, f, c);
    assert [] + [c] == [c];
  }

  /** Freeing a file's chain leaves the others, and its clusters free. */
  lemma Dropped(t: seq<nat>, clusters: nat, nodes: map<nat, Node>, chains: map<nat, seq<nat>>, f: nat)
    requires Sane(t, clusters) && ChainsOk(t, clusters, nodes, chains) && f in chains
    ensures 2 + clusters <= |t| && Followable(t, clusters, nodes[f].first)
    ensures forall i :: 0 <= i < |chains[f]| ==> chains[f][i] < |t|
    ensures Freed(t, nodes[f].first, clusters) == Zeroed(t, chains[f])
    ensures ChainsOk(Zeroed(t, chains[f]), clusters, nodes[f := Node(0, 0, 0)], chains[f := []])
  {
    hide Freed, Zeroed, IsChain, Apart, Distinct, Followable;
    var s := chains[f];
    ChainStart(t, clusters, nodes[f].first, s);
    ApartDistinct(chains, f);
    FreedWhole(t, clusters, nodes[f].first, s);
    ApartDropped(chains, f);
    forall g | g in chains && g != f ensures IsChain(Zeroed(t, s), clusters, nodes[g].first, chains[g]) {
      forall i | 0 <= i < |s| ensures s[i] !in chains[g] { NotInOther(chains, f, i, g); }
      ZeroedOutside(t, clusters, nodes[g].first, chains[g], s);
    }
    EmptyChain(Zeroed(t, s), clusters);
  }

  lemma ChainStart(t: seq<nat>, clusters: nat, first: nat, s: seq<nat>)
    requires IsChain(t, clusters, first, s)
    ensures first < 2 + clusters <= |t| && forall i :: 0 <= i < |s| ==> s[i] < |t|
  {
  }

  lemma EmptyChain(t: seq<nat>, clusters: nat)
    requires 2 + clusters <= |t|
    ensures IsChain(t, clusters, 0, [])
  {
  }

  lemma OneChain(t: seq<nat>, clusters: nat, c: nat)
    requires 2 <= c < 2 + clusters <= |t| && IsEnd(t[c])
    ensures IsChain(t, clusters, c, [c])
  {
  }

  lemma FreedWhole(t: seq<nat>, clusters: nat, first: nat, s: seq<nat>)
    requires Sane(t, clusters) && IsChain(t, clusters, first, s) && Distinct(s)
    ensures Followable(t, clusters, first) && (forall i :: 0 <= i < |s| ==> s[i] < |t|)
    ensures Freed(t, first, clusters) == Zeroed(t, s)
  {
    if s != [] { FreedIsZeroed(t, clusters, s); }
  }

  /** A file is opened: its chain is in no other's. */
  lemma Opened(t: seq<nat>, clusters: nat, nodes: map<nat, Node>, chains: map<nat, seq<nat>>, f: nat, first: nat,
               s: seq<nat>)
    requires ChainsOk(t, clusters, nodes, chains) && f !in nodes && IsChain(t, clusters, first, s)
    requires 2 + clusters <= EOC_MIN
    requires forall g, i :: g in chains && 0 <= i < |s| ==> s[i] !in chains[g]
    ensures ChainsOk(t, clusters, nodes[f := Node(first, 0, 0)], chains[f := s])
  {
    ChainDistinct(t, clusters, first, s);
    hide IsChain;
    var chains' := chains[f := s];
    forall g, h, i, j | g in chains' && h in chains' && 0 <= i < |chains'[g]| && 0 <= j < |chains'[h]|
                        && chains'[g][i] == chains'[h][j]
      ensures g == h && i == j
    {
      assert g != f ==> chains'[g][i] in chains[g];
      assert h != f ==> chains'[h][j] in chains[h];
    }
  }

  lemma ApartDropped(chains: map<nat, seq<nat>>, f: nat)
    requires Apart(chains)
    ensures Apart(chains[f := []])
  {
  }
}
