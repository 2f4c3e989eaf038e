/** zaefs directories as sequences of records: a directory is the list of its records in disk
    order, live or freed. Insertion is first-fit and freed records keep their name and length
    (kernel/fs/zaefs.c, include/abi/zaefs.h). */
module ZaefsDirSpec {
  import opened ZaefsBytes

  const NAME_MAX: nat := 255

  type Name = seq<Byte>

  /** A directory record; `ino` 0 marks a freed one, `len` is its span in the block. */
  datatype Rec = Rec(ino: nat, len: nat, kind: Byte, name: Name)

  datatype Entry = Entry(ino: nat, kind: Byte, name: Name)

  /** Bytes a live record needs: an 8-byte header and the name, padded to 8. */
  function Size(nameLen: nat): nat { (8 + nameLen + 7) / 8 * 8 }

  predicate RecOk(r: Rec) {
    |r.name| <= NAME_MAX && r.ino < 0x1_0000_0000 && r.len % 8 == 0 && Size(|r.name|) <= r.len <= BS
  }

  predicate RecsOk(rs: seq<Rec>) { forall i :: 0 <= i < |rs| ==> RecOk(rs[i]) }

  predicate EntryOk(e: Entry) { 0 < e.ino < 0x1_0000_0000 && |e.name| <= NAME_MAX }

  /** Two records with one name: the later one is freed. */
  predicate OnlyFirstLive(rs: seq<Rec>) {
    forall i, j :: 0 <= i < j < |rs| && rs[i].name == rs[j].name ==> rs[j].ino == 0
  }

  /** The directory as a map from names to inodes. */
  function View(rs: seq<Rec>): map<Name, nat> {
    if rs == [] then map[]
    else if rs[0].ino != 0 then View(rs[1..])[rs[0].name := rs[0].ino]
    else View(rs[1..])
  }

  function SpanOf(rs: seq<Rec>): nat { if rs == [] then 0 else rs[0].len + SpanOf(rs[1..]) }

  // ---- operations on the record list -------------------------------------------------------

  function Used(r: Rec): nat { if r.ino != 0 then Size(|r.name|) else 0 }

  predicate Fits(r: Rec, need: nat) { r.len - Used(r) >= need }

  /** Put an entry into a record's slack: after a live record, in place of a freed one. */
  function Place(r: Rec, e: Entry): seq<Rec>
    requires RecOk(r)
  {
    if r.ino != 0
    then [r.(len := Used(r)), Rec(e.ino, r.len - Used(r), e.kind, e.name)]
    else [Rec(e.ino, r.len, e.kind, e.name)]
  }

  function FirstFit(rs: seq<Rec>, need: nat): (i: nat)
    ensures i <= |rs| && (i < |rs| ==> Fits(rs[i], need))
  {
    if rs == [] then 0 else if Fits(rs[0], need) then 0 else 1 + FirstFit(rs[1..], need)
  }

  /** Whether adding needs no new block. */
  predicate HasRoom(rs: seq<Rec>, e: Entry) { FirstFit(rs, Size(|e.name|)) < |rs| }

  function Add(rs: seq<Rec>, e: Entry): seq<Rec>
    requires RecsOk(rs)
  {
    var i := FirstFit(rs, Size(|e.name|));
    if i < |rs| then rs[..i] + Place(rs[i], e) + rs[i + 1..]
    else rs + [Rec(e.ino, BS, e.kind, e.name)]
  }

  /** The first record bearing a name, live or freed. */
  function FirstNamed(rs: seq<Rec>, name: Name): (i: nat)
    ensures i <= |rs| && (i < |rs| ==> rs[i].name == name)
  {
    if rs == [] then 0 else if rs[0].name == name then 0 else 1 + FirstNamed(rs[1..], name)
  }

  /** Free the first record bearing the name; a freed match ends the search. */
  function Remove(rs: seq<Rec>, name: Name): seq<Rec> {
    var i := FirstNamed(rs, name);
    if i < |rs| then rs[i := rs[i].(ino := 0)] else rs
  }

  // ---- the view ------------------------------------------------------------------------------

  lemma {:induction false} ViewAppend(a: seq<Rec>, b: seq<Rec>)
    ensures View(a + b) == View(b) + View(a)
  {
    if a == [] {
      assert a + b == b;
    } else {
      assert (a + b)[1..] == a[1..] + b;
      ViewAppend(a[1..], b);
    }
  }

  lemma ViewAround(a: seq<Rec>, m: seq<Rec>, c: seq<Rec>)
    ensures View(a + m + c) == View(c) + View(m) + View(a)
  {
    ViewAppend(a + m, c);
    ViewAppend(a, m);
  }

  lemma {:induction false} ViewHas(rs: seq<Rec>, n: Name)
    ensures n in View(rs) <==> exists i :: 0 <= i < |rs| && rs[i].name == n && rs[i].ino != 0
  {
    if rs != [] {
      ViewHas(rs[1..], n);
      if i :| 0 <= i < |rs| && rs[i].name == n && rs[i].ino != 0 {
        if i > 0 { assert rs[1..][i - 1].name == n && rs[1..][i - 1].ino != 0; }
      }
      if n in View(rs[1..]) {
        var k :| 0 <= k < |rs| - 1 && rs[1..][k].name == n && rs[1..][k].ino != 0;
        assert rs[k + 1].name == n && rs[k + 1].ino != 0;
      }
    }
  }

  /** Where a live record stands, the view has its inode. */
  lemma ViewAt(rs: seq<Rec>, i: nat)
    requires OnlyFirstLive(rs) && i < |rs| && rs[i].ino != 0
    ensures rs[i].name in View(rs) && View(rs)[rs[i].name] == rs[i].ino
  {
    var a, m, c := rs[..i], [rs[i]], rs[i + 1..];
    assert rs == a + m + c;
    ViewAround(a, m, c);
    ViewHas(a, rs[i].name);
    forall k | 0 <= k < i ensures a[k].name != rs[i].name { assert a[k] == rs[k]; }
    assert View(m) == map[rs[i].name := rs[i].ino] by { assert m[1..] == []; }
  }

  // ---- adding ----------------------------------------------------------------------------------

  predicate NoneFits(rs: seq<Rec>, need: nat) { forall i :: 0 <= i < |rs| ==> !Fits(rs[i], need) }

  lemma {:induction false} FirstFitSkips(rs: seq<Rec>, need: nat)
    ensures NoneFits(rs[..FirstFit(rs, need)], need)
  {
    if rs != [] && !Fits(rs[0], need) {
      FirstFitSkips(rs[1..], need);
      var i := FirstFit(rs[1..], need);
      assert rs[..i + 1] == [rs[0]] + rs[1..][..i];
    }
  }

  lemma {:induction false} FirstFitIs(a: seq<Rec>, b: seq<Rec>, need: nat)
    requires NoneFits(a, need) && (b != [] ==> Fits(b[0], need))
    ensures FirstFit(a + b, need) == |a|
  {
    if a == [] {
      assert a + b == b;
    } else {
      assert (a + b)[1..] == a[1..] + b;
      FirstFitIs(a[1..], b, need);
    }
  }

  /** Freed records of the new name all lie after the place the entry goes to. */
  lemma FreedNamesakesAfter(rs: seq<Rec>, e: Entry, k: nat)
    requires RecsOk(rs) && e.name !in View(rs) && k < |rs| && rs[k].name == e.name
    ensures FirstFit(rs, Size(|e.name|)) <= k
  {
    ViewHas(rs, e.name);
    FirstFitSkips(rs, Size(|e.name|));
    var i := FirstFit(rs, Size(|e.name|));
    assert Fits(rs[k], Size(|e.name|));
    assert forall j :: 0 <= j < i ==> rs[..i][j] == rs[j];
  }

  lemma PlaceOk(r: Rec, e: Entry)
    requires RecOk(r) && EntryOk(e) && Fits(r, Size(|e.name|))
    ensures RecsOk(Place(r, e)) && SpanOf(Place(r, e)) == r.len
    ensures !(r.name == e.name && r.ino != 0) ==> View(Place(r, e)) == View([r])[e.name := e.ino]
  {
    hide Size, View, SpanOf;
    SizePadded(|r.name|);
    One(r);
    if r.ino != 0 {
      var s, n := r.(len := Used(r)), Rec(e.ino, r.len - Used(r), e.kind, e.name);
      Two(s, n);
      One(s);
      One(n);
      assert r.name != e.name ==> map[e.name := e.ino] + map[r.name := r.ino] == map[r.name := r.ino][e.name := e.ino];
    } else {
      One(Rec(e.ino, r.len, e.kind, e.name));
    }
  }

  lemma SizePadded(n: nat)
    ensures Size(n) % 8 == 0 && 8 + n <= Size(n) < 8 + n + 8
  {
  }

  lemma One(r: Rec)
    ensures SpanOf([r]) == r.len && View([r]) == if r.ino != 0 then map[r.name := r.ino] else map[]
  {
    assert [r][1..] == [];
  }

  lemma Two(r: Rec, s: Rec)
    ensures SpanOf([r, s]) == r.len + s.len && View([r, s]) == View([s]) + View([r])
  {
    assert [r, s] == [r] + [s];
    ViewAppend([r], [s]);
    SpanAppend([r], [s]);
    One(r);
    One(s);
  }

  lemma SpanAround(a: seq<Rec>, m: seq<Rec>, c: seq<Rec>)
    ensures SpanOf(a + m + c) == SpanOf(a) + SpanOf(m) + SpanOf(c)
  {
    SpanAppend(a + m, c);
    SpanAppend(a, m);
  }

  lemma {:induction false} SpanAppend(a: seq<Rec>, b: seq<Rec>)
    ensures SpanOf(a + b) == SpanOf(a) + SpanOf(b)
  {
    if a == [] {
      assert a + b == b;
    } else {
      assert (a + b)[1..] == a[1..] + b;
      SpanAppend(a[1..], b);
    }
  }

  /** Adding an absent name binds it and nothing else, and keeps the record invariants. */
  lemma AddRefines(rs: seq<Rec>, e: Entry)
    requires RecsOk(rs) && OnlyFirstLive(rs) && EntryOk(e) && e.name !in View(rs)
    ensures View(Add(rs, e)) == View(rs)[e.name := e.ino]
    ensures RecsOk(Add(rs, e)) && OnlyFirstLive(Add(rs, e))
    ensures SpanOf(Add(rs, e)) == SpanOf(rs) + if HasRoom(rs, e) then 0 else BS
  {
    hide Size, View, SpanOf, FirstFit, Place, OnlyFirstLive;
    var need := Size(|e.name|);
    var i := FirstFit(rs, need);
    var fresh' := [Rec(e.ino, BS, e.kind, e.name)];
    ViewHas(rs, e.name);
    if i < |rs| {
      var a, c := rs[..i], rs[i + 1..];
      var m := [rs[i]];
      assert rs == a + m + c;
      PlaceOk(rs[i], e);
      ViewAround(a, m, c);
      ViewAround(a, Place(rs[i], e), c);
      SpanAround(a, m, c);
      SpanAround(a, Place(rs[i], e), c);
      One(rs[i]);
      AddKeepsFirst(rs, e);
      ViewHas(a, e.name);
      forall k | 0 <= k < |a| ensures !(a[k].name == e.name && a[k].ino != 0) { assert a[k] == rs[k]; }
      AddedView(View(a), View(m), View(c), e.name, e.ino);
    } else {
      ViewAppend(rs, fresh');
      SpanAppend(rs, fresh');
      One(fresh'[0]);
      AddKeepsFirst(rs, e);
    }
  }

  /** Adding a name that is bound makes two live records of it. */
  lemma AddTwice(rs: seq<Rec>, e: Entry)
    requires RecsOk(rs) && EntryOk(e) && e.name in View(rs)
    ensures !OnlyFirstLive(Add(rs, e))
  {
    ViewHas(rs, e.name);
    hide View, RecOk, Size, FirstFit;
    var k :| 0 <= k < |rs| && rs[k].name == e.name && rs[k].ino != 0;
    var i, u := FirstFit(rs, Size(|e.name|)), Add(rs, e);
    if i == |rs| {
      assert u[k] == rs[k] && u[i].name == e.name && u[i].ino != 0;
    } else if rs[i].ino == 0 {
      assert u[k] == rs[k] && u[i].name == e.name && u[i].ino != 0;
    } else {
      assert u[i + 1].name == e.name && u[i + 1].ino != 0;
      assert k <= i ==> u[k].name == e.name && u[k].ino != 0;
      assert k > i ==> u[k + 1] == rs[k];
    }
  }

  lemma AddedView(a: map<Name, nat>, m: map<Name, nat>, c: map<Name, nat>, n: Name, ino: nat)
    requires n !in a
    ensures c + m[n := ino] + a == (c + m + a)[n := ino]
  {
  }

  lemma AddKeepsFirst(rs: seq<Rec>, e: Entry)
    requires RecsOk(rs) && OnlyFirstLive(rs) && EntryOk(e) && e.name !in View(rs)
    ensures RecsOk(Add(rs, e)) && OnlyFirstLive(Add(rs, e))
  {
    hide Size, View, FirstFit;
    var need := Size(|e.name|);
    var i := FirstFit(rs, need);
    var out := Add(rs, e);
    ViewHas(rs, e.name);
    SizePadded(|e.name|);
    forall k | 0 <= k < |rs| && rs[k].name == e.name ensures i <= k && rs[k].ino == 0 {
      FreedNamesakesAfter(rs, e, k);
    }
    if i < |rs| {
      PlaceOk(rs[i], e);
      if rs[i].ino != 0 {
        AddSplitKeeps(rs, i, out[i], out[i + 1]);
      } else {
        assert out == rs[i := out[i]];
      }
    }
  }

  /** Splitting a live record in two keeps the order of all others. */
  lemma AddSplitKeeps(rs: seq<Rec>, i: nat, r: Rec, n: Rec)
    requires i < |rs| && OnlyFirstLive(rs) && r.name == rs[i].name && r.ino == rs[i].ino
    requires forall k :: 0 <= k < |rs| && rs[k].name == n.name ==> i < k && rs[k].ino == 0
    ensures OnlyFirstLive(rs[..i] + [r, n] + rs[i + 1..])
  {
    var out := rs[..i] + [r, n] + rs[i + 1..];
    forall x, y | 0 <= x < y < |out| && out[x].name == out[y].name ensures out[y].ino == 0 {
      assert x < i ==> out[x] == rs[x];
      assert y < i ==> out[y] == rs[y];
      assert x > i + 1 ==> out[x] == rs[x - 1];
      assert y > i + 1 ==> out[y] == rs[y - 1];
    }
  }

  // ---- removing and finding --------------------------------------------------------------------

  predicate NoneNamed(rs: seq<Rec>, name: Name) { forall i :: 0 <= i < |rs| ==> rs[i].name != name }

  lemma {:induction false} FirstNamedSkips(rs: seq<Rec>, name: Name)
    ensures NoneNamed(rs[..FirstNamed(rs, name)], name)
  {
    if rs != [] && rs[0].name != name {
      FirstNamedSkips(rs[1..], name);
      var i := FirstNamed(rs[1..], name);
      assert rs[..i + 1] == [rs[0]] + rs[1..][..i];
    }
  }

  lemma {:induction false} FirstNamedIs(a: seq<Rec>, b: seq<Rec>, name: Name)
    requires NoneNamed(a, name) && (b != [] ==> b[0].name == name)
    ensures FirstNamed(a + b, name) == |a|
  {
    if a == [] {
      assert a + b == b;
    } else {
      assert (a + b)[1..] == a[1..] + b;
      FirstNamedIs(a[1..], b, name);
    }
  }

  /** Removal unbinds exactly the name, although it stops at the first record bearing it. */
  lemma RemoveRefines(rs: seq<Rec>, name: Name)
    requires RecsOk(rs) && OnlyFirstLive(rs)
    ensures View(Remove(rs, name)) == View(rs) - {name}
    ensures RecsOk(Remove(rs, name)) && OnlyFirstLive(Remove(rs, name))
    ensures SpanOf(Remove(rs, name)) == SpanOf(rs)
  {
    hide Size, View, SpanOf, FirstNamed;
    var i := FirstNamed(rs, name);
    FirstNamedSkips(rs, name);
    if i == |rs| {
      assert rs[..i] == rs;
      ViewHas(rs, name);
    } else {
      var a, c, freed := rs[..i], rs[i + 1..], rs[i].(ino := 0);
      assert rs == a + [rs[i]] + c && Remove(rs, name) == a + [freed] + c;
      ViewAround(a, [rs[i]], c);
      ViewAround(a, [freed], c);
      SpanAround(a, [rs[i]], c);
      SpanAround(a, [freed], c);
      One(rs[i]);
      One(freed);
      ViewHas(a, name);
      ViewHas(c, name);
      forall k | 0 <= k < |c| && c[k].name == name ensures c[k].ino == 0 { assert c[k] == rs[i + 1 + k]; }
      RemovedView(View(a), View([rs[i]]), View(c), name);
    }
  }

  lemma RemovedView(a: map<Name, nat>, m: map<Name, nat>, c: map<Name, nat>, n: Name)
    requires n !in a && n !in c && forall x :: x in m ==> x == n
    ensures c + map[] + a == (c + m + a) - {n}
  {
  }

  /** No record is live: the view is empty. */
  lemma EmptyView(rs: seq<Rec>)
    ensures View(rs) == map[] <==> forall i :: 0 <= i < |rs| ==> rs[i].ino == 0
  {
    if View(rs) != map[] {
      var n :| n in View(rs);
      ViewHas(rs, n);
    }
    forall i | 0 <= i < |rs| && View(rs) == map[] ensures rs[i].ino == 0 { ViewHas(rs, rs[i].name); }
  }

  // ---- the records themselves ----------------------------------------------------------------------

  /** The live records with their kinds, however they lie in the blocks. */
  function Entries(rs: seq<Rec>): multiset<Entry> {
    if rs == [] then multiset{}
    else Entries(rs[1..]) + if rs[0].ino != 0 then multiset{Entry(rs[0].ino, rs[0].kind, rs[0].name)} else multiset{}
  }

  lemma {:induction false} EntriesAppend(a: seq<Rec>, b: seq<Rec>)
    ensures Entries(a + b) == Entries(a) + Entries(b)
  {
    if a == [] {
      assert a + b == b;
    } else {
      assert (a + b)[1..] == a[1..] + b;
      EntriesAppend(a[1..], b);
    }
  }

  lemma EntriesAt(rs: seq<Rec>, i: nat, mid: seq<Rec>)
    requires i < |rs|
    ensures Entries(rs) == Entries(rs[..i]) + Entries([rs[i]]) + Entries(rs[i + 1..])
    ensures Entries(rs[..i] + mid + rs[i + 1..]) == Entries(rs[..i]) + Entries(mid) + Entries(rs[i + 1..])
  {
    assert rs == rs[..i] + [rs[i]] + rs[i + 1..];
    EntriesAppend(rs[..i] + [rs[i]], rs[i + 1..]);
    EntriesAppend(rs[..i], [rs[i]]);
    EntriesAppend(rs[..i] + mid, rs[i + 1..]);
    EntriesAppend(rs[..i], mid);
  }

  lemma OneEntry(r: Rec)
    ensures Entries([r]) == if r.ino != 0 then multiset{Entry(r.ino, r.kind, r.name)} else multiset{}
  {
    assert [r][1..] == [];
  }

  lemma Regroup(a: multiset<Entry>, m: multiset<Entry>, c: multiset<Entry>, x: multiset<Entry>)
    ensures a + (m + x) + c == (a + m + c) + x
    ensures a + multiset{} + c == (a + m + c) - m
  {
  }

  /** Adding adds exactly the entry, with its kind, and moves or changes no other. */
  lemma AddEntries(rs: seq<Rec>, e: Entry)
    requires RecsOk(rs) && EntryOk(e)
    ensures Entries(Add(rs, e)) == Entries(rs) + multiset{e}
  {
    hide Entries, Place, FirstFit, Size;
    var i := FirstFit(rs, Size(|e.name|));
    if i < |rs| {
      PlaceEntries(rs[i], e);
      EntriesAt(rs, i, Place(rs[i], e));
      Regroup(Entries(rs[..i]), Entries([rs[i]]), Entries(rs[i + 1..]), multiset{e});
    } else {
      OneEntry(Rec(e.ino, BS, e.kind, e.name));
      EntriesAppend(rs, [Rec(e.ino, BS, e.kind, e.name)]);
    }
  }

  lemma PlaceEntries(r: Rec, e: Entry)
    requires RecOk(r) && EntryOk(e)
    ensures Entries(Place(r, e)) == Entries([r]) + multiset{e}
  {
    var p := Place(r, e);
    hide Entries;
    OneEntry(r);
    OneEntry(p[|p| - 1]);
    if r.ino != 0 {
      OneEntry(p[0]);
      EntriesAppend([p[0]], [p[1]]);
      assert p == [p[0]] + [p[1]];
    } else {
      assert p == [p[0]];
    }
  }

  /** Removing takes exactly the first record of the name, if that is live. */
  lemma RemoveEntries(rs: seq<Rec>, name: Name)
    ensures var i := FirstNamed(rs, name);
            Entries(Remove(rs, name)) ==
            if i < |rs| && rs[i].ino != 0 then Entries(rs) - multiset{Entry(rs[i].ino, rs[i].kind, name)}
            else Entries(rs)
  {
    hide Entries, FirstNamed;
    var i := FirstNamed(rs, name);
    if i < |rs| {
      var freed := rs[i].(ino := 0);
      OneEntry(rs[i]);
      OneEntry(freed);
      EntriesAt(rs, i, [freed]);
      assert Remove(rs, name) == rs[..i] + [freed] + rs[i + 1..];
      Regroup(Entries(rs[..i]), Entries([rs[i]]), Entries(rs[i + 1..]), multiset{});
    }
  }
}
