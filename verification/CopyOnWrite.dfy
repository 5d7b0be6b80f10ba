/** Copy-on-write sharing, on values: page tables of any number of address
    spaces over a common stock of pages. S and P are the identities of spaces
    and pages; Paging.dfy instantiates them with the objects themselves. */
module CopyOnWrite {
  import opened Words
  import opened FlatMemory
  import Buffers

  type Bytes = Buffers.Bytes

  /** What one address space holds, page by page and with no sharing: the flat
      memory that each space is meant to behave as. */
  type Flat = map<int, Bytes>

  function Zeros(): Bytes
    ensures |Zeros()| == PAGE
  {
    Buffers.Zeros(PAGE)
  }

  function Patch(b: Bytes, i: nat, v: U8): Bytes {
    if i < |b| then b[i := v] else b
  }

  /** A page's bytes, its permission and its sharing bookkeeping. The permission
      belongs to the page, so sharers see each other's changes of it. */
  datatype Info = Info(data: Bytes, perm: Perm, shared: bool, refCount: nat)

  datatype Forks<S(==), P(==)> = Forks(tables: map<S, map<int, P>>, pages: map<P, Info>)

  /** The spaces that map page p under number no. */
  ghost function Mappers<S, P>(w: Forks<S, P>, no: int, p: P): set<S> {
    set s | s in w.tables && no in w.tables[s] && w.tables[s][no] == p
  }

  ghost predicate PageOk<S, P>(w: Forks<S, P>, no: int, p: P) {
    && p in w.pages
    && |w.pages[p].data| == PAGE
    && (w.pages[p].shared <==> w.pages[p].refCount > 1)
    && |Mappers(w, no, p)| <= w.pages[p].refCount
  }

  ghost predicate Maps<S, P>(w: Forks<S, P>, older s: S, no: int) { s in w.tables && no in w.tables[s] }

  /** The bookkeeping invariant: a page keeps its number, is marked shared exactly
      when its count exceeds one, and is mapped by no more spaces than it counts. */
  ghost predicate Inv<S, P>(w: Forks<S, P>) {
    && (forall s, no :: Maps(w, s, no) ==> PageOk(w, no, w.tables[s][no]))
    && (forall s, s', no, no' ::
          (Maps(w, s, no) && Maps(w, s', no') && w.tables[s][no] == w.tables[s'][no']) ==> no == no')
  }

  ghost function View<S, P>(w: Forks<S, P>, s: S): Flat
    requires Inv(w) && s in w.tables
  {
    map no | no in w.tables[s] :: Data(w, s, no)
  }

  ghost function Data<S, P>(w: Forks<S, P>, s: S, no: int): Bytes
    requires Inv(w) && Maps(w, s, no)
  {
    assert PageOk(w, no, w.tables[s][no]);
    w.pages[w.tables[s][no]].data
  }

  ghost function Views<S, P>(w: Forks<S, P>): map<S, Flat>
    requires Inv(w)
  {
    map s | s in w.tables :: View(w, s)
  }

  ghost function PermOf<S, P>(w: Forks<S, P>, s: S, no: int): Perm
    requires Inv(w) && Maps(w, s, no)
  {
    assert PageOk(w, no, w.tables[s][no]);
    w.pages[w.tables[s][no]].perm
  }

  /** Every space maps the same pages with the same permissions. */
  ghost predicate SamePerms<S, P>(w: Forks<S, P>, w': Forks<S, P>)
    requires Inv(w) && Inv(w')
  {
    && w'.tables.Keys == w.tables.Keys
    && (forall s :: s in w.tables ==> w'.tables[s].Keys == w.tables[s].Keys)
    && (forall s, no :: Maps(w, s, no) && Maps(w', s, no) ==> PermOf(w', s, no) == PermOf(w, s, no))
  }

  /** What an address space can do, one page at a time. `page` is the page object
      allocated when the step needs a new one, `child` the new address space. */
  datatype Step<S, P> =
    | WriteByte(s: S, no: int, off: nat, v: U8, page: P)
    | MapPage(s: S, no: int, perm: Perm, page: P)
    | ProtectPage(s: S, no: int, perm: Perm)
    | UnmapPage(s: S, no: int)
    | Fork(s: S, child: S)

  /** The test of `write8` before it stores. */
  ghost predicate MustCopy<S, P>(w: Forks<S, P>, s: S, no: int)
    requires Maps(w, s, no)
  {
    var p := w.tables[s][no];
    p in w.pages && w.pages[p].shared && w.pages[p].refCount > 1
  }

  ghost predicate Enabled<S, P>(w: Forks<S, P>, step: Step<S, P>) {
    && step.s in w.tables
    && (step.WriteByte? ==>
          step.off < PAGE && step.no in w.tables[step.s] && (MustCopy(w, step.s, step.no) ==> step.page !in w.pages))
    && (step.MapPage? && step.no !in w.tables[step.s] ==> step.page !in w.pages)
    && (step.ProtectPage? ==> step.no in w.tables[step.s])
    && (step.Fork? ==> step.child !in w.tables)
  }

  /** The copy-on-write branch of `write8`. */
  ghost function Unshare<S, P>(w: Forks<S, P>, s: S, no: int, page: P): Forks<S, P>
    requires Inv(w) && Maps(w, s, no)
  {
    var p := w.tables[s][no];
    assert PageOk(w, no, p);
    var i := w.pages[p];
    if MustCopy(w, s, no) then
      Forks(w.tables[s := w.tables[s][no := page]],
            w.pages[p := i.(refCount := i.refCount - 1, shared := i.refCount - 1 > 1)]
                   [page := Info(i.data, i.perm, false, 1)])
    else w
  }

  /** The store of `write8`, in place. */
  ghost function Poke<S, P>(w: Forks<S, P>, s: S, no: int, off: nat, v: U8): Forks<S, P>
    requires Inv(w) && Maps(w, s, no)
  {
    var p := w.tables[s][no];
    assert PageOk(w, no, p);
    w.(pages := w.pages[p := w.pages[p].(data := Patch(w.pages[p].data, off, v))])
  }

  ghost function Protect<S, P>(w: Forks<S, P>, s: S, no: int, perm: Perm): Forks<S, P>
    requires Inv(w) && Maps(w, s, no)
  {
    var p := w.tables[s][no];
    assert PageOk(w, no, p);
    w.(pages := w.pages[p := w.pages[p].(perm := perm)])
  }

  ghost predicate Holds<P>(table: map<int, P>, p: P) { exists i :: i in table && table[i] == p }

  ghost function Share(i: Info): Info { i.(shared := true, refCount := i.refCount + 1) }

  ghost function Apply<S, P>(w: Forks<S, P>, step: Step<S, P>): Forks<S, P>
    requires Inv(w) && Enabled(w, step)
  {
    match step
    case WriteByte(s, no, off, v, page) =>
      UnshareInv(w, s, no, page);
      Poke(Unshare(w, s, no, page), s, no, off, v)
    case MapPage(s, no, perm, page) =>
      if no in w.tables[s] then Protect(w, s, no, perm)
      else Forks(w.tables[s := w.tables[s][no := page]], w.pages[page := Info(Zeros(), perm, false, 1)])
    case ProtectPage(s, no, perm) => Protect(w, s, no, perm)
    case UnmapPage(s, no) => w.(tables := w.tables[s := w.tables[s] - {no}])
    case Fork(s, child) =>
      Forks(w.tables[child := w.tables[s]],
            map p | p in w.pages :: if Holds(w.tables[s], p) then Share(w.pages[p]) else w.pages[p])
  }

  /** The same step on private flat memories. */
  ghost function FlatApply<S, P>(f: map<S, Flat>, step: Step<S, P>): map<S, Flat> {
    if step.s !in f then f
    else
      var mine: Flat := f[step.s];
      match step
      case WriteByte(s, no, off, v, _) => if no in mine then f[s := mine[no := Patch(mine[no], off, v)]] else f
      case MapPage(s, no, _, _) => f[s := FlatAdd(mine, no)]
      case ProtectPage(_, _, _) => f
      case UnmapPage(s, no) => f[s := mine - {no}]
      case Fork(s, child) => f[child := mine]
  }

  // ---- preservation ----------------------------------------------------------------------

  lemma CardinalitySubset<T>(a: set<T>, b: set<T>)
    requires a <= b
    ensures |a| <= |b|
  {
    assert b == a + (b - a);
  }

  /** A page that counts one mapper is mapped by no other space. */
  lemma Sole<S, P>(w: Forks<S, P>, s: S, no: int, s': S, no': int)
    requires Inv(w) && Maps(w, s, no) && Maps(w, s', no') && w.tables[s][no] == w.tables[s'][no']
    requires PageOk(w, no, w.tables[s][no]) && w.pages[w.tables[s][no]].refCount <= 1
    ensures s' == s && no' == no
  {
    assert no' == no;
    CardinalitySubset({s, s'}, Mappers(w, no, w.tables[s][no]));
  }

  /** How a page may fare without breaking its bookkeeping. */
  lemma StillOk<S, P>(w: Forks<S, P>, w': Forks<S, P>, no: int, p: P)
    requires PageOk(w, no, p) && p in w'.pages && w'.pages[p] == w.pages[p]
    requires Mappers(w', no, p) <= Mappers(w, no, p)
    ensures PageOk(w', no, p)
  {
    CardinalitySubset(Mappers(w', no, p), Mappers(w, no, p));
  }

  lemma UnshareInv<S, P>(w: Forks<S, P>, s: S, no: int, page: P)
    requires Inv(w) && Maps(w, s, no) && (MustCopy(w, s, no) ==> page !in w.pages)
    ensures Inv(Unshare(w, s, no, page))
  {
    var p, w' := w.tables[s][no], Unshare(w, s, no, page);
    assert PageOk(w, no, p);
    if MustCopy(w, s, no) {
      forall t, i | Maps(w', t, i) ensures PageOk(w', i, w'.tables[t][i]) {
        var q := w'.tables[t][i];
        if t == s && i == no {
          assert Mappers(w', no, page) == {s};
        } else {
          assert Maps(w, t, i) && w.tables[t][i] == q && PageOk(w, i, q);
          if q == p {
            assert Mappers(w', no, p) == Mappers(w, no, p) - {s};
          } else {
            StillOk(w, w', i, q);
          }
        }
      }
    }
  }

  lemma UnshareData<S, P>(w: Forks<S, P>, s: S, no: int, page: P)
    requires Inv(w) && Maps(w, s, no) && (MustCopy(w, s, no) ==> page !in w.pages)
    ensures var w' := Unshare(w, s, no, page);
            && Inv(w') && w'.tables.Keys == w.tables.Keys
            && (forall t :: t in w.tables ==> w'.tables[t].Keys == w.tables[t].Keys)
            && forall t, i :: Maps(w, t, i) ==> Maps(w', t, i) && Data(w', t, i) == Data(w, t, i)
  {
    UnshareInv(w, s, no, page);
    hide Mappers;
    var w' := Unshare(w, s, no, page);
    assert PageOk(w, no, w.tables[s][no]);
    forall t, i | Maps(w, t, i) ensures Data(w', t, i) == Data(w, t, i) { assert PageOk(w, i, w.tables[t][i]); }
  }

  lemma UnshareSole<S, P>(w: Forks<S, P>, s: S, no: int, page: P)
    requires Inv(w) && Maps(w, s, no) && (MustCopy(w, s, no) ==> page !in w.pages)
    ensures var w' := Unshare(w, s, no, page);
            && Inv(w') && Maps(w', s, no)
            && PageOk(w', no, w'.tables[s][no]) && w'.pages[w'.tables[s][no]].refCount <= 1
  {
    UnshareInv(w, s, no, page);
    hide Mappers;
    var w' := Unshare(w, s, no, page);
    assert PageOk(w, no, w.tables[s][no]);
    assert Maps(w', s, no);
  }

  lemma UnshareKeeps<S, P>(w: Forks<S, P>, s: S, no: int, page: P)
    requires Inv(w) && Maps(w, s, no) && (MustCopy(w, s, no) ==> page !in w.pages)
    ensures var w' := Unshare(w, s, no, page);
            && Inv(w') && Maps(w', s, no) && Views(w') == Views(w)
            && PageOk(w', no, w'.tables[s][no]) && w'.pages[w'.tables[s][no]].refCount <= 1
  {
    hide Inv, Data, PageOk, Mappers, Unshare;
    UnshareData(w, s, no, page);
    UnshareSole(w, s, no, page);
    var w' := Unshare(w, s, no, page);
    forall t | t in w.tables ensures View(w', t) == View(w, t) {
      assert forall i :: i in w.tables[t] ==> Maps(w, t, i);
    }
  }

  /** A store changes no permission. */
  lemma WriteKeepsPerms<S, P>(w: Forks<S, P>, s: S, no: int, off: nat, v: U8, page: P)
    requires Inv(w) && Enabled(w, WriteByte(s, no, off, v, page))
    ensures Inv(Apply(w, WriteByte(s, no, off, v, page))) && SamePerms(w, Apply(w, WriteByte(s, no, off, v, page)))
  {
    UnshareInv(w, s, no, page);
    var m := Unshare(w, s, no, page);
    PokeInv(m, s, no, off, v);
    var w' := Poke(m, s, no, off, v);
    forall t, i | Maps(w, t, i) ensures Maps(w', t, i) && PermOf(w', t, i) == PermOf(w, t, i) {
      assert PageOk(w, i, w.tables[t][i]) && PageOk(m, i, m.tables[t][i]);
    }
  }

  lemma PokeInv<S, P>(w: Forks<S, P>, s: S, no: int, off: nat, v: U8)
    requires Inv(w) && Maps(w, s, no)
    ensures Inv(Poke(w, s, no, off, v)) && Poke(w, s, no, off, v).tables == w.tables
  {
    var w' := Poke(w, s, no, off, v);
    forall t, i | Maps(w', t, i) ensures PageOk(w', i, w'.tables[t][i]) {
      assert PageOk(w, i, w.tables[t][i]);
      assert Mappers(w', i, w.tables[t][i]) == Mappers(w, i, w.tables[t][i]);
    }
  }

  lemma PokeData<S, P>(w: Forks<S, P>, s: S, no: int, off: nat, v: U8)
    requires Inv(w) && Maps(w, s, no)
    requires PageOk(w, no, w.tables[s][no]) && w.pages[w.tables[s][no]].refCount <= 1
    ensures Inv(Poke(w, s, no, off, v)) && Poke(w, s, no, off, v).tables == w.tables
    ensures forall t, i :: Maps(w, t, i) ==>
              Data(Poke(w, s, no, off, v), t, i) == if t == s && i == no then Patch(Data(w, s, no), off, v) else Data(w, t, i)
  {
    PokeInv(w, s, no, off, v);
    var p, w' := w.tables[s][no], Poke(w, s, no, off, v);
    forall t, i | Maps(w, t, i)
      ensures Data(w', t, i) == if t == s && i == no then Patch(Data(w, s, no), off, v) else Data(w, t, i)
    {
      if w.tables[t][i] == p { Sole(w, s, no, t, i); }
    }
  }

  lemma PokeKeeps<S, P>(w: Forks<S, P>, s: S, no: int, off: nat, v: U8)
    requires Inv(w) && Maps(w, s, no) && off < PAGE
    requires PageOk(w, no, w.tables[s][no]) && w.pages[w.tables[s][no]].refCount <= 1
    ensures var w' := Poke(w, s, no, off, v);
            && Inv(w') && w'.tables == w.tables
            && Views(w') == Views(w)[s := View(w, s)[no := Patch(View(w, s)[no], off, v)]]
  {
    hide Inv, Data, PageOk, Poke;
    PokeData(w, s, no, off, v);
    var w' := Poke(w, s, no, off, v);
    OnlyOneView(w, w', s);
    assert View(w', s) == View(w, s)[no := Patch(View(w, s)[no], off, v)] by {
      assert forall i :: i in w.tables[s] ==> Maps(w, s, i);
    }
  }

  lemma ProtectKeeps<S, P>(w: Forks<S, P>, s: S, no: int, perm: Perm)
    requires Inv(w) && Maps(w, s, no)
    ensures Inv(Protect(w, s, no, perm)) && Views(Protect(w, s, no, perm)) == Views(w)
  {
    var w' := Protect(w, s, no, perm);
    forall t, i | Maps(w', t, i) ensures PageOk(w', i, w'.tables[t][i]) {
      assert PageOk(w, i, w.tables[t][i]);
      assert Mappers(w', i, w.tables[t][i]) == Mappers(w, i, w.tables[t][i]);
    }
    forall t | t in w.tables ensures View(w', t) == View(w, t) {
      assert forall i :: i in w.tables[t] ==> Maps(w, t, i);
    }
  }

  lemma MapInv<S, P>(w: Forks<S, P>, s: S, no: int, perm: Perm, page: P)
    requires Inv(w) && s in w.tables && no !in w.tables[s] && page !in w.pages
    ensures Inv(Apply(w, MapPage(s, no, perm, page)))
  {
    var w' := Apply(w, MapPage(s, no, perm, page));
    forall t, i | Maps(w, t, i) ensures w.tables[t][i] in w.pages { assert PageOk(w, i, w.tables[t][i]); }
    forall t, i | Maps(w', t, i) ensures PageOk(w', i, w'.tables[t][i]) {
      var q := w'.tables[t][i];
      if t == s && i == no {
        assert forall r :: r in w.tables && no in w.tables[r] ==> Maps(w, r, no);
        assert Mappers(w', no, page) == {s};
      } else {
        assert Maps(w, t, i) && PageOk(w, i, q);
        StillOk(w, w', i, q);
      }
    }
  }

  lemma MapData<S, P>(w: Forks<S, P>, s: S, no: int, perm: Perm, page: P)
    requires Inv(w) && s in w.tables && no !in w.tables[s] && page !in w.pages
    ensures var w' := Apply(w, MapPage(s, no, perm, page));
            && Inv(w') && w'.tables == w.tables[s := w.tables[s][no := page]] && Data(w', s, no) == Zeros()
            && forall t, i :: Maps(w, t, i) ==> Maps(w', t, i) && Data(w', t, i) == Data(w, t, i)
  {
    MapInv(w, s, no, perm, page);
    var w' := Apply(w, MapPage(s, no, perm, page));
    hide Mappers;
    forall t, i | Maps(w, t, i) ensures Data(w', t, i) == Data(w, t, i) { assert PageOk(w, i, w.tables[t][i]); }
  }

  lemma MapKeeps<S, P>(w: Forks<S, P>, s: S, no: int, perm: Perm, page: P)
    requires Inv(w) && s in w.tables && no !in w.tables[s] && page !in w.pages
    ensures var w' := Apply(w, MapPage(s, no, perm, page));
            Inv(w') && Views(w') == Views(w)[s := View(w, s)[no := Zeros()]]
  {
    hide Inv, Data, PageOk, Mappers, Apply;
    MapData(w, s, no, perm, page);
    var w' := Apply(w, MapPage(s, no, perm, page));
    OnlyOneView(w, w', s);
    assert View(w', s) == View(w, s)[no := Zeros()] by {
      assert forall i :: i in w.tables[s] ==> Maps(w, s, i);
    }
  }

  /** Space t maps the same page objects in both, and each holds the same bytes. */
  ghost predicate SameSpace<S, P>(w: Forks<S, P>, w': Forks<S, P>, t: S)
    requires Inv(w) && Inv(w') && t in w.tables && t in w'.tables
  {
    w'.tables[t].Keys == w.tables[t].Keys && forall i :: Maps(w, t, i) && Maps(w', t, i) ==> Data(w', t, i) == Data(w, t, i)
  }

  /** If all spaces but s are the same, only the view of s can be new. */
  lemma OnlyOneView<S, P>(w: Forks<S, P>, w': Forks<S, P>, s: S)
    requires Inv(w) && Inv(w') && w'.tables.Keys == w.tables.Keys + {s}
    requires forall t :: t in w.tables && t != s ==> SameSpace(w, w', t)
    ensures Views(w') == Views(w)[s := View(w', s)]
  {
    hide Inv, Data;
    forall t | t in w.tables && t != s ensures View(w', t) == View(w, t) {
      assert SameSpace(w, w', t);
      assert forall i :: i in w.tables[t] ==> Maps(w, t, i) && Maps(w', t, i);
    }
  }

  lemma UnmapData<S, P>(w: Forks<S, P>, s: S, no: int)
    requires Inv(w) && s in w.tables
    ensures var w' := Apply(w, UnmapPage(s, no));
            && Inv(w') && w'.tables == w.tables[s := w.tables[s] - {no}]
            && forall t, i :: Maps(w', t, i) ==> Maps(w, t, i) && Data(w', t, i) == Data(w, t, i)
  {
    var w' := Apply(w, UnmapPage(s, no));
    forall t, i | Maps(w', t, i) ensures PageOk(w', i, w'.tables[t][i]) {
      assert Maps(w, t, i) && PageOk(w, i, w.tables[t][i]);
      StillOk(w, w', i, w.tables[t][i]);
    }
  }

  lemma UnmapKeeps<S, P>(w: Forks<S, P>, s: S, no: int)
    requires Inv(w) && s in w.tables
    ensures var w' := Apply(w, UnmapPage(s, no));
            Inv(w') && Views(w') == Views(w)[s := View(w, s) - {no}]
  {
    hide Inv, Data, PageOk, Mappers, Apply;
    UnmapData(w, s, no);
    var w' := Apply(w, UnmapPage(s, no));
    OnlyOneView(w, w', s);
    assert View(w', s) == View(w, s) - {no} by {
      assert forall i :: i in w'.tables[s] ==> Maps(w', s, i) && Maps(w, s, i);
    }
  }

  lemma ForkInv<S, P>(w: Forks<S, P>, s: S, child: S)
    requires Inv(w) && s in w.tables && child !in w.tables
    ensures Inv(Apply(w, Fork(s, child)))
  {
    var w' := Apply(w, Fork(s, child));
    forall t, i | Maps(w', t, i) ensures PageOk(w', i, w'.tables[t][i]) {
      ForkPageOk(w, s, child, if t == child then s else t, i);
    }
  }

  lemma ForkPageOk<S, P>(w: Forks<S, P>, s: S, child: S, r: S, i: int)
    requires Inv(w) && s in w.tables && child !in w.tables && Maps(w, r, i)
    ensures PageOk(Apply(w, Fork(s, child)), i, w.tables[r][i])
  {
    var w', q := Apply(w, Fork(s, child)), w.tables[r][i];
    assert PageOk(w, i, q);
    if Holds(w.tables[s], q) {
      var j :| j in w.tables[s] && w.tables[s][j] == q;
      assert Maps(w, s, j);
      assert Mappers(w', i, q) == Mappers(w, i, q) + {child};
      CardinalitySubset({r}, Mappers(w, i, q));
    } else {
      StillOk(w, w', i, q);
    }
  }

  lemma ForkData<S, P>(w: Forks<S, P>, s: S, child: S)
    requires Inv(w) && s in w.tables && child !in w.tables
    ensures var w' := Apply(w, Fork(s, child));
            && Inv(w') && w'.tables == w.tables[child := w.tables[s]]
            && (forall t, i :: Maps(w, t, i) ==> Maps(w', t, i) && Data(w', t, i) == Data(w, t, i))
            && forall i :: Maps(w, s, i) ==> Maps(w', child, i) && Data(w', child, i) == Data(w, s, i)
  {
    ForkInv(w, s, child);
    hide Mappers, Holds;
    var w' := Apply(w, Fork(s, child));
    forall t, i | Maps(w, t, i) ensures Data(w', t, i) == Data(w, t, i) { assert PageOk(w, i, w.tables[t][i]); }
    forall i | Maps(w, s, i) ensures Data(w', child, i) == Data(w, s, i) { assert PageOk(w, i, w.tables[s][i]); }
  }

  lemma ForkKeeps<S, P>(w: Forks<S, P>, s: S, child: S)
    requires Inv(w) && s in w.tables && child !in w.tables
    ensures var w' := Apply(w, Fork(s, child));
            Inv(w') && Views(w') == Views(w)[child := View(w, s)]
  {
    hide Inv, Data, PageOk, Mappers, Apply;
    ForkData(w, s, child);
    var w' := Apply(w, Fork(s, child));
    OnlyOneView(w, w', child);
    assert View(w', child) == View(w, s) by {
      assert forall i :: i in w.tables[s] ==> Maps(w, s, i);
    }
  }

  /** One step of any space, seen from all of them: the bookkeeping is kept, and
      the spaces' contents change exactly as private flat memories would. */
  lemma StepIsolates<S, P>(w: Forks<S, P>, step: Step<S, P>)
    requires Inv(w) && Enabled(w, step)
    ensures Inv(Apply(w, step)) && Views(Apply(w, step)) == FlatApply(Views(w), step)
  {
    match step
    case WriteByte(s, no, off, v, page) =>
      UnshareKeeps(w, s, no, page);
      PokeKeeps(Unshare(w, s, no, page), s, no, off, v);
    case MapPage(s, no, perm, page) => if no !in w.tables[s] { MapKeeps(w, s, no, perm, page); } else { ProtectKeeps(w, s, no, perm); }
    case ProtectPage(s, no, perm) => ProtectKeeps(w, s, no, perm);
    case UnmapPage(s, no) => UnmapKeeps(w, s, no);
    case Fork(s, child) => ForkKeeps(w, s, child);
  }

  // ---- whole runs -------------------------------------------------------------------------

  ghost predicate Feasible<S, P>(w: Forks<S, P>, steps: seq<Step<S, P>>)
    requires Inv(w)
    decreases |steps|
  {
    steps != [] ==>
      && Enabled(w, steps[0])
      && (StepIsolates(w, steps[0]); Feasible(Apply(w, steps[0]), steps[1..]))
  }

  ghost function Run<S, P>(w: Forks<S, P>, steps: seq<Step<S, P>>): Forks<S, P>
    requires Inv(w) && Feasible(w, steps)
    decreases |steps|
  {
    if steps == [] then w else (StepIsolates(w, steps[0]); Run(Apply(w, steps[0]), steps[1..]))
  }

  ghost function FlatRun<S, P>(f: map<S, Flat>, steps: seq<Step<S, P>>): map<S, Flat>
    decreases |steps|
  {
    if steps == [] then f else FlatRun(FlatApply(f, steps[0]), steps[1..])
  }

  /** Content isolation for arbitrary fork trees: over any interleaving of stores,
      mappings, unmappings and copy-on-write forks by any number of spaces, every
      space reads exactly what a memory of its own would hold, and the bookkeeping
      invariant is never lost. */
  lemma {:induction false} RunIsolates<S, P>(w: Forks<S, P>, steps: seq<Step<S, P>>)
    requires Inv(w) && Feasible(w, steps)
    ensures Inv(Run(w, steps)) && Views(Run(w, steps)) == FlatRun(Views(w), steps)
    decreases |steps|
  {
    hide Inv, Enabled, Apply, FlatApply, Views;
    if steps != [] {
      StepIsolates(w, steps[0]);
      RunIsolates(Apply(w, steps[0]), steps[1..]);
    }
  }

  // ---- a store that does not ask ------------------------------------------------------------

  /** `forceWrite8` stores in place without unsharing. Afterwards the spaces look as
      if only its own had been written if and only if the byte already had that
      value or no other space maps the page. */
  lemma ForceWriteIsolatesIff<S, P>(w: Forks<S, P>, s: S, no: int, off: nat, v: U8)
    requires Inv(w) && Maps(w, s, no) && off < PAGE
    ensures Inv(Poke(w, s, no, off, v)) && |Data(w, s, no)| == PAGE
    ensures Views(Poke(w, s, no, off, v)) == Views(w)[s := View(w, s)[no := Patch(View(w, s)[no], off, v)]]
            <==> Data(w, s, no)[off] == v || forall t :: SharesPage(w, s, no, t) ==> t == s
  {
    PokeSeen(w, s, no, off, v);
    var w' := Poke(w, s, no, off, v);
    hide Inv, Data, PageOk, Poke;
    if Data(w, s, no)[off] == v {
      ForceWriteSame(w, w', s, no, off, v);
    } else if t :| SharesPage(w, s, no, t) && t != s {
      ForceWriteLeaks(w, w', s, no, off, v, t);
    } else {
      ForceWritePrivate(w, w', s, no, off, v);
    }
  }

  /** What every space sees of an in-place store: whoever maps the page sees it. */
  lemma PokeSeen<S, P>(w: Forks<S, P>, s: S, no: int, off: nat, v: U8)
    requires Inv(w) && Maps(w, s, no) && off < PAGE
    ensures Inv(Poke(w, s, no, off, v)) && Poke(w, s, no, off, v).tables == w.tables && |Data(w, s, no)| == PAGE
    ensures forall t, i :: Maps(w, t, i) ==> SeenAt(w, Poke(w, s, no, off, v), s, no, off, v, t, i)
  {
    assert PageOk(w, no, w.tables[s][no]);
    PokeInv(w, s, no, off, v);
    forall t, i | Maps(w, t, i) ensures SeenAt(w, Poke(w, s, no, off, v), s, no, off, v, t, i) {
      assert PageOk(w, i, w.tables[t][i]);
    }
  }

  ghost predicate SeenAt<S, P>(w: Forks<S, P>, w': Forks<S, P>, s: S, no: int, off: nat, v: U8, t: S, i: int)
    requires Inv(w) && Inv(w') && Maps(w, s, no) && Maps(w, t, i) && w'.tables == w.tables
  {
    && Data(w', t, i) == (if w.tables[t][i] == w.tables[s][no] then Patch(Data(w, s, no), off, v) else Data(w, t, i))
    && (w.tables[t][i] == w.tables[s][no] ==> i == no && Data(w, t, i) == Data(w, s, no))
  }

  ghost predicate Seen<S, P>(w: Forks<S, P>, w': Forks<S, P>, s: S, no: int, off: nat, v: U8)
    requires Inv(w) && Inv(w') && Maps(w, s, no) && w'.tables == w.tables
  {
    forall t, i :: Maps(w, t, i) ==> SeenAt(w, w', s, no, off, v, t, i)
  }

  ghost function Expected<S, P>(w: Forks<S, P>, s: S, no: int, off: nat, v: U8): map<S, Flat>
    requires Inv(w) && Maps(w, s, no)
  {
    Views(w)[s := View(w, s)[no := Patch(View(w, s)[no], off, v)]]
  }

  lemma ForceWriteSame<S, P>(w: Forks<S, P>, w': Forks<S, P>, s: S, no: int, off: nat, v: U8)
    requires Inv(w) && Inv(w') && Maps(w, s, no) && w'.tables == w.tables && Seen(w, w', s, no, off, v)
    requires off < |Data(w, s, no)| && Data(w, s, no)[off] == v
    ensures Views(w') == Expected(w, s, no, off, v)
  {
    hide Inv, Data;
    assert Patch(Data(w, s, no), off, v) == Data(w, s, no);
    forall t | t in w.tables ensures View(w', t) == View(w, t) {
      forall i | i in w.tables[t] ensures Data(w', t, i) == Data(w, t, i) {
        assert Maps(w, t, i) && SeenAt(w, w', s, no, off, v, t, i);
      }
    }
    assert View(w, s)[no] == Data(w, s, no);
    assert View(w, s)[no := Data(w, s, no)] == View(w, s) && Views(w)[s := View(w, s)] == Views(w);
    assert Views(w') == Views(w);
  }

  lemma ForceWriteLeaks<S, P>(w: Forks<S, P>, w': Forks<S, P>, s: S, no: int, off: nat, v: U8, t: S)
    requires Inv(w) && Inv(w') && Maps(w, s, no) && w'.tables == w.tables && Seen(w, w', s, no, off, v)
    requires off < |Data(w, s, no)| && Data(w, s, no)[off] != v && SharesPage(w, s, no, t) && t != s
    ensures Views(w') != Expected(w, s, no, off, v)
  {
    hide Inv, Data;
    assert SeenAt(w, w', s, no, off, v, t, no);
    assert Views(w')[t][no][off] == v && Expected(w, s, no, off, v)[t][no] == Data(w, t, no) == Data(w, s, no);
  }

  lemma ForceWritePrivate<S, P>(w: Forks<S, P>, w': Forks<S, P>, s: S, no: int, off: nat, v: U8)
    requires Inv(w) && Inv(w') && Maps(w, s, no) && w'.tables == w.tables && Seen(w, w', s, no, off, v)
    requires forall t :: SharesPage(w, s, no, t) ==> t == s
    ensures Views(w') == Expected(w, s, no, off, v)
  {
    hide Inv, Data;
    forall t, i | Maps(w, t, i)
      ensures Data(w', t, i) == if t == s && i == no then Patch(Data(w, s, no), off, v) else Data(w, t, i)
    {
      assert SeenAt(w, w', s, no, off, v, t, i);
      if w.tables[t][i] == w.tables[s][no] { assert SharesPage(w, s, no, t); }
    }
    OnlyOneView(w, w', s);
    assert View(w', s) == View(w, s)[no := Patch(View(w, s)[no], off, v)] by {
      assert forall i :: i in w.tables[s] ==> Maps(w, s, i);
    }
  }

  ghost predicate SharesPage<S, P>(w: Forks<S, P>, s: S, no: int, older t: S)
    requires Maps(w, s, no)
  {
    Maps(w, t, no) && w.tables[t][no] == w.tables[s][no]
  }

  // ---- permissions ------------------------------------------------------------------------

  /** The permission is kept on the page, so whoever maps the page sees it change. */
  lemma ProtectSeen<S, P>(w: Forks<S, P>, s: S, no: int, perm: Perm)
    requires Inv(w) && Maps(w, s, no)
    ensures Inv(Protect(w, s, no, perm)) && Protect(w, s, no, perm).tables == w.tables
    ensures forall t, i :: Maps(w, t, i) ==>
              PermOf(Protect(w, s, no, perm), t, i) ==
              if w.tables[t][i] == w.tables[s][no] then perm else PermOf(w, t, i)
  {
    ProtectKeeps(w, s, no, perm);
    hide Mappers;
    assert PageOk(w, no, w.tables[s][no]);
    forall t, i | Maps(w, t, i)
      ensures PermOf(Protect(w, s, no, perm), t, i) ==
              if w.tables[t][i] == w.tables[s][no] then perm else PermOf(w, t, i)
    {
      assert PageOk(w, i, w.tables[t][i]);
    }
  }

  /** A page that two spaces map has one number and one permission in both. */
  lemma OnePermission<S, P>(w: Forks<S, P>, s: S, no: int, t: S, i: int)
    requires Inv(w) && Maps(w, s, no) && Maps(w, t, i) && w.tables[t][i] == w.tables[s][no]
    ensures i == no && PermOf(w, t, i) == PermOf(w, s, no)
  {
  }

  /** No space but s sees a different permission anywhere. */
  ghost predicate OthersPermsKept<S, P>(w: Forks<S, P>, w': Forks<S, P>, s: S)
    requires Inv(w) && Inv(w') && w'.tables == w.tables
  {
    forall t, i :: Maps(w, t, i) && t != s ==> PermOf(w', t, i) == PermOf(w, t, i)
  }

  /** `mprotect`, and `map` over a page that is mapped, set the permission of the page
      object. No other space's permissions change if and only if the page already
      had that permission or no other space maps it. */
  lemma ProtectIsolatesIff<S, P>(w: Forks<S, P>, s: S, no: int, perm: Perm, page: P)
    requires Inv(w) && Maps(w, s, no)
    ensures Enabled(w, ProtectPage(s, no, perm)) && Enabled(w, MapPage(s, no, perm, page))
    ensures Apply(w, MapPage(s, no, perm, page)) == Apply(w, ProtectPage(s, no, perm))
    ensures var w' := Apply(w, ProtectPage(s, no, perm));
            && Inv(w') && w'.tables == w.tables
            && (OthersPermsKept(w, w', s) <==> PermOf(w, s, no) == perm || forall t :: SharesPage(w, s, no, t) ==> t == s)
  {
    ProtectSeen(w, s, no, perm);
    var w' := Protect(w, s, no, perm);
    hide Inv, PageOk, PermOf, Protect;
    if PermOf(w, s, no) == perm || forall t :: SharesPage(w, s, no, t) ==> t == s {
      forall t, i | Maps(w, t, i) && t != s ensures PermOf(w', t, i) == PermOf(w, t, i) {
        if w.tables[t][i] == w.tables[s][no] {
          OnePermission(w, s, no, t, i);
          assert SharesPage(w, s, no, t);
        }
      }
    } else {
      var t :| SharesPage(w, s, no, t) && t != s;
      OnePermission(w, s, no, t, no);
      assert PermOf(w', t, no) == perm;
    }
  }

  /** In particular a fork sees its parent's `mprotect`, and its own reaches back. */
  lemma ForkSeesProtect<S, P>(w: Forks<S, P>, s: S, child: S, no: int, perm: Perm)
    requires Inv(w) && Maps(w, s, no) && child !in w.tables
    ensures var w1 := Apply(w, Fork(s, child));
            && Inv(w1) && Maps(w1, s, no) && SharesPage(w1, s, no, child) && PermOf(w1, child, no) == PermOf(w, s, no)
            && var w2 := Apply(w1, ProtectPage(s, no, perm));
            Inv(w2) && Maps(w2, child, no) && PermOf(w2, child, no) == perm
  {
    ForkData(w, s, child);
    var w1 := Apply(w, Fork(s, child));
    assert Maps(w1, s, no) && Maps(w1, child, no);
    ForkPerm(w, s, child, no);
    ProtectSeen(w1, s, no, perm);
  }

  lemma ForkPerm<S, P>(w: Forks<S, P>, s: S, child: S, no: int)
    requires Inv(w) && Maps(w, s, no) && child !in w.tables
    ensures var w1 := Apply(w, Fork(s, child));
            Inv(w1) && Maps(w1, child, no) && PermOf(w1, child, no) == PermOf(w, s, no)
  {
    ForkInv(w, s, child);
    hide Mappers, Holds;
    assert PageOk(w, no, w.tables[s][no]);
  }

  /** One space with one writable page. */
  ghost function OnePage(): Forks<int, int> {
    Forks(map[0 := map[0 := 0]], map[0 := Info(Zeros(), Perm(true, true, false), false, 1)])
  }

  /** A concrete case: after a fork the parent makes its only page read-only, and the
      child, which could write it, no longer can. */
  lemma ProtectLeaks()
    ensures Inv(OnePage()) && Maps(OnePage(), 0, 0) && Enabled(OnePage(), Fork(0, 1))
    ensures var w1 := Apply(OnePage(), Fork(0, 1));
            && Inv(w1) && Maps(w1, 0, 0) && Maps(w1, 1, 0) && PermOf(w1, 1, 0).w
            && Enabled(w1, ProtectPage(0, 0, Perm(true, false, false)))
            && var w2 := Apply(w1, ProtectPage(0, 0, Perm(true, false, false)));
            Inv(w2) && Maps(w2, 1, 0) && !PermOf(w2, 1, 0).w && !OthersPermsKept(w1, w2, 0)
  {
    var w := OnePage();
    assert Mappers(w, 0, 0) == {0};
    assert PageOk(w, 0, 0);
    hide PageOk, Apply;
    assert Maps(w, 0, 0);
    ForkSeesProtect(w, 0, 1, 0, Perm(true, false, false));
    var w1 := Apply(w, Fork(0, 1));
    ProtectIsolatesIff(w1, 0, 0, Perm(true, false, false), 0);
    OnePermission(w1, 0, 0, 1, 0);
    assert SharesPage(w1, 0, 0, 1);
  }

  // ---- ranges of pages ----------------------------------------------------------------------

  /** `map` over the pages lo..hi: zero pages where there were none. */
  ghost function FlatMap(f: Flat, lo: int, hi: int): Flat
    decreases hi - lo
  {
    if hi <= lo then f
    else
      FlatAdd(FlatMap(f, lo, hi - 1), hi - 1)
  }

  ghost function FlatAdd(f: Flat, no: int): Flat { if no in f then f else f[no := Zeros()] }

  /** `unmap` over the pages lo..hi: it stops at the first page that is missing,
      unless told to ignore that. */
  ghost function FlatUnmap(f: Flat, lo: int, hi: int, ignoreMissing: bool): Flat
    decreases hi - lo
  {
    if hi <= lo || (lo !in f && !ignoreMissing) then f
    else FlatUnmap(f - {lo}, lo + 1, hi, ignoreMissing)
  }

  ghost predicate AllMapped(f: Flat, lo: int, hi: int) { forall no :: lo <= no < hi ==> no in f }

  lemma {:induction false} FlatMapAt(f: Flat, lo: int, hi: int, no: int)
    ensures no in FlatMap(f, lo, hi) <==> no in f || lo <= no < hi
    ensures no in FlatMap(f, lo, hi) ==> FlatMap(f, lo, hi)[no] == if no in f then f[no] else Zeros()
    decreases hi - lo
  {
    if lo < hi { FlatMapAt(f, lo, hi - 1, no); FlatMapAt(f, lo, hi - 1, hi - 1); }
  }
}
