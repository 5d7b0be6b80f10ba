/** The link between the two pictures of guest memory: what an address space made of
    shared pages looks like byte by byte is a FlatMemory, and its `write8` is the
    flat one. */
module FlatView {
  import opened Words
  import opened FlatMemory
  import opened CopyOnWrite
  import opened Paging

  /** The bytes of one space with their permissions. */
  ghost function CellsOf<S, P>(w: Forks<S, P>, s: S): map<U32, Cell>
    requires Inv(w) && s in w.tables
  {
    map x: U32 | PageNo(x) in w.tables[s] :: CellAt(w, s, x)
  }

  ghost function CellAt<S, P>(w: Forks<S, P>, s: S, x: U32): Cell
    requires Inv(w) && Maps(w, s, PageNo(x))
  {
    PageSize(w, s, PageNo(x));
    Cell(Data(w, s, PageNo(x))[Offset(x)], PermOf(w, s, PageNo(x)))
  }

  lemma PageSize<S, P>(w: Forks<S, P>, s: S, no: int)
    requires Inv(w) && Maps(w, s, no)
    ensures |Data(w, s, no)| == PAGE
  {
    assert PageOk(w, no, w.tables[s][no]);
  }

  /** What a store leaves of one cell of the space that stores. */
  lemma CellAfter<S, P>(w: Forks<S, P>, w': Forks<S, P>, s: S, addr: U32, v: U8, x: U32)
    requires Inv(w) && Inv(w') && SamePerms(w, w') && Maps(w, s, PageNo(addr)) && Maps(w, s, PageNo(x)) && s in w'.tables
    requires View(w', s) == FlatWrite(View(w, s), addr, v)
    ensures Maps(w', s, PageNo(x)) && CellAt(w', s, x) == if x == addr then CellAt(w, s, x).(value := v) else CellAt(w, s, x)
  {
    assert w'.tables[s].Keys == w.tables[s].Keys;
    PageSize(w, s, PageNo(x));
    PageSize(w, s, PageNo(addr));
    assert View(w', s)[PageNo(x)] == Data(w', s, PageNo(x)) && View(w, s)[PageNo(x)] == Data(w, s, PageNo(x));
    if PageNo(x) == PageNo(addr) && Offset(x) == Offset(addr) { PageOffset(x, addr); }
  }

  lemma CellsKept<S, P>(w: Forks<S, P>, w': Forks<S, P>, t: S)
    requires Inv(w) && Inv(w') && SamePerms(w, w') && t in w.tables && t in w'.tables && View(w', t) == View(w, t)
    ensures CellsOf(w', t) == CellsOf(w, t)
  {
    hide Inv, Data, PermOf;
    assert w'.tables[t].Keys == w.tables[t].Keys;
    forall x: U32 | PageNo(x) in w.tables[t] ensures CellAt(w', t, x) == CellAt(w, t, x) {
      assert Maps(w, t, PageNo(x)) && Maps(w', t, PageNo(x));
      assert View(w', t)[PageNo(x)] == Data(w', t, PageNo(x)) && View(w, t)[PageNo(x)] == Data(w, t, PageNo(x));
    }
  }

  /** A store in one of any number of sharing spaces changes that space's flat memory
      as `Poke` does, and no other space can tell. */
  lemma PokeIsFlat<S, P>(w: Forks<S, P>, w': Forks<S, P>, s: S, addr: U32, v: U8, log: seq<U32>)
    requires Inv(w) && Inv(w') && SamePerms(w, w') && Maps(w, s, PageNo(addr))
    requires Views(w') == Views(w)[s := FlatWrite(View(w, s), addr, v)]
    ensures FlatMemory.Poke(Memory(CellsOf(w, s), log), addr, v) == Memory(CellsOf(w', s), log + [addr])
    ensures forall t :: t in w.tables && t != s ==> CellsOf(w', t) == CellsOf(w, t)
  {
    hide Inv, Data, PermOf, FlatWrite;
    assert Views(w')[s] == View(w', s);
    forall x: U32 | PageNo(x) in w.tables[s]
      ensures PageNo(x) in w'.tables[s]
      ensures CellAt(w', s, x) == if x == addr then CellAt(w, s, x).(value := v) else CellAt(w, s, x)
    {
      CellAfter(w, w', s, addr, v, x);
    }
    assert w'.tables[s].Keys == w.tables[s].Keys;
    assert CellsOf(w', s) == CellsOf(w, s)[addr := CellsOf(w, s)[addr].(value := v)];
    forall t | t in w.tables && t != s ensures CellsOf(w', t) == CellsOf(w, t) {
      assert Views(w')[t] == View(w', t) && Views(w)[t] == View(w, t);
      CellsKept(w, w', t);
    }
  }

  /** With write permission it is `write8` on the flat memory. */
  lemma StoreIsFlat<S, P>(w: Forks<S, P>, w': Forks<S, P>, s: S, addr: U32, v: U8, log: seq<U32>)
    requires Inv(w) && Inv(w') && SamePerms(w, w') && Maps(w, s, PageNo(addr)) && PermOf(w, s, PageNo(addr)).w
    requires Views(w') == Views(w)[s := FlatWrite(View(w, s), addr, v)]
    ensures Write8(Memory(CellsOf(w, s), log), addr, v) == Some(Memory(CellsOf(w', s), log + [addr]))
    ensures forall t :: t in w.tables && t != s ==> CellsOf(w', t) == CellsOf(w, t)
  {
    hide Inv, Data, FlatWrite, Views;
    PokeIsFlat(w, w', s, addr, v, log);
    assert CellsOf(w, s)[addr] == CellAt(w, s, addr);
  }
}
