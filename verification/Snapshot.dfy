/** The filesystem snapshot of src/snapshot.js: a tree of nodes flattened to a list
    of entries and one blob of file bytes, and built up again from them. */
module Snapshot {
  import opened Words
  import opened Buffers
  import opened Paths

  /** The metadata every `VNode` has. */
  datatype Attr = Attr(ino: int, mode: int, uid: int, gid: int, rdev: int, atime: int, mtime: int, ctime: int,
                       nlink: Option<int>)

  /** A node and what hangs below it. */
  datatype Node =
    | Dir(attr: Attr, children: map<Text, Node>)
    | File(attr: Attr, data: Bytes)
    | Symlink(attr: Attr, target: Text)
    | Char(attr: Attr, device: Text)

  predicate ValidTree(t: Node) {
    t.Dir? ==> forall n :: n in t.children ==> ValidName(n) && ValidTree(t.children[n])
  }

  /** A node without its children. */
  datatype Info = DirInfo(attr: Attr) | FileInfo(attr: Attr, data: Bytes) | LinkInfo(attr: Attr, target: Text)
                | CharInfo(attr: Attr, device: Text)

  function InfoOf(t: Node): Info {
    match t
    case Dir(a, _) => DirInfo(a)
    case File(a, d) => FileInfo(a, d)
    case Symlink(a, s) => LinkInfo(a, s)
    case Char(a, d) => CharInfo(a, d)
  }

  function Lookup(t: Node, q: seq<Text>): Option<Info>
    decreases |q|
  {
    if q == [] then Some(InfoOf(t))
    else if t.Dir? && q[0] in t.children then Lookup(t.children[q[0]], q[1..])
    else None
  }

  lemma LookupChild(t: Node, n: Text, q: seq<Text>)
    ensures Lookup(t, [n] + q) == if t.Dir? && n in t.children then Lookup(t.children[n], q) else None
    ensures Lookup(t, [n]).Some? <==> t.Dir? && n in t.children
  {
    assert ([n] + q)[1..] == q && [n][1..] == [];
  }

  /** A tree is what can be looked up in it. */
  lemma {:induction false} Extensional(a: Node, b: Node)
    requires forall q :: Lookup(a, q) == Lookup(b, q)
    ensures a == b
    decreases a
  {
    assert Lookup(a, []) == Lookup(b, []);
    if a.Dir? {
      forall n ensures n in a.children <==> n in b.children {
        LookupChild(a, n, []);
        LookupChild(b, n, []);
      }
      forall n | n in a.children ensures a.children[n] == b.children[n] {
        forall q ensures Lookup(a.children[n], q) == Lookup(b.children[n], q) {
          LookupChild(a, n, q);
          LookupChild(b, n, q);
        }
        Extensional(a.children[n], b.children[n]);
      }
      assert a.children == b.children;
    }
  }

  // ---- entries --------------------------------------------------------------------------

  datatype Body = DirBody | FileBody(offset: nat, length: nat) | LinkBody(target: Text) | CharBody(device: Text)

  datatype Entry = Entry(path: Text, attr: Attr, body: Body)

  /** The bytes `dataBlob.subarray(offset, offset + length)` has. */
  function Slice(data: Bytes, offset: nat, length: nat): Bytes {
    data[Min(offset, |data|)..Min(offset + length, |data|)]
  }

  function Described(e: Entry, data: Bytes): Info {
    match e.body
    case DirBody => DirInfo(e.attr)
    case FileBody(offset, length) => FileInfo(e.attr, Slice(data, offset, length))
    case LinkBody(target) => LinkInfo(e.attr, target)
    case CharBody(device) => CharInfo(e.attr, device)
  }

  predicate InBlob(e: Entry, data: Bytes) { e.body.FileBody? ==> e.body.offset + e.body.length <= |data| }

  /** The entry stands for a node of the tree t mounted at `base`. */
  predicate EntryAt(t: Node, base: seq<Text>, e: Entry, data: Bytes) {
    var q := PartsOf(e.path);
    && e.path == PathString(q) && base <= q && InBlob(e, data)
    && Lookup(t, q[|base|..]) == Some(Described(e, data))
  }

  /** One of the entries is for the node that the names q lead to. */
  ghost predicate Has(es: seq<Entry>, q: seq<Text>) { exists e :: e in es && PartsOf(e.path) == q }

  predicate DistinctPaths(es: seq<Entry>) { forall i, j :: 0 <= i < j < |es| ==> es[i].path != es[j].path }

  /** The entries stand for the nodes of t mounted at `base`, each exactly once. */
  ghost predicate Listing(t: Node, base: seq<Text>, es: seq<Entry>, data: Bytes) {
    && (forall e :: e in es ==> EntryAt(t, base, e, data))
    && DistinctPaths(es)
    && (forall q :: Lookup(t, q).Some? ==> Has(es, base + q))
  }

  // ---- flattening -----------------------------------------------------------------------

  lemma LeafListing(t: Node, base: seq<Text>, e: Entry, data: Bytes)
    requires ValidNames(base) && (t.Dir? ==> t.children == map[])
    requires e.path == PathString(base) && Described(e, data) == InfoOf(t) && InBlob(e, data)
    ensures Listing(t, base, [e], data)
  {
    PartsRoundTrip(base);
    assert base[|base|..] == [];
    forall q | Lookup(t, q).Some? ensures Has([e], base + q) {
      assert q == [] && base + q == base;
      assert e in [e];
    }
  }

  lemma DescribedGrows(e: Entry, data: Bytes, more: Bytes)
    requires InBlob(e, data)
    ensures InBlob(e, data + more) && Described(e, data + more) == Described(e, data)
  {
    if e.body.FileBody? {
      var (o, n) := (e.body.offset, e.body.length);
      assert (data + more)[o..o + n] == data[o..o + n];
    }
  }

  lemma EntryGrows(t: Node, base: seq<Text>, e: Entry, data: Bytes, more: Bytes)
    requires EntryAt(t, base, e, data)
    ensures EntryAt(t, base, e, data + more)
  {
    hide PartsOf, PathString, Lookup, Described, InBlob;
    DescribedGrows(e, data, more);
  }

  /** More file bytes after the ones the entries refer to do not disturb them. */
  lemma ListingGrows(t: Node, base: seq<Text>, es: seq<Entry>, data: Bytes, data': Bytes)
    requires Listing(t, base, es, data) && data <= data'
    ensures Listing(t, base, es, data')
  {
    hide PartsOf, PathString, Lookup, EntryAt, Has;
    assert data' == data + data'[|data|..];
    forall e | e in es ensures EntryAt(t, base, e, data') {
      EntryGrows(t, base, e, data, data'[|data|..]);
    }
  }

  lemma LookupOther(a: Attr, m: map<Text, Node>, n: Text, c: Node, q: seq<Text>)
    requires n !in m
    ensures Lookup(Dir(a, m), q).Some? ==> Lookup(Dir(a, m[n := c]), q) == Lookup(Dir(a, m), q)
    ensures Lookup(Dir(a, m[n := c]), q).Some? && (q == [] || q[0] != n) ==> Lookup(Dir(a, m), q).Some?
    ensures Lookup(Dir(a, m), [n] + q).None?
  {
    LookupChild(Dir(a, m), n, q);
  }

  lemma EntryUnder(c: Node, base: seq<Text>, n: Text, e: Entry, data: Bytes, a: Attr, m: map<Text, Node>)
    requires EntryAt(c, base + [n], e, data)
    ensures EntryAt(Dir(a, m[n := c]), base, e, data)
    ensures var q := PartsOf(e.path); base <= q && q[|base|..] == [n] + q[|base| + 1..]
  {
    hide PartsOf, PathString, Lookup;
    var q := PartsOf(e.path);
    assert base + [n] <= q;
    assert q[|base|..] == [n] + q[|base| + 1..];
    LookupChild(Dir(a, m[n := c]), n, q[|base| + 1..]);
  }

  lemma AddEntries(a: Attr, m: map<Text, Node>, n: Text, c: Node, base: seq<Text>, es: seq<Entry>, more: seq<Entry>, data: Bytes)
    requires n !in m && Listing(Dir(a, m), base, es, data) && Listing(c, base + [n], more, data)
    ensures forall e :: e in es + more ==> EntryAt(Dir(a, m[n := c]), base, e, data)
    ensures forall e, f :: e in es && f in more ==> e.path != f.path
  {
    hide PartsOf, PathString, Lookup;
    forall e | e in es ensures EntryAt(Dir(a, m[n := c]), base, e, data) {
      assert EntryAt(Dir(a, m), base, e, data);
      LookupOther(a, m, n, c, PartsOf(e.path)[|base|..]);
    }
    forall f | f in more ensures EntryAt(Dir(a, m[n := c]), base, f, data) {
      EntryUnder(c, base, n, f, data, a, m);
    }
    forall e, f | e in es && f in more ensures e.path != f.path {
      assert EntryAt(Dir(a, m), base, e, data);
      EntryUnder(c, base, n, f, data, a, m);
      LookupOther(a, m, n, c, PartsOf(f.path)[|base| + 1..]);
    }
  }

  lemma AddPaths(a: Attr, m: map<Text, Node>, n: Text, c: Node, base: seq<Text>, es: seq<Entry>, more: seq<Entry>, data: Bytes, q: seq<Text>)
    requires n !in m && Listing(Dir(a, m), base, es, data) && Listing(c, base + [n], more, data)
    requires Lookup(Dir(a, m[n := c]), q).Some?
    ensures Has(es + more, base + q)
  {
    hide PartsOf, PathString, Lookup, EntryAt;
    if q != [] && q[0] == n {
      assert q == [n] + q[1..] && base + q == (base + [n]) + q[1..];
      LookupChild(Dir(a, m[n := c]), n, q[1..]);
      var e :| e in more && PartsOf(e.path) == base + q;
      assert e in es + more;
    } else {
      LookupOther(a, m, n, c, q);
      var e :| e in es && PartsOf(e.path) == base + q;
      assert e in es + more;
    }
  }

  lemma AddChild(a: Attr, m: map<Text, Node>, n: Text, c: Node, base: seq<Text>, es: seq<Entry>, more: seq<Entry>, data: Bytes)
    requires n !in m && Listing(Dir(a, m), base, es, data) && Listing(c, base + [n], more, data)
    ensures Listing(Dir(a, m[n := c]), base, es + more, data)
  {
    hide EntryAt, PathString, Lookup;
    AddEntries(a, m, n, c, base, es, more, data);
    forall q | Lookup(Dir(a, m[n := c]), q).Some? ensures Has(es + more, base + q) {
      AddPaths(a, m, n, c, base, es, more, data, q);
    }
    assert DistinctPaths(es + more) by {
      forall i, j | 0 <= i < j < |es + more| ensures (es + more)[i].path != (es + more)[j].path {
        if i < |es| && j >= |es| { assert es[i] in es && more[j - |es|] in more; }
      }
    }
  }

  function BaseBody(t: Node, dataOffset: nat): Body {
    match t
    case Dir(_, _) => DirBody
    case File(_, data) => FileBody(dataOffset, |data|)
    case Symlink(_, target) => LinkBody(target)
    case Char(_, device) => CharBody(device)
  }

  /** The variables that `visit` shares. */
  class Collector {
    var entries: seq<Entry>
    var fileBlobs: seq<Bytes>
    var dataOffset: nat

    ghost predicate Valid()
      reads this
    {
      dataOffset == |Concat(fileBlobs)|
    }

    constructor ()
      ensures Valid() && entries == [] && fileBlobs == []
    {
      entries, fileBlobs, dataOffset := [], [], 0;
    }

    method VisitNode(t: Node, path: Text, ghost base: seq<Text>)
      requires Valid() && ValidNames(base) && path == PathString(base)
      modifies this
      ensures Valid() && old(Concat(fileBlobs)) <= Concat(fileBlobs)
      ensures |entries| == |old(entries)| + 1 && old(entries) <= entries
      ensures Listing(if t.Dir? then t.(children := map[]) else t, base, entries[|old(entries)|..], Concat(fileBlobs))
    {
      hide Concat, PathString, Listing;
      var e := Entry(path, t.attr, BaseBody(t, dataOffset));
      entries := entries + [e];
      if t.File? {
        ConcatSnoc(fileBlobs, t.data);
        fileBlobs := fileBlobs + [t.data];
        dataOffset := dataOffset + |t.data|;
      }
      LeafListing(if t.Dir? then t.(children := map[]) else t, base, e, Concat(fileBlobs));
      assert entries[|old(entries)|..] == [e];
    }

    /** One child of the directory t, after those in `done`. */
    method VisitChild(t: Node, name: Text, path: Text, ghost base: seq<Text>, ghost done: map<Text, Node>, ghost start: nat)
      requires Valid() && ValidTree(t) && ValidNames(base) && path == PathString(base)
      requires t.Dir? && name in t.children && name !in done && start <= |entries|
      requires Listing(Dir(t.attr, done), base, entries[start..], Concat(fileBlobs))
      modifies this
      ensures Valid() && old(Concat(fileBlobs)) <= Concat(fileBlobs) && old(entries) <= entries
      ensures Listing(Dir(t.attr, done[name := t.children[name]]), base, entries[start..], Concat(fileBlobs))
      decreases t, 0
    {
      hide Concat, PathString, Listing;
      ghost var before, blob := entries, Concat(fileBlobs);
      ChildPath(base, name);
      Visit(t.children[name], Child(path, name), base + [name]);
      ListingGrows(Dir(t.attr, done), base, before[start..], blob, Concat(fileBlobs));
      AddChild(t.attr, done, name, t.children[name], base, before[start..], entries[|before|..], Concat(fileBlobs));
      assert entries[start..] == before[start..] + entries[|before|..];
    }

    /** `visit`; it takes the names of a directory in any order (the source sorts
        them). */
    method Visit(t: Node, path: Text, ghost base: seq<Text>)
      requires Valid() && ValidTree(t) && ValidNames(base) && path == PathString(base)
      modifies this
      ensures Valid() && old(Concat(fileBlobs)) <= Concat(fileBlobs)
      ensures old(entries) <= entries
      ensures Listing(t, base, entries[|old(entries)|..], Concat(fileBlobs))
      decreases t, 1
    {
      hide Concat, PathString, Listing;
      VisitNode(t, path, base);
      if t.Dir? {
        var names := t.children.Keys;
        ghost var done: map<Text, Node> := map[];
        while names != {}
          invariant Valid() && old(Concat(fileBlobs)) <= Concat(fileBlobs) && old(entries) <= entries
          invariant names <= t.children.Keys && done == t.children - names
          invariant Listing(Dir(t.attr, done), base, entries[|old(entries)|..], Concat(fileBlobs))
          decreases |names|
        {
          var name :| name in names;
          VisitChild(t, name, path, base, done, |old(entries)|);
          names := names - {name};
          done := done[name := t.children[name]];
        }
        assert done == t.children;
      }
    }
  }

  /** `collectVfsEntries`. */
  method CollectVfsEntries(root: Node) returns (entries: seq<Entry>, data: array<U8>)
    requires ValidTree(root)
    ensures Listing(root, [], entries, data[..])
  {
    var c := new Collector();
    assert PathString([]) == [SLASH];
    c.Visit(root, [SLASH], []);
    entries := c.entries;
    assert c.entries[0..] == c.entries;
    data := Flatten(c.fileBlobs);
  }

  // ---- building up again ----------------------------------------------------------------

  /** The tree, and what new nodes take their numbers and times from. */
  datatype Vfs = Vfs(root: Node, nextIno: int, now: int)

  function NewDir(ino: int, now: int): Node {
    Dir(Attr(ino, 0x41ed, 0, 0, 0, now, now, now, None), map[])
  }

  datatype Made = Made(node: Node, nextIno: int)

  /** The loop of `mkdirp`: missing directories are made; None where a name on the
      way is not a directory. */
  function MkDirs(t: Node, names: seq<Text>, ino: int, now: int): Option<Made>
    decreases |names|
  {
    if names == [] then Some(Made(t, ino))
    else if !t.Dir? then None
    else
      var (c, next) := if names[0] in t.children then (t.children[names[0]], ino) else (NewDir(ino, now), ino + 1);
      if !c.Dir? then None
      else match MkDirs(c, names[1..], next, now)
        case None => None
        case Some(m) => Some(Made(t.(children := t.children[names[0] := m.node]), m.nextIno))
  }

  /** `parent.children.set(basename, node)` for the directory that `names` lead to. */
  function SetChild(t: Node, names: seq<Text>, name: Text, node: Node): Node
    decreases |names|
  {
    if !t.Dir? then t
    else if names == [] then t.(children := t.children[name := node])
    else if names[0] in t.children then
      t.(children := t.children[names[0] := SetChild(t.children[names[0]], names[1..], name, node)])
    else t
  }

  function NodeOf(i: Info): Node {
    match i
    case DirInfo(a) => Dir(a, map[])
    case FileInfo(a, d) => File(a, d)
    case LinkInfo(a, s) => Symlink(a, s)
    case CharInfo(a, d) => Char(a, d)
  }

  function NonEmpty(parts: seq<Text>): seq<Text> {
    if parts == [] then [] else (if parts[0] == [] then [] else [parts[0]]) + NonEmpty(parts[1..])
  }

  /** The root keeps its own number, device and link count. */
  function RootAttr(a: Attr, e: Attr): Attr {
    a.(mode := e.mode, uid := e.uid, gid := e.gid, atime := e.atime, mtime := e.mtime, ctime := e.ctime)
  }

  /** `installNode`; None where `mkdirp` throws. */
  function Install(v: Vfs, e: Entry, data: Bytes): Option<Vfs> {
    if e.path == [SLASH] then Some(v.(root := v.root.(attr := RootAttr(v.root.attr, e.attr))))
    else
      var names := NonEmpty(Split(Norm(Dirname(e.path))));
      match MkDirs(v.root, names, v.nextIno, v.now)
      case None => None
      case Some(m) => Some(Vfs(SetChild(m.node, names, Basename(e.path), NodeOf(Described(e, data))), m.nextIno, v.now))
  }

  function InstallAll(v: Vfs, es: seq<Entry>, data: Bytes): Option<Vfs>
    decreases |es|
  {
    if es == [] then Some(v)
    else match Install(v, es[0], data)
      case None => None
      case Some(v1) => InstallAll(v1, es[1..], data)
  }

  /** The stable sort by path length. */
  function Insert(e: Entry, es: seq<Entry>): seq<Entry> {
    if es == [] || |e.path| <= |es[0].path| then [e] + es else [es[0]] + Insert(e, es[1..])
  }

  function SortByLength(es: seq<Entry>): seq<Entry> {
    if es == [] then [] else Insert(es[0], SortByLength(es[1..]))
  }

  function EmptyVfs(nextIno: int, now: int): Vfs {
    Vfs(Dir(Attr(1, 0x41ed, 0, 0, 0, now, now, now, None), map[]), nextIno, now)
  }

  /** `restoreVfsBinary` and `restoreVfsJson`, once the entries are decoded. */
  function Restore(es: seq<Entry>, data: Bytes, nextIno: int, now: int): Option<Vfs> {
    InstallAll(EmptyVfs(nextIno, now), SortByLength(es), data)
  }

  // ---- the sort -------------------------------------------------------------------------

  predicate Sorted(es: seq<Entry>) { forall i, j :: 0 <= i < j < |es| ==> |es[i].path| <= |es[j].path| }

  lemma {:induction false} InsertMembers(e: Entry, es: seq<Entry>)
    ensures forall x :: x in Insert(e, es) <==> x == e || x in es
    decreases |es|
  {
    if es != [] {
      InsertMembers(e, es[1..]);
      assert es == [es[0]] + es[1..];
    }
  }

  lemma {:induction false} InsertSorted(e: Entry, es: seq<Entry>)
    requires Sorted(es)
    ensures Sorted(Insert(e, es))
    decreases |es|
  {
    if es != [] && |e.path| > |es[0].path| {
      InsertSorted(e, es[1..]);
      InsertMembers(e, es[1..]);
      var r := Insert(e, es[1..]);
      forall j | 0 <= j < |r| ensures |es[0].path| <= |r[j].path| { assert r[j] in r; }
    }
  }

  lemma {:induction false} InsertDistinct(e: Entry, es: seq<Entry>)
    requires DistinctPaths(es) && forall x :: x in es ==> x.path != e.path
    ensures DistinctPaths(Insert(e, es))
    decreases |es|
  {
    if es != [] && |e.path| > |es[0].path| {
      InsertDistinct(e, es[1..]);
      InsertMembers(e, es[1..]);
      var r := Insert(e, es[1..]);
      forall j | 0 <= j < |r| ensures es[0].path != r[j].path { assert r[j] in r; }
    }
  }

  lemma {:induction false} SortKeeps(es: seq<Entry>)
    ensures var r := SortByLength(es); Sorted(r) && (forall x :: x in r <==> x in es)
    ensures DistinctPaths(es) ==> DistinctPaths(SortByLength(es))
    decreases |es|
  {
    hide Insert;
    if es != [] {
      var r := SortByLength(es[1..]);
      SortKeeps(es[1..]);
      InsertMembers(es[0], r);
      InsertSorted(es[0], r);
      assert es == [es[0]] + es[1..];
      if DistinctPaths(es) { InsertDistinct(es[0], r); }
    }
  }

  lemma ListingSorted(t: Node, es: seq<Entry>, data: Bytes)
    requires Listing(t, [], es, data)
    ensures Listing(t, [], SortByLength(es), data) && Sorted(SortByLength(es))
  {
    hide PartsOf, PathString, Lookup, EntryAt;
    SortKeeps(es);
    forall q | Lookup(t, q).Some? ensures Has(SortByLength(es), [] + q) {
      var e :| e in es && PartsOf(e.path) == [] + q;
      assert e in SortByLength(es);
    }
  }

  // ---- the tree comes back --------------------------------------------------------------

  predicate IsDir(i: Option<Info>) { i.Some? && i.value.DirInfo? }

  lemma {:induction false} MkDirsExisting(t: Node, names: seq<Text>, ino: int, now: int)
    requires IsDir(Lookup(t, names))
    ensures MkDirs(t, names, ino, now) == Some(Made(t, ino))
    decreases |names|
  {
    if names != [] {
      var c := t.children[names[0]];
      assert Lookup(t, names) == Lookup(c, names[1..]);
      assert c.Dir? by { if names[1..] == [] { assert InfoOf(c).DirInfo?; } }
      MkDirsExisting(c, names[1..], ino, now);
      assert t.children[names[0] := c] == t.children;
    }
  }

  /** Setting a child changes what is found under its path, and nothing else. */
  lemma {:induction false} SetChildLookup(t: Node, names: seq<Text>, name: Text, node: Node, q: seq<Text>)
    requires IsDir(Lookup(t, names))
    ensures Lookup(SetChild(t, names, name, node), q)
         == if names + [name] <= q then Lookup(node, q[|names| + 1..]) else Lookup(t, q)
    ensures SetChild(t, names, name, node).Dir? && SetChild(t, names, name, node).attr == t.attr
    decreases |names|
  {
    if names == [] {
      if q != [] && q[0] == name { assert names + [name] <= q; }
    } else {
      var c := t.children[names[0]];
      if q != [] && q[0] == names[0] {
        SetChildLookup(c, names[1..], name, node, q[1..]);
        assert names + [name] <= q <==> names[1..] + [name] <= q[1..];
      } else {
        SetChildLookup(c, names[1..], name, node, []);
      }
    }
  }

  lemma {:induction false} NonEmptyValid(parts: seq<Text>)
    requires ValidNames(parts)
    ensures NonEmpty(parts) == parts
  {
    if parts != [] { NonEmptyValid(parts[1..]); }
  }

  lemma NamesOfPath(parts: seq<Text>)
    requires ValidNames(parts)
    ensures NonEmpty(Split(Norm(PathString(parts)))) == parts
  {
    hide PathString, Norm, Split;
    PartsRoundTrip(parts);
    SplitPath(parts);
    NonEmptyValid(parts);
    var rest: seq<Text> := if parts == [] then [[]] else parts;
    assert ([[]] + rest)[1..] == rest;
    if parts == [] {
      assert NonEmpty(rest) == NonEmpty([]);
    }
  }

  lemma {:induction false} ValidLookup(t: Node, q: seq<Text>)
    requires ValidTree(t) && Lookup(t, q).Some?
    ensures ValidNames(q)
    decreases |q|
  {
    if q != [] { ValidLookup(t.children[q[0]], q[1..]); }
  }

  /** The directories on the way to a node. */
  lemma {:induction false} LookupParent(t: Node, q: seq<Text>, n: Text)
    requires Lookup(t, q + [n]).Some?
    ensures IsDir(Lookup(t, q))
    decreases |q|
  {
    if q != [] {
      assert (q + [n])[1..] == q[1..] + [n];
      LookupParent(t.children[q[0]], q[1..], n);
    }
  }

  /** What has been built when the entries `done` are installed. */
  ghost predicate Built(t: Node, v: Node, done: seq<Entry>) {
    && v.Dir?
    && forall q :: q != [] ==> Lookup(v, q) == if Has(done, q) then Lookup(t, q) else None
  }

  lemma NodeOfLookup(i: Info, q: seq<Text>)
    ensures Lookup(NodeOf(i), q) == if q == [] then Some(i) else None
  {
  }

  /** Installing an entry whose parent is there, and nothing below it yet. */
  lemma InstallLookup(v: Vfs, e: Entry, data: Bytes, base: seq<Text>, n: Text)
    requires ValidNames(base) && ValidName(n) && e.path == PathString(base + [n]) && IsDir(Lookup(v.root, base))
    ensures var r := Install(v, e, data);
            && r.Some? && r.value.nextIno == v.nextIno && r.value.now == v.now
            && r.value.root.Dir? && r.value.root.attr == v.root.attr
            && forall q :: Lookup(r.value.root, q)
                        == if q == base + [n] then Some(Described(e, data))
                           else if base + [n] <= q then None else Lookup(v.root, q)
  {
    hide PathString, Norm, Split, Lookup, SetChild, MkDirs, Described, NonEmpty, Dirname, Basename, NodeOf;
    RootOnly(base + [n]);
    ChildPath(base, n);
    NamesOfPath(base);
    MkDirsExisting(v.root, base, v.nextIno, v.now);
    var node := NodeOf(Described(e, data));
    SetChildLookup(v.root, base, n, node, []);
    forall q ensures Lookup(SetChild(v.root, base, n, node), q)
                  == if q == base + [n] then Some(Described(e, data))
                     else if base + [n] <= q then None else Lookup(v.root, q) {
      SetChildLookup(v.root, base, n, node, q);
      if base + [n] <= q {
        NodeOfLookup(Described(e, data), q[|base| + 1..]);
      }
    }
  }

  lemma {:induction false} LongerPath(p: seq<Text>, q: seq<Text>)
    requires ValidNames(q) && p < q
    ensures |PathString(p)| < |PathString(q)|
    decreases |q|
  {
    hide PathString;
    var base, n := q[..|q| - 1], q[|q| - 1];
    assert q == base + [n] && p <= base;
    ChildPath(base, n);
    if p != base { LongerPath(p, base); }
  }

  /** An entry's path, once more. */
  lemma EntryPath(t: Node, e: Entry, data: Bytes)
    requires ValidTree(t) && EntryAt(t, [], e, data)
    ensures var q := PartsOf(e.path);
            ValidNames(q) && e.path == PathString(q) && Lookup(t, q) == Some(Described(e, data))
  {
    hide PartsOf, PathString, Lookup, Described;
    var q := PartsOf(e.path);
    assert q[0..] == q;
    ValidLookup(t, q);
  }

  /** The entries, in the order they are installed, with the next one picked out. */
  ghost predicate InOrder(t: Node, done: seq<Entry>, e: Entry, rest: seq<Entry>, data: Bytes) {
    var all := done + [e] + rest;
    ValidTree(t) && Listing(t, [], all, data) && Sorted(all) && Has(done, [])
  }

  lemma DoneBefore(t: Node, done: seq<Entry>, e: Entry, rest: seq<Entry>, data: Bytes, f: Entry)
    requires InOrder(t, done, e, rest, data) && f in done + [e] + rest
    ensures |f.path| < |e.path| ==> f in done
    ensures f in done ==> |f.path| <= |e.path| && f.path != e.path
    ensures EntryAt(t, [], f, data)
  {
    hide EntryAt, Has, Lookup;
    var all := done + [e] + rest;
    assert all[|done|] == e && forall i :: 0 <= i < |done| ==> all[i] == done[i];
    if f in done {
      var k :| 0 <= k < |done| && done[k] == f;
      assert all[k] == f;
    } else {
      var k :| 0 <= k < |all| && all[k] == f;
    }
  }

  /** The parent of the next entry is there already. */
  lemma ParentBefore(t: Node, v: Node, done: seq<Entry>, e: Entry, rest: seq<Entry>, data: Bytes) returns (base: seq<Text>, n: Text)
    requires InOrder(t, done, e, rest, data) && Built(t, v, done)
    ensures ValidNames(base) && ValidName(n) && PartsOf(e.path) == base + [n] && e.path == PathString(base + [n])
    ensures IsDir(Lookup(v, base)) && Lookup(t, base + [n]) == Some(Described(e, data))
  {
    hide PartsOf, PathString, Described, EntryAt, Lookup, Listing;
    var all := done + [e] + rest;
    assert e in all;
    DoneBefore(t, done, e, rest, data, e);
    EntryPath(t, e, data);
    var q := PartsOf(e.path);
    assert q != [] by {
      var r :| r in done && PartsOf(r.path) == [];
      DoneBefore(t, done, e, rest, data, r);
      EntryPath(t, r, data);
    }
    base, n := q[..|q| - 1], q[|q| - 1];
    assert q == base + [n];
    LookupParent(t, base, n);
    ChildPath(base, n);
    Covered(t, all, data, base);
    var f :| f in all && PartsOf(f.path) == base;
    DoneBefore(t, done, e, rest, data, f);
    EntryPath(t, f, data);
    assert Has(done, base);
    if base == [] { DirLookup(v); }
  }

  lemma DirLookup(v: Node)
    requires v.Dir?
    ensures IsDir(Lookup(v, []))
  {
  }

  lemma Covered(t: Node, es: seq<Entry>, data: Bytes, q: seq<Text>)
    requires Listing(t, [], es, data) && Lookup(t, q).Some?
    ensures Has(es, q)
  {
    hide Has, Lookup, EntryAt;
    assert [] + q == q;
  }

  /** Nothing below the next entry is there yet. */
  lemma NothingBelow(t: Node, done: seq<Entry>, e: Entry, rest: seq<Entry>, data: Bytes, q: seq<Text>)
    requires InOrder(t, done, e, rest, data) && PartsOf(e.path) < q
    ensures !Has(done, q)
  {
    hide PartsOf, PathString, Described, EntryAt, Lookup, Listing;
    if Has(done, q) {
      var f :| f in done && PartsOf(f.path) == q;
      DoneBefore(t, done, e, rest, data, f);
      DoneBefore(t, done, e, rest, data, e);
      EntryPath(t, f, data);
      EntryPath(t, e, data);
      LongerPath(PartsOf(e.path), q);
      assert false;
    }
  }

  lemma HasMore(done: seq<Entry>, e: Entry, q: seq<Text>)
    ensures Has(done + [e], q) <==> Has(done, q) || PartsOf(e.path) == q
  {
    hide PartsOf;
    if Has(done, q) {
      var f :| f in done && PartsOf(f.path) == q;
      assert f in done + [e];
    } else if PartsOf(e.path) == q {
      assert e in done + [e];
    }
  }

  lemma InstallNext(t: Node, v: Vfs, done: seq<Entry>, e: Entry, rest: seq<Entry>, data: Bytes)
    requires InOrder(t, done, e, rest, data) && Built(t, v.root, done)
    ensures var r := Install(v, e, data);
            && r.Some? && r.value.nextIno == v.nextIno && r.value.now == v.now
            && r.value.root.attr == v.root.attr && Built(t, r.value.root, done + [e])
  {
    hide PartsOf, PathString, Described, EntryAt, Lookup, Listing, Install, Has, InOrder;
    var base, n := ParentBefore(t, v.root, done, e, rest, data);
    InstallLookup(v, e, data, base, n);
    var w := Install(v, e, data).value.root;
    forall q | q != [] ensures Lookup(w, q) == if Has(done + [e], q) then Lookup(t, q) else None {
      HasMore(done, e, q);
      if base + [n] <= q && q != base + [n] {
        NothingBelow(t, done, e, rest, data, q);
      }
    }
  }

  lemma {:induction false} InstallRest(t: Node, v: Vfs, done: seq<Entry>, es: seq<Entry>, data: Bytes)
    requires ValidTree(t) && Listing(t, [], done + es, data) && Sorted(done + es) && Has(done, [])
    requires Built(t, v.root, done)
    ensures var r := InstallAll(v, es, data);
            && r.Some? && r.value.nextIno == v.nextIno && r.value.now == v.now
            && r.value.root.attr == v.root.attr && Built(t, r.value.root, done + es)
    decreases |es|
  {
    hide Listing, Install, Has, Built, ValidTree, Sorted;
    if es == [] {
      assert done + es == done;
    } else {
      assert es == [es[0]] + es[1..];
      assert done + es == done + [es[0]] + es[1..];
      InstallNext(t, v, done, es[0], es[1..], data);
      HasMore(done, es[0], []);
      InstallRest(t, Install(v, es[0], data).value, done + [es[0]], es[1..], data);
    }
  }

  lemma RootFirst(t: Node, es: seq<Entry>, data: Bytes)
    requires ValidTree(t) && Listing(t, [], es, data) && Sorted(es)
    ensures es != [] && es[0].path == [SLASH] && PartsOf(es[0].path) == [] && es[0].attr == t.attr
  {
    hide PartsOf, PathString, Described, EntryAt, Lookup;
    RootThere(t);
    Covered(t, es, data, []);
    var r :| r in es && PartsOf(r.path) == [];
    var k :| 0 <= k < |es| && es[k] == r;
    EntryPath(t, r, data);
    EntryPath(t, es[0], data);
    RootOnly([]);
    assert k > 0 ==> |es[0].path| <= |es[k].path| && es[0].path != es[k].path;
    if PartsOf(es[0].path) != [] { LongerPath([], PartsOf(es[0].path)); }
    RootDescribed(t, r, data);
  }

  lemma RootThere(t: Node)
    ensures Lookup(t, []) == Some(InfoOf(t))
  {
  }

  lemma RootDescribed(t: Node, e: Entry, data: Bytes)
    requires Lookup(t, []) == Some(Described(e, data))
    ensures e.attr == t.attr
  {
  }

  /** The restored root differs in its number, its device and its link count. */
  function Reset(t: Node): Node { t.(attr := t.attr.(ino := 1, rdev := 0, nlink := None)) }

  lemma {:induction false} ResetLookup(t: Node, q: seq<Text>)
    requires t.Dir?
    ensures Lookup(Reset(t), q) == if q == [] then Some(DirInfo(Reset(t).attr)) else Lookup(t, q)
  {
  }

  lemma RestoreSorted(t: Node, es: seq<Entry>, data: Bytes, nextIno: int, now: int)
    requires ValidTree(t) && t.Dir? && Listing(t, [], es, data) && Sorted(es)
    ensures InstallAll(EmptyVfs(nextIno, now), es, data) == Some(Vfs(Reset(t), nextIno, now))
  {
    hide PartsOf, PathString, Described, EntryAt, Lookup, Listing, Has, ValidTree, Sorted;
    RootFirst(t, es, data);
    var v := EmptyVfs(nextIno, now);
    var v1 := Install(v, es[0], data).value;
    assert v1.root == Dir(Reset(t).attr, map[]);
    var done := [es[0]];
    RootBuilt(t, v1.root, es[0]);
    assert es == done + es[1..];
    InstallRest(t, v1, done, es[1..], data);
    var w := InstallAll(v1, es[1..], data).value.root;
    forall q ensures Lookup(w, q) == Lookup(Reset(t), q) {
      ResetLookup(t, q);
      if q == [] { RootThere(w); }
      else if Lookup(t, q).Some? { Covered(t, es, data, q); }
    }
    Extensional(w, Reset(t));
  }

  lemma RootBuilt(t: Node, v: Node, e: Entry)
    requires v.Dir? && v.children == map[] && PartsOf(e.path) == []
    ensures Built(t, v, [e]) && Has([e], [])
  {
    assert e in [e];
    forall q | q != [] ensures !Has([e], q) && Lookup(v, q) == None {
    }
  }

  /** Whatever the order the collector listed the nodes in, restoring gives the
      same names, types, metadata, targets and bytes; every parent is there
      before its children, so no directory is made up on the way (`nextIno` is
      unchanged); only the root's own number, device and link count are reset. */
  lemma RestoreCollected(t: Node, es: seq<Entry>, data: Bytes, nextIno: int, now: int)
    requires ValidTree(t) && t.Dir? && Listing(t, [], es, data)
    ensures Restore(es, data, nextIno, now) == Some(Vfs(Reset(t), nextIno, now))
  {
    hide Listing, ValidTree, Sorted, SortByLength, InstallAll;
    ListingSorted(t, es, data);
    RestoreSorted(t, SortByLength(es), data, nextIno, now);
  }

  /** So the tree comes back unchanged if and only if its root has the number, the
      device and the link count of a new root. */
  lemma RestoredIff(t: Node, es: seq<Entry>, data: Bytes, nextIno: int, now: int)
    requires ValidTree(t) && t.Dir? && Listing(t, [], es, data)
    ensures Restore(es, data, nextIno, now) == Some(Vfs(t, nextIno, now))
            <==> t.attr.ino == 1 && t.attr.rdev == 0 && t.attr.nlink == None
  {
    hide Listing, ValidTree, Restore;
    RestoreCollected(t, es, data, nextIno, now);
  }

  // ---- the binary container -------------------------------------------------------------

  const MAGIC: Bytes := [0x4f, 0x58, 0x46, 0x53, 0x31, 0, 0, 0]
  const VERSION: U32 := 1
  const HEADER: nat := 24

  /** `setUint32(..., true)`, which keeps the low 32 bits. */
  function Word(n: nat): (b: Bytes)
    ensures |b| == 4
  {
    var v := Wrap(n);
    [ByteOf(v, 0), ByteOf(v, 1), ByteOf(v, 2), ByteOf(v, 3)]
  }

  function ReadWord(b: Bytes, off: nat): U32
    requires off + 4 <= |b|
  {
    FromBytes(b[off], b[off + 1], b[off + 2], b[off + 3])
  }

  /** `serializeVfsBinary`, around the encoded entries. */
  function Pack(count: nat, meta: Bytes, data: Bytes): Bytes {
    MAGIC + Word(VERSION) + Word(count) + Word(|meta|) + Word(|data|) + meta + data
  }

  datatype Unpacked = Parts(meta: Bytes, data: Bytes) | NotASnapshot | WrongVersion | TooShort

  /** The front of `restoreVfsBinary`. */
  function Unpack(b: Bytes): Unpacked {
    if b[..Min(8, |b|)] != MAGIC then NotASnapshot
    else if |b| < 12 then TooShort
    else if ReadWord(b, 8) != VERSION then WrongVersion
    else if |b| < HEADER then TooShort
    else
      var start := HEADER + ReadWord(b, 16);
      Parts(Slice(b, HEADER, ReadWord(b, 16)), Slice(b, start, ReadWord(b, 20)))
  }

  lemma WordRead(front: Bytes, n: nat, more: Bytes)
    ensures ReadWord(front + Word(n) + more, |front|) == Wrap(n)
  {
    hide ByteOf, FromBytes;
    BytesRoundTrip(Wrap(n));
    var b := front + Word(n) + more;
    assert b[|front|] == Word(n)[0] && b[|front| + 1] == Word(n)[1];
    assert b[|front| + 2] == Word(n)[2] && b[|front| + 3] == Word(n)[3];
  }

  /** A container regrouped around each of its words. */
  lemma Regroup(p: Bytes, v: Bytes, c: Bytes, m: Bytes, d: Bytes, meta: Bytes, data: Bytes)
    ensures var b := p + v + c + m + d + meta + data;
            && b == p + v + (c + m + d + meta + data)
            && b == (p + v) + c + (m + d + meta + data)
            && b == (p + v + c) + m + (d + meta + data)
            && b == (p + v + c + m) + d + (meta + data)
  {
  }

  lemma FrontBack(p: Bytes, rest: Bytes, meta: Bytes, data: Bytes)
    ensures var b := p + rest + meta + data;
            |b| == |p| + |rest| + |meta| + |data| && b[..|p|] == p && b[|p| + |rest|..] == meta + data
  {
  }

  lemma PackParts(count: nat, meta: Bytes, data: Bytes)
    ensures var b := Pack(count, meta, data);
            |b| == HEADER + |meta| + |data| && b[..8] == MAGIC && b[HEADER..] == meta + data
  {
    hide Word, Wrap;
    var (v, c, m, d) := (Word(VERSION), Word(count), Word(|meta|), Word(|data|));
    FrontBack(MAGIC, v + c + m + d, meta, data);
    assert MAGIC + v + c + m + d == MAGIC + (v + c + m + d);
  }

  lemma PackWords(count: nat, meta: Bytes, data: Bytes)
    ensures var b := Pack(count, meta, data);
            && |b| >= HEADER && ReadWord(b, 8) == VERSION && ReadWord(b, 12) == Wrap(count)
            && ReadWord(b, 16) == Wrap(|meta|) && ReadWord(b, 20) == Wrap(|data|)
  {
    hide Word, ReadWord, Wrap;
    var (v, c, m, d) := (Word(VERSION), Word(count), Word(|meta|), Word(|data|));
    Regroup(MAGIC, v, c, m, d, meta, data);
    WordRead(MAGIC, VERSION, c + m + d + meta + data);
    WordRead(MAGIC + v, count, m + d + meta + data);
    WordRead(MAGIC + v + c, |meta|, d + meta + data);
    WordRead(MAGIC + v + c + m, |data|, meta + data);
    SmallWrap();
  }

  /** What lies before the two parts: the magic number, the version, the number of
      entries and the two lengths, each in 32 bits with its lowest byte first. */
  lemma PackFront(count: nat, meta: Bytes, data: Bytes)
    ensures var b := Pack(count, meta, data);
            && |b| == 24 + |meta| + |data|
            && b[..8] == [0x4f, 0x58, 0x46, 0x53, 0x31, 0, 0, 0]
            && ReadWord(b, 8) == 1 && ReadWord(b, 12) == count % 0x1_0000_0000
            && ReadWord(b, 16) == |meta| % 0x1_0000_0000 && ReadWord(b, 20) == |data| % 0x1_0000_0000
  {
    hide Pack, ReadWord, Wrap;
    PackParts(count, meta, data);
    PackWords(count, meta, data);
    WrapIsMod(count);
    WrapIsMod(|meta|);
    WrapIsMod(|data|);
  }

  lemma SmallWrap()
    ensures Wrap(VERSION) == VERSION
  {
  }

  lemma SliceShorter(b: Bytes, offset: nat, length: nat)
    ensures |Slice(b, offset, length)| <= length
  {
  }

  lemma SlicePart(front: Bytes, s: Bytes, more: Bytes)
    ensures Slice(front + s + more, |front|, |s|) == s
  {
  }

  lemma WrapExact(n: nat)
    ensures Wrap(n) == n <==> n < TWO32
    ensures Wrap(n) <= n
  {
  }

  /** The container gives its two parts back exactly when their lengths fit the
      32-bit fields of its header. */
  lemma UnpackIff(count: nat, meta: Bytes, data: Bytes)
    ensures Unpack(Pack(count, meta, data)) == Parts(meta, data) <==> |meta| < TWO32 && |data| < TWO32
  {
    hide Pack, ReadWord, Slice, Wrap;
    var b := Pack(count, meta, data);
    PackParts(count, meta, data);
    PackWords(count, meta, data);
    WrapExact(|meta|);
    WrapExact(|data|);
    SliceShorter(b, HEADER, Wrap(|meta|));
    SliceShorter(b, HEADER + Wrap(|meta|), Wrap(|data|));
    var front := b[..HEADER];
    assert b == front + meta + data;
    SlicePart(front, meta, data);
    SlicePart(front + meta, data, []);
    assert (front + meta) + data + [] == b;
  }

  // ---- the code -------------------------------------------------------------------------

  /** `restoreVfsBinary` on decoded entries, one entry at a time. */
  method RestoreVfs(entries: seq<Entry>, data: Bytes, nextIno: int, now: int) returns (r: Option<Vfs>)
    ensures r == Restore(entries, data, nextIno, now)
  {
    hide Install, SortByLength;
    var es := SortByLength(entries);
    var vfs := EmptyVfs(nextIno, now);
    var i := 0;
    assert es[0..] == es;
    while i < |es|
      invariant 0 <= i <= |es|
      invariant InstallAll(EmptyVfs(nextIno, now), es, data) == InstallAll(vfs, es[i..], data)
    {
      assert es[i..][0] == es[i] && es[i..][1..] == es[i + 1..];
      var step := Install(vfs, es[i], data);
      if step.None? { return None; }
      vfs := step.value;
      i := i + 1;
    }
    r := Some(vfs);
  }

  /** Save and load: whatever order the nodes are listed in, and with any codec for
      the entries that loses nothing, what is collected, packed, unpacked and
      restored is the tree, while both parts fit the container. */
  lemma SaveAndLoad(t: Node, es: seq<Entry>, data: Bytes, encode: seq<Entry> -> Bytes, decode: Bytes -> seq<Entry>,
                    nextIno: int, now: int)
    requires ValidTree(t) && t.Dir? && Listing(t, [], es, data) && decode(encode(es)) == es
    requires |encode(es)| < TWO32 && |data| < TWO32
    ensures var p := Unpack(Pack(|es|, encode(es), data));
            p.Parts? && Restore(decode(p.meta), p.data, nextIno, now) == Some(Vfs(Reset(t), nextIno, now))
  {
    hide Listing, ValidTree, Restore, Pack, Unpack;
    UnpackIff(|es|, encode(es), data);
    RestoreCollected(t, es, data, nextIno, now);
  }
}
