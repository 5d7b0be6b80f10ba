/** Absolute paths as `norm` of src/tar.js and `VFS.normalize` of src/vfs.js treat
    them. A string is the list of its code units. */
module Paths {
  type Text = seq<int>

  const SLASH: int := 0x2f
  const DOT: int := 0x2e

  function Split(s: Text): (parts: seq<Text>)
    ensures |parts| > 0
  {
    if s == [] then [[]]
    else
      var rest := Split(s[1..]);
      if s[0] == SLASH then [[]] + rest else [[s[0]] + rest[0]] + rest[1..]
  }

  function JoinParts(parts: seq<Text>): Text {
    if parts == [] then [] else if |parts| == 1 then parts[0] else parts[0] + [SLASH] + JoinParts(parts[1..])
  }

  /** The stack of path parts that `norm` builds. */
  function Resolve(parts: seq<Text>, stack: seq<Text>): seq<Text>
    decreases |parts|
  {
    if parts == [] then stack
    else
      var p := parts[0];
      var stack' := if p == [] || p == [DOT] then stack
                    else if p == [DOT, DOT] then (if stack == [] then stack else stack[..|stack| - 1])
                    else stack + [p];
      Resolve(parts[1..], stack')
  }

  function Norm(path: Text): Text { [SLASH] + JoinParts(Resolve(Split(path), [])) }

  /** The name of a directory entry: what path resolution leaves alone. */
  predicate ValidName(n: Text) { n != [] && n != [DOT] && n != [DOT, DOT] && SLASH !in n }

  predicate ValidNames(parts: seq<Text>) { forall i :: 0 <= i < |parts| ==> ValidName(parts[i]) }

  /** The path of a node from the names on the way to it. */
  function PathString(parts: seq<Text>): Text { [SLASH] + JoinParts(parts) }

  lemma {:induction false} SplitName(n: Text, rest: Text)
    requires SLASH !in n
    ensures Split(n + [SLASH] + rest) == [n] + Split(rest)
    ensures Split(n) == [n]
    decreases |n|
  {
    var s := n + [SLASH] + rest;
    if n == [] {
      assert s[0] == SLASH && s[1..] == rest;
    } else {
      assert s[0] == n[0] && s[1..] == n[1..] + [SLASH] + rest;
      SplitName(n[1..], rest);
      assert [n[0]] + n[1..] == n;
    }
  }

  lemma {:induction false} SplitJoin(parts: seq<Text>)
    requires ValidNames(parts) && parts != []
    ensures Split(JoinParts(parts)) == parts
    decreases |parts|
  {
    if |parts| == 1 {
      SplitName(parts[0], []);
    } else {
      SplitName(parts[0], JoinParts(parts[1..]));
      SplitJoin(parts[1..]);
    }
  }

  lemma SplitPath(parts: seq<Text>)
    requires ValidNames(parts)
    ensures Split(PathString(parts)) == [[]] + if parts == [] then [[]] else parts
  {
    var s := JoinParts(parts);
    assert PathString(parts)[1..] == s;
    if parts == [] { assert s == []; } else { SplitJoin(parts); }
  }

  lemma {:induction false} ResolveValid(parts: seq<Text>, stack: seq<Text>)
    requires ValidNames(parts)
    ensures Resolve(parts, stack) == stack + parts
    decreases |parts|
  {
    if parts != [] {
      ResolveValid(parts[1..], stack + [parts[0]]);
    }
  }

  /** The names on the way to a path. */
  function PartsOf(path: Text): seq<Text> { Resolve(Split(path), []) }

  /** Naming a node by its path and resolving the path are inverse. */
  lemma PartsRoundTrip(parts: seq<Text>)
    requires ValidNames(parts)
    ensures PartsOf(PathString(parts)) == parts && Norm(PathString(parts)) == PathString(parts)
  {
    SplitPath(parts);
    if parts != [] {
      assert ([[]] + parts)[1..] == parts;
      ResolveValid(parts, []);
      assert [] + parts == parts;
    } else {
      var empty: seq<Text> := [[]];
      assert ([[]] + empty)[1..] == empty && empty[1..] == [];
      assert Resolve(empty, []) == [];
    }
  }

  lemma {:induction false} SplitClean(s: Text)
    ensures forall i :: 0 <= i < |Split(s)| ==> SLASH !in Split(s)[i]
  {
    if s != [] {
      SplitClean(s[1..]);
    }
  }

  lemma {:induction false} ResolveClean(parts: seq<Text>, stack: seq<Text>)
    requires ValidNames(stack) && forall i :: 0 <= i < |parts| ==> SLASH !in parts[i]
    ensures ValidNames(Resolve(parts, stack))
    decreases |parts|
  {
    if parts != [] {
      var p := parts[0];
      var stack' := if p == [] || p == [DOT] then stack
                    else if p == [DOT, DOT] then (if stack == [] then stack else stack[..|stack| - 1])
                    else stack + [p];
      ResolveClean(parts[1..], stack');
    }
  }

  /** A normal path climbs nowhere: it has no empty part, no "." and no "..", and
      normalizing it again changes nothing. */
  lemma NormClean(path: Text)
    ensures ValidNames(PartsOf(path)) && Norm(path) == PathString(PartsOf(path)) && Norm(Norm(path)) == Norm(path)
  {
    SplitClean(path);
    ResolveClean(Split(path), []);
    PartsRoundTrip(PartsOf(path));
  }

  /** `VFS.normalize`: a relative path starts from the working directory. */
  function Normalize(path: Text, cwd: Text): Text {
    if path == [] then cwd else Norm(if path[0] == SLASH then path else cwd + [SLASH] + path)
  }

  lemma {:induction false} SplitAppend(s: Text, t: Text)
    ensures Split(s + [SLASH] + t) == Split(s) + Split(t)
    decreases |s|
  {
    var whole := s + [SLASH] + t;
    if s == [] {
      assert whole[0] == SLASH && whole[1..] == t;
    } else {
      assert whole[0] == s[0] && whole[1..] == s[1..] + [SLASH] + t;
      SplitAppend(s[1..], t);
    }
  }

  lemma {:induction false} ResolveAppend(a: seq<Text>, b: seq<Text>, stack: seq<Text>)
    ensures Resolve(a + b, stack) == Resolve(b, Resolve(a, stack))
    decreases |a|
  {
    if a == [] {
      assert a + b == b;
    } else {
      var p := a[0];
      var stack' := if p == [] || p == [DOT] then stack
                    else if p == [DOT, DOT] then (if stack == [] then stack else stack[..|stack| - 1])
                    else stack + [p];
      assert (a + b)[1..] == a[1..] + b;
      ResolveAppend(a[1..], b, stack');
    }
  }

  /** The names that s comes to, then those of t after them. */
  lemma TwoParts(s: Text, t: Text)
    ensures PartsOf(s + [SLASH] + t) == Resolve(Split(t), PartsOf(s))
  {
    hide Split, Resolve;
    SplitAppend(s, t);
    ResolveAppend(Split(s), Split(t), []);
  }

  /** A name, and a part that is empty, "." or "..", resolved alone. */
  lemma OnePart(n: Text, stack: seq<Text>)
    requires SLASH !in n
    ensures Split(n) == [n]
    ensures ValidName(n) ==> Resolve([n], stack) == stack + [n]
    ensures n == [] || n == [DOT] ==> Resolve([n], stack) == stack
    ensures n == [DOT, DOT] ==> Resolve([n], stack) == if stack == [] then [] else stack[..|stack| - 1]
  {
    SplitName(n, []);
    assert [n][1..] == [];
  }

  /** ".." undoes the name before it: the path may do without both. */
  lemma DotDotUndoes(s: Text, n: Text, t: Text)
    requires ValidName(n)
    ensures Norm(s + [SLASH] + n + [SLASH, DOT, DOT, SLASH] + t) == Norm(s + [SLASH] + t)
  {
    hide Split, Resolve, JoinParts;
    var (a, b) := (s + [SLASH] + n, s + [SLASH] + n + [SLASH] + [DOT, DOT]);
    TwoParts(s, n);
    TwoParts(a, [DOT, DOT]);
    TwoParts(b, t);
    TwoParts(s, t);
    OnePart(n, PartsOf(s));
    OnePart([DOT, DOT], PartsOf(a));
    assert (PartsOf(s) + [n])[..|PartsOf(s)|] == PartsOf(s);
    assert a + [SLASH, DOT, DOT, SLASH] + t == b + [SLASH] + t;
  }

  /** At the root there is nothing to undo. */
  lemma DotDotAtRoot(t: Text)
    ensures Norm([0x2f, 0x2e, 0x2e, 0x2f] + t) == Norm([0x2f] + t)
  {
    hide Split, Resolve, JoinParts;
    RootParts();
    TwoParts([], t);
    TwoParts([], [DOT, DOT]);
    OnePart([DOT, DOT], []);
    TwoParts([] + [SLASH] + [DOT, DOT], t);
    assert [] + [SLASH] + [DOT, DOT] + [SLASH] + t == [SLASH, DOT, DOT, SLASH] + t;
    assert [] + [SLASH] + t == [SLASH] + t;
  }

  lemma RootParts()
    ensures PartsOf([]) == []
  {
    var empty: seq<Text> := [[]];
    assert Split([]) == empty && empty[1..] == [];
  }

  /** An empty part and "." may be left out anywhere. */
  lemma EmptyPartSkipped(s: Text, n: Text, t: Text)
    requires n == [] || n == [DOT]
    ensures Norm(s + [SLASH] + n + [SLASH] + t) == Norm(s + [SLASH] + t)
  {
    hide Split, Resolve, JoinParts;
    TwoParts(s, n);
    OnePart(n, PartsOf(s));
    TwoParts(s + [SLASH] + n, t);
    TwoParts(s, t);
  }

  /** So may a last part of these kinds, and a last ".." takes the name before it. */
  lemma LastPart(s: Text, n: Text)
    ensures Norm(s + [SLASH]) == Norm(s) && Norm(s + [SLASH, DOT]) == Norm(s)
    ensures ValidName(n) ==> Norm(s + [SLASH] + n + [SLASH, DOT, DOT]) == Norm(s)
  {
    hide Split, Resolve, JoinParts;
    TwoParts(s, []);
    TwoParts(s, [DOT]);
    OnePart([], PartsOf(s));
    OnePart([DOT], PartsOf(s));
    assert s + [SLASH] + [] == s + [SLASH] && s + [SLASH] + [DOT] == s + [SLASH, DOT];
    if ValidName(n) {
      TwoParts(s, n);
      OnePart(n, PartsOf(s));
      TwoParts(s + [SLASH] + n, [DOT, DOT]);
      OnePart([DOT, DOT], PartsOf(s + [SLASH] + n));
      assert (PartsOf(s) + [n])[..|PartsOf(s)|] == PartsOf(s);
      assert s + [SLASH] + n + [SLASH, DOT, DOT] == s + [SLASH] + n + [SLASH] + [DOT, DOT];
    }
  }

  /** Any other last name is kept as it is. */
  lemma NameKept(s: Text, n: Text)
    requires ValidName(n)
    ensures Norm(s + [SLASH] + n) == Child(Norm(s), n)
  {
    hide Split, Resolve, JoinParts, Child;
    TwoParts(s, n);
    OnePart(n, PartsOf(s));
    NormClean(s);
    ChildPath(PartsOf(s), n);
  }

  /** A relative path is resolved from the names of the working directory on, an
      absolute one from the root; normalizing the outcome again, from anywhere,
      changes nothing. */
  lemma NormalizeParts(path: Text, cwd: Text, elsewhere: Text)
    requires path != []
    ensures PartsOf(Normalize(path, cwd)) == Resolve(Split(path), if path[0] == SLASH then [] else PartsOf(cwd))
    ensures Normalize(path, cwd) == Norm(if path[0] == SLASH then path else Norm(cwd) + [SLASH] + path)
    ensures Normalize(path, cwd) == PathString(PartsOf(Normalize(path, cwd)))
    ensures Normalize(Normalize(path, cwd), elsewhere) == Normalize(path, cwd)
  {
    hide Split, Resolve, JoinParts;
    var source := if path[0] == SLASH then path else cwd + [SLASH] + path;
    NormClean(source);
    PartsRoundTrip(PartsOf(source));
    if path[0] != SLASH {
      TwoParts(cwd, path);
      TwoParts(Norm(cwd), path);
      NormClean(cwd);
      PartsRoundTrip(PartsOf(cwd));
    }
  }

  /** `lastIndexOf("/")`. */
  function LastSlash(s: Text): (i: int)
    ensures -1 <= i < |s|
  {
    if s == [] then -1 else if s[|s| - 1] == SLASH then |s| - 1 else LastSlash(s[..|s| - 1])
  }

  /** `substring(0, lastIndexOf("/")) || "/"`. */
  function Dirname(s: Text): Text {
    var i := LastSlash(s);
    if i <= 0 then [SLASH] else s[..i]
  }

  function Basename(s: Text): Text { s[LastSlash(s) + 1..] }

  lemma {:induction false} LastSlashAt(s: Text, n: Text)
    requires SLASH !in n
    ensures LastSlash(s + [SLASH] + n) == |s|
    decreases |n|
  {
    var t := s + [SLASH] + n;
    if n == [] {
      assert t[|t| - 1] == SLASH;
    } else {
      assert t[|t| - 1] == n[|n| - 1] && t[..|t| - 1] == s + [SLASH] + n[..|n| - 1];
      LastSlashAt(s, n[..|n| - 1]);
    }
  }

  /** `joinPath`: the path of an entry of a directory. */
  function Child(parent: Text, name: Text): Text {
    if parent == [SLASH] then [SLASH] + name else parent + [SLASH] + name
  }

  lemma {:induction false} JoinSnoc(parts: seq<Text>, n: Text)
    ensures JoinParts(parts + [n]) == if parts == [] then n else JoinParts(parts) + [SLASH] + n
    decreases |parts|
  {
    if |parts| == 0 {
      assert parts + [n] == [n];
    } else {
      assert (parts + [n])[0] == parts[0] && (parts + [n])[1..] == parts[1..] + [n];
      JoinSnoc(parts[1..], n);
      Regroup(parts[0], JoinParts(parts[1..]), n);
    }
  }

  lemma Regroup(a: Text, b: Text, c: Text)
    ensures a + [SLASH] + (b + [SLASH] + c) == (a + [SLASH] + b) + [SLASH] + c
  {
  }

  lemma RootOnly(parts: seq<Text>)
    requires ValidNames(parts)
    ensures PathString(parts) == [SLASH] <==> parts == []
  {
    PartsRoundTrip(parts);
    PartsRoundTrip([]);
    assert PathString([]) == [SLASH] + [];
  }

  /** Extending a path by a name, and taking it apart again. */
  lemma ChildPath(parts: seq<Text>, n: Text)
    requires ValidNames(parts) && ValidName(n)
    ensures PathString(parts + [n]) == Child(PathString(parts), n)
    ensures Dirname(PathString(parts + [n])) == PathString(parts) && Basename(PathString(parts + [n])) == n
    ensures |PathString(parts)| < |PathString(parts + [n])|
  {
    hide JoinParts, LastSlash;
    JoinSnoc(parts, n);
    RootOnly(parts);
    var s := PathString(parts);
    if parts == [] {
      LastSlashAt([], n);
      assert parts + [n] == [n];
      assert PathString([n]) == [] + [SLASH] + n;
    } else {
      LastSlashAt(s, n);
      assert PathString(parts + [n]) == s + [SLASH] + n;
      assert (s + [SLASH] + n)[|s| + 1..] == n;
    }
  }

  /** `norm`. */
  method NormPath(path: Text) returns (r: Text)
    ensures r == Norm(path)
  {
    var pieces := Split(path);
    var parts: seq<Text> := [];
    for i := 0 to |pieces|
      invariant Resolve(pieces, []) == Resolve(pieces[i..], parts)
    {
      var p := pieces[i];
      assert pieces[i..][0] == p && pieces[i..][1..] == pieces[i + 1..];
      if p == [] || p == [DOT] {
      } else if p == [DOT, DOT] {
        if parts != [] { parts := parts[..|parts| - 1]; }
      } else {
        parts := parts + [p];
      }
    }
    r := [SLASH] + JoinParts(parts);
  }
}
