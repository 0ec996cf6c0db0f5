/** Directories as a value, path texts, and the lookup of fs/vfs/vfs.c on them. */
module PathModel {
  import opened Basics

  /** A tree of nodes: parent links, children in list order, names, and depths. */
  datatype Tree<N(==)> = Tree(root: N, parent: map<N, N>, kids: map<N, seq<N>>, name: map<N, string>, depth: map<N, nat>)

  ghost predicate WellFormed<N>(t: Tree<N>) {
    && t.root in t.kids && t.root in t.depth && t.depth[t.root] == 0
    && t.kids.Keys == t.name.Keys == t.depth.Keys && t.parent.Keys == t.kids.Keys - {t.root}
    && (forall n :: n in t.parent ==>
          t.parent[n] in t.kids && n in t.kids[t.parent[n]] && t.depth[n] == t.depth[t.parent[n]] + 1)
    && (forall n, i :: n in t.kids && 0 <= i < |t.kids[n]| ==>
          t.kids[n][i] in t.parent && t.parent[t.kids[n][i]] == n)
  }

  /** Just a root directory. */
  ghost function Sole<N>(n: N): Tree<N> {
    Tree(n, map[], map[n := []], map[n := "/"], map[n := 0])
  }

  // ---------------------------------------------------------------- texts

  function SkipSlashes(s: string): (r: string)
    ensures |r| <= |s| && (r != [] ==> r[0] != '/')
    ensures s != [] && s[0] == '/' ==> |r| < |s|
  {
    if s != [] && s[0] == '/' then SkipSlashes(s[1..]) else s
  }

  /** The length of the leading part without a slash. */
  function TokenLength(s: string): (k: nat)
    ensures k <= |s|
  {
    if s == [] || s[0] == '/' then 0 else 1 + TokenLength(s[1..])
  }

  lemma {:induction false} TokenShape(s: string)
    ensures var k := TokenLength(s);
            (forall i :: 0 <= i < k ==> s[i] != '/') && (k < |s| ==> s[k] == '/')
  {
    if s != [] && s[0] != '/' {
      TokenShape(s[1..]);
    }
  }

  /** The pieces strtok(s, "/") yields one after the other. */
  function Tokens(s: string): seq<string>
    decreases |s|
  {
    var r := SkipSlashes(s);
    if r == [] then []
    else
      var k := TokenLength(r);
      [r[..k]] + Tokens(r[k..])
  }

  /** Each name with a slash before it. */
  function Joined(names: seq<string>): string {
    if names == [] then [] else "/" + names[0] + Joined(names[1..])
  }

  predicate Clean(name: string) {
    name != [] && '/' !in name && name != "." && name != ".."
  }

  // ---------------------------------------------------------------- lookup

  /** The first child with a name, as root_finddir scans them. */
  ghost function FindIn<N>(t: Tree<N>, kids: seq<N>, s: string): Option<N> {
    if kids == [] then None
    else if kids[0] in t.name && t.name[kids[0]] == s then Some(kids[0])
    else FindIn(t, kids[1..], s)
  }

  ghost function FindDir<N>(t: Tree<N>, n: N, s: string): Option<N> {
    if n in t.kids then FindIn(t, t.kids[n], s) else None
  }

  /** One path component: `.` stays, `..` climbs but not above the root, anything else is
      looked up by name. */
  ghost function Enter<N>(t: Tree<N>, n: N, token: string): Option<N> {
    if token == "." then Some(n)
    else if token == ".." then Some(if n in t.parent then t.parent[n] else n)
    else FindDir(t, n, token)
  }

  ghost function Walk<N>(t: Tree<N>, n: N, tokens: seq<string>): Option<N> {
    if tokens == [] then Some(n)
    else
      match Enter(t, n, tokens[0])
      case None => None
      case Some(m) => Walk(t, m, tokens[1..])
  }

  const PATH_BUFFER := 255

  /** vfs_lookup copies at most 255 characters of the path before it splits it. */
  ghost function Lookup<N>(t: Tree<N>, current: N, path: string): Option<N> {
    if path == "/" then Some(t.root)
    else
      var start := if path != [] && path[0] == '/' then t.root else current;
      Walk(t, start, Tokens(if |path| <= PATH_BUFFER then path else path[..PATH_BUFFER]))
  }

  // ---------------------------------------------------------------- names of a node

  ghost function Names<N>(t: Tree<N>, n: N): seq<string>
    requires WellFormed(t) && n in t.kids
    decreases t.depth[n]
  {
    if n == t.root then [] else Names(t, t.parent[n]) + [t.name[n]]
  }

  /** The absolute path of a node. */
  ghost function PathText<N>(t: Tree<N>, n: N): string
    requires WellFormed(t) && n in t.kids
  {
    if n == t.root then "/" else Joined(Names(t, n))
  }

  /** Every component of the path names the node it should: its name is not empty, has no
      slash, is not a dot name, and no earlier sibling has it. */
  ghost predicate Nameable<N>(t: Tree<N>, n: N)
    requires WellFormed(t) && n in t.kids
    decreases t.depth[n]
  {
    n == t.root ||
    (Nameable(t, t.parent[n]) && Clean(t.name[n]) && FindDir(t, t.parent[n], t.name[n]) == Some(n))
  }

  lemma {:induction false} NamesLength<N>(t: Tree<N>, n: N)
    requires WellFormed(t) && n in t.kids
    ensures |Names(t, n)| == t.depth[n]
    decreases t.depth[n]
  {
    if n != t.root {
      NamesLength(t, t.parent[n]);
    }
  }

  // ---------------------------------------------------------------- splitting what was joined

  lemma {:induction false} JoinedAppend(names: seq<string>, last: string)
    ensures Joined(names + [last]) == Joined(names) + "/" + last
  {
    if names == [] {
      assert Joined([last]) == "/" + last + Joined([]);
    } else {
      JoinedAppend(names[1..], last);
      assert (names + [last])[1..] == names[1..] + [last];
    }
  }

  lemma TokenOf(name: string, rest: string)
    requires '/' !in name && (rest == [] || rest[0] == '/')
    ensures TokenLength(name + rest) == |name|
  {
    var s := name + rest;
    assert forall i :: 0 <= i < |name| ==> s[i] in name;
    assert rest != [] ==> s[|name|] == '/';
    TokenShape(s);
  }

  /** Splitting joined clean names gives the names back. */
  lemma {:induction false} TokensJoined(names: seq<string>)
    requires forall s :: s in names ==> Clean(s)
    ensures Tokens(Joined(names)) == names
  {
    if names != [] {
      var text, rest := Joined(names), Joined(names[1..]);
      assert names[0] in names;
      assert rest == [] || rest[0] == '/';
      assert text[1..] == names[0] + rest;
      assert SkipSlashes(text) == names[0] + rest;
      TokenOf(names[0], rest);
      assert (names[0] + rest)[..|names[0]|] == names[0] && (names[0] + rest)[|names[0]|..] == rest;
      assert names == [names[0]] + names[1..];
      TokensJoined(names[1..]);
    }
  }

  lemma {:induction false} WalkAppend<N>(t: Tree<N>, n: N, tokens: seq<string>, last: string)
    ensures Walk(t, n, tokens + [last]) ==
              match Walk(t, n, tokens) case None => None case Some(m) => Enter(t, m, last)
  {
    if tokens == [] {
      assert [last][1..] == [];
    } else {
      assert (tokens + [last])[1..] == tokens[1..] + [last];
      var e := Enter(t, n, tokens[0]);
      if e.Some? {
        WalkAppend(t, e.value, tokens[1..], last);
      }
    }
  }

  /** Walking the names of a nameable node from the root arrives at it. */
  lemma {:induction false} WalkNames<N>(t: Tree<N>, n: N)
    requires WellFormed(t) && n in t.kids && Nameable(t, n)
    ensures Walk(t, t.root, Names(t, n)) == Some(n)
    ensures forall s :: s in Names(t, n) ==> Clean(s)
    decreases t.depth[n]
  {
    if n != t.root {
      WalkNames(t, t.parent[n]);
      WalkAppend(t, t.root, Names(t, t.parent[n]), t.name[n]);
    }
  }

  // ---------------------------------------------------------------- what a path can reach

  predicate Piece(s: string) {
    s != [] && '/' !in s
  }

  /** Tokens are pieces, and together with a slash each they fit into a text that starts
      with a slash. */
  lemma {:induction false} TokensFit(s: string)
    ensures forall x :: x in Tokens(s) ==> Piece(x)
    ensures s == [] || s[0] == '/' ==> |Joined(Tokens(s))| <= |s|
    decreases |s|
  {
    var r := SkipSlashes(s);
    if r != [] {
      var k := TokenLength(r);
      TokenShape(r);
      TokensFit(r[k..]);
      assert r[..k] != [] && '/' !in r[..k];
      assert Tokens(s)[1..] == Tokens(r[k..]);
    }
  }

  /** From a nameable node no component leads to a node that is not nameable, and the path
      of where it leads is no longer than the text walked. */
  lemma EnterReaches<N>(t: Tree<N>, n: N, token: string)
    requires WellFormed(t) && n in t.kids && Nameable(t, n) && Piece(token)
    ensures match Enter(t, n, token)
            case None => true
            case Some(m) =>
              && m in t.kids && Nameable(t, m)
              && |Joined(Names(t, m))| <= |Joined(Names(t, n))| + 1 + |token|
  {
    if token == "." {
    } else if token == ".." {
      if n in t.parent {
        JoinedAppend(Names(t, t.parent[n]), t.name[n]);
      }
    } else {
      FindInKids(t, t.kids[n], token);
      var m := FindDir(t, n, token);
      if m.Some? {
        JoinedAppend(Names(t, n), token);
      }
    }
  }

  lemma {:induction false} FindInKids<N>(t: Tree<N>, kids: seq<N>, s: string)
    ensures match FindIn(t, kids, s)
            case None => forall k :: k in kids ==> !(k in t.name && t.name[k] == s)
            case Some(m) => m in kids && m in t.name && t.name[m] == s
  {
    if kids != [] {
      FindInKids(t, kids[1..], s);
    }
  }

  lemma {:induction false} WalkReaches<N>(t: Tree<N>, n: N, tokens: seq<string>)
    requires WellFormed(t) && n in t.kids && Nameable(t, n)
    requires forall s :: s in tokens ==> Piece(s)
    ensures match Walk(t, n, tokens)
            case None => true
            case Some(m) =>
              && m in t.kids && Nameable(t, m)
              && |Joined(Names(t, m))| <= |Joined(Names(t, n))| + |Joined(tokens)|
  {
    hide WellFormed, Nameable, Enter;
    if tokens != [] {
      assert tokens[0] in tokens;
      EnterReaches(t, n, tokens[0]);
      var e := Enter(t, n, tokens[0]);
      if e.Some? {
        WalkReaches(t, e.value, tokens[1..]);
      }
    }
  }

  /** Only nameable nodes have an absolute path, and such a path is at least as long as
      the path of the node; nothing past 255 characters counts. */
  lemma AbsoluteReaches<N>(t: Tree<N>, current: N, path: string, n: N)
    requires WellFormed(t) && path != [] && path[0] == '/' && Lookup(t, current, path) == Some(n)
    ensures n in t.kids && Nameable(t, n)
    ensures n != t.root ==> |PathText(t, n)| <= |path| && |PathText(t, n)| <= PATH_BUFFER
  {
    if path != "/" {
      var cut := if |path| <= PATH_BUFFER then path else path[..PATH_BUFFER];
      TokensFit(cut);
      WalkReaches(t, t.root, Tokens(cut));
    }
  }

  /** Looking up the path of a node gives the node exactly when it is nameable and its path
      fits into 255 characters. */
  lemma LookupPath<N>(t: Tree<N>, current: N, n: N)
    requires WellFormed(t) && n in t.kids
    ensures Lookup(t, current, PathText(t, n)) == Some(n) <==>
              n == t.root || (Nameable(t, n) && |PathText(t, n)| <= PATH_BUFFER)
  {
    var path := PathText(t, n);
    if n != t.root {
      JoinedAppend(Names(t, t.parent[n]), t.name[n]);
      assert path[0] == '/';
      if Lookup(t, current, path) == Some(n) {
        AbsoluteReaches(t, current, path, n);
      }
      if Nameable(t, n) && |path| <= PATH_BUFFER {
        WalkNames(t, n);
        TokensJoined(Names(t, n));
      }
    }
  }

  // ---------------------------------------------------------------- new directories

  /** A new first child `c` of `n`, as root_mkdir links it. */
  ghost function AddChild<N>(t: Tree<N>, n: N, c: N, name: string): Tree<N>
    requires n in t.kids && n in t.depth
  {
    Tree(t.root, t.parent[c := n], t.kids[n := [c] + t.kids[n]][c := []], t.name[c := name],
         t.depth[c := t.depth[n] + 1])
  }

  lemma DepthKnown<N>(t: Tree<N>, n: N)
    requires WellFormed(t) && n in t.kids
    ensures n in t.depth
  {
  }

  lemma AddChildWellFormed<N>(t: Tree<N>, n: N, c: N, name: string)
    requires WellFormed(t) && n in t.kids && c !in t.kids
    ensures WellFormed(AddChild(t, n, c, name))
  {
    var u := AddChild(t, n, c, name);
    forall m | m in u.parent
      ensures u.parent[m] in u.kids && m in u.kids[u.parent[m]] && u.depth[m] == u.depth[u.parent[m]] + 1
    {
      if m == c {
        assert u.kids[n][0] == c;
      } else if t.parent[m] == n {
        var i :| 0 <= i < |t.kids[n]| && t.kids[n][i] == m;
        assert u.kids[n][i + 1] == m;
      }
    }
  }

  lemma {:induction false} FindInOther<N>(t: Tree<N>, u: Tree<N>, kids: seq<N>, s: string)
    requires forall k :: k in kids ==> k in t.name && k in u.name && t.name[k] == u.name[k]
    ensures FindIn(u, kids, s) == FindIn(t, kids, s)
  {
    if kids != [] {
      FindInOther(t, u, kids[1..], s);
    }
  }

  lemma {:induction false} AddChildNames<N>(t: Tree<N>, n: N, c: N, name: string, m: N)
    requires WellFormed(t) && n in t.kids && c !in t.kids && m in t.kids
    requires WellFormed(AddChild(t, n, c, name))
    ensures Names(AddChild(t, n, c, name), m) == Names(t, m)
    decreases t.depth[m]
  {
    if m != t.root {
      AddChildNames(t, n, c, name, t.parent[m]);
    }
  }

  /** A lookup in a directory finds what it found before, unless the new child has the name. */
  lemma AddChildFinds<N>(t: Tree<N>, n: N, c: N, name: string, m: N, s: string)
    requires WellFormed(t) && n in t.kids && c !in t.kids && m in t.kids
    ensures FindDir(AddChild(t, n, c, name), m, s) == if m == n && s == name then Some(c) else FindDir(t, m, s)
  {
    var u := AddChild(t, n, c, name);
    forall k | k in t.kids[m]
      ensures k in t.name && k in u.name && t.name[k] == u.name[k]
    {
      var i :| 0 <= i < |t.kids[m]| && t.kids[m][i] == k;
      assert t.kids[m][i] in t.parent;
    }
    FindInOther(t, u, t.kids[m], s);
    if m == n {
      assert u.kids[n][1..] == t.kids[n];
    }
  }

  /** Making a directory with a clean name that its parent does not have yet: the new
      directory is nameable and every directory that was nameable still is. */
  lemma {:induction false} MkdirKeepsNameable<N>(t: Tree<N>, n: N, c: N, name: string, m: N)
    requires WellFormed(t) && n in t.kids && c !in t.kids && m in t.kids
    requires FindDir(t, n, name) == None && Nameable(t, m) && WellFormed(AddChild(t, n, c, name))
    ensures Nameable(AddChild(t, n, c, name), m)
    decreases t.depth[m]
  {
    if m != t.root {
      MkdirKeepsNameable(t, n, c, name, t.parent[m]);
      AddChildFinds(t, n, c, name, t.parent[m], t.name[m]);
    }
  }

  lemma MkdirNameable<N>(t: Tree<N>, n: N, c: N, name: string)
    requires WellFormed(t) && n in t.kids && c !in t.kids
    requires FindDir(t, n, name) == None && Nameable(t, n)
    ensures WellFormed(AddChild(t, n, c, name))
    ensures Nameable(AddChild(t, n, c, name), c) <==> Clean(name)
  {
    AddChildWellFormed(t, n, c, name);
    MkdirKeepsNameable(t, n, c, name, n);
    AddChildFinds(t, n, c, name, n, name);
  }
}
