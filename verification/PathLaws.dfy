/** What vfs_lookup means, said of paths and directories alone: the dot components, names,
    relative paths, and paths put together. */
module PathLaws {
  import opened Basics
  import opened PathModel

  // ---------------------------------------------------------------- splitting

  lemma SlashSkipped(x: string)
    ensures Tokens("/" + x) == Tokens(x)
  {
    assert ("/" + x)[1..] == x;
    assert SkipSlashes("/" + x) == SkipSlashes(x);
  }

  /** A slash splits a text; how many there are does not matter. */
  lemma {:induction false} TokensSplit(a: string, b: string)
    ensures Tokens(a + "/" + b) == Tokens(a) + Tokens(b)
    decreases |a|
  {
    hide Tokens, SkipSlashes;
    if a == "" {
      assert a + "/" + b == "/" + b;
      NoTokens();
      SlashSkipped(b);
    } else if a[0] == '/' {
      assert a == "/" + a[1..];
      Associate("/", a[1..], "/" + b);
      Associate(a[1..], "/", b);
      Associate(a, "/", b);
      SlashSkipped(a[1..]);
      SlashSkipped(a[1..] + "/" + b);
      TokensSplit(a[1..], b);
    } else {
      var k := TokenLength(a);
      TokenShape(a);
      var name, rest := a[..k], a[k..];
      assert a == name + rest && '/' !in name;
      TokenAtFront(name, rest);
      FrontSplit(name, rest, b);
      if rest != "" {
        TokensSplit(rest, b);
        Associate([name], Tokens(rest), Tokens(b));
      } else {
        NoTokens();
      }
    }
  }

  lemma NoTokens()
    ensures Tokens("") == []
  {
  }

  lemma FrontSplit(name: string, rest: string, b: string)
    requires name != "" && '/' !in name && (rest == "" || rest[0] == '/')
    ensures Tokens(name + rest + "/" + b) == [name] + (if rest == "" then Tokens(b) else Tokens(rest + "/" + b))
  {
    hide Tokens, SkipSlashes;
    var tail := rest + "/" + b;
    assert name + rest + "/" + b == name + tail && tail[0] == '/';
    TokenAtFront(name, tail);
    if rest == "" {
      assert tail == "/" + b;
      SlashSkipped(b);
    }
  }

  lemma TokenAtFront(name: string, rest: string)
    requires name != "" && '/' !in name && (rest == "" || rest[0] == '/')
    ensures Tokens(name + rest) == [name] + Tokens(rest)
  {
    var s := name + rest;
    assert s[0] == name[0] != '/';
    TokenOf(name, rest);
    assert s[..|name|] == name && s[|name|..] == rest;
  }

  lemma OnlyToken(name: string)
    requires name != "" && '/' !in name
    ensures Tokens(name) == [name]
  {
    TokenAtFront(name, "");
    assert name + "" == name;
  }

  lemma {:induction false} WalkOn<N>(t: Tree<N>, n: N, a: seq<string>, b: seq<string>)
    ensures Walk(t, n, a + b) == match Walk(t, n, a) case None => None case Some(m) => Walk(t, m, b)
  {
    if a == [] {
      assert a + b == b;
    } else {
      assert (a + b)[1..] == a[1..] + b;
      var next := Enter(t, n, a[0]);
      if next.Some? {
        WalkOn(t, next.value, a[1..], b);
      }
    }
  }

  // ---------------------------------------------------------------- laws

  /** A path followed by a relative path leads on from where the first one leads. */
  lemma PathsCompose<N>(t: Tree<N>, current: N, a: string, b: string)
    requires a != "" && (b == "" || b[0] != '/') && |a| + 1 + |b| <= 255
    ensures Lookup(t, current, a + "/" + b) ==
      match Lookup(t, current, a) case None => None case Some(m) => Lookup(t, m, b)
  {
    hide Enter;
    TokensSplit(a, b);
    var start := if a[0] == '/' then t.root else current;
    assert (a + "/" + b)[0] == a[0];
    WalkOn(t, start, Tokens(a), Tokens(b));
    if a == "/" {
      SlashSkipped("");
    }
  }

  /** Of a longer path only the first 255 characters count. */
  lemma LongPathCut<N>(t: Tree<N>, current: N, path: string)
    requires |path| > 255
    ensures Lookup(t, current, path) == Lookup(t, current, path[..255])
  {
  }

  lemma EmptyStays<N>(t: Tree<N>, n: N)
    ensures Lookup(t, n, "") == Some(n) && Lookup(t, n, "/") == Some(t.root)
  {
  }

  lemma DotStays<N>(t: Tree<N>, n: N)
    ensures Lookup(t, n, ".") == Some(n)
  {
    OnlyToken(".");
    assert Walk(t, n, ["."]) == Some(n);
  }

  /** Two dots lead to the parent, and at the root nowhere else. */
  lemma DotsClimb<N>(t: Tree<N>, n: N)
    requires WellFormed(t) && n in t.kids
    ensures Lookup(t, n, "..") == Some(if n == t.root then t.root else t.parent[n])
  {
    OnlyToken("..");
    assert Walk(t, n, [".."]) == Enter(t, n, "..");
  }

  /** Child `j` of `n` has the name, and no child before it has. */
  ghost predicate FirstOfName<N>(t: Tree<N>, n: N, j: nat, name: string)
    requires WellFormed(t) && n in t.kids
  {
    && j < |t.kids[n]|
    && t.name[t.kids[n][j]] == name
    && forall i :: 0 <= i < j ==> t.name[t.kids[n][i]] != name
  }

  lemma {:induction false} FindsFirst<N>(t: Tree<N>, kids: seq<N>, j: nat, name: string)
    requires j < |kids| && (forall i :: 0 <= i <= j ==> kids[i] in t.name)
    requires t.name[kids[j]] == name && forall i :: 0 <= i < j ==> t.name[kids[i]] != name
    ensures FindIn(t, kids, name) == Some(kids[j])
  {
    if j > 0 {
      FindsFirst(t, kids[1..], j - 1, name);
    }
  }

  /** A name leads to the first child of that name, and nowhere when there is none. */
  lemma NameLeads<N>(t: Tree<N>, n: N, name: string, j: nat)
    requires WellFormed(t) && n in t.kids
    requires name != "" && '/' !in name && name != "." && name != ".." && |name| <= 255
    ensures FirstOfName(t, n, j, name) ==> Lookup(t, n, name) == Some(t.kids[n][j])
    ensures (forall k :: k in t.kids[n] ==> k in t.name && t.name[k] != name) ==> Lookup(t, n, name) == None
  {
    OnlyToken(name);
    assert Walk(t, n, [name]) == Enter(t, n, name);
    if FirstOfName(t, n, j, name) {
      FindsFirst(t, t.kids[n], j, name);
    }
    FindInKids(t, t.kids[n], name);
  }

  // ---------------------------------------------------------------- going down

  /** Each of the nodes after the first is a child of the one before it, the first of its
      name, which is an ordinary one. */
  ghost predicate Descent<N>(t: Tree<N>, nodes: seq<N>)
    requires WellFormed(t)
  {
    && nodes != [] && nodes[0] in t.kids
    && forall i {:trigger nodes[i]} :: 0 < i < |nodes| ==> Below(t, nodes[i - 1], nodes[i])
  }

  ghost predicate Below<N>(t: Tree<N>, n: N, k: N)
    requires WellFormed(t)
  {
    && n in t.kids && k in t.kids && Clean(t.name[k])
    && exists j: nat :: FirstOfName(t, n, j, t.name[k]) && t.kids[n][j] == k
  }

  /** The names of the nodes after the first with slashes between them. */
  ghost function Between<N>(t: Tree<N>, nodes: seq<N>): string
    requires forall n :: n in nodes ==> n in t.name
  {
    if |nodes| <= 1 then ""
    else if |nodes| == 2 then t.name[nodes[1]]
    else t.name[nodes[1]] + "/" + Between(t, nodes[1..])
  }

  lemma DescentNodes<N>(t: Tree<N>, nodes: seq<N>)
    requires WellFormed(t) && Descent(t, nodes)
    ensures nodes != [] && forall n :: n in nodes ==> n in t.kids && n in t.name
    ensures |nodes| > 1 ==> Below(t, nodes[0], nodes[1]) && Descent(t, nodes[1..])
  {
    forall i | 0 <= i < |nodes|
      ensures nodes[i] in t.kids
    {
      if i > 0 {
        assert Below(t, nodes[i - 1], nodes[i]);
      }
    }
    if |nodes| > 1 {
      assert Below(t, nodes[0], nodes[1]);
    }
  }

  /** The names from a directory down to one below it lead there. */
  lemma {:induction false} DescentLeads<N>(t: Tree<N>, nodes: seq<N>)
    requires WellFormed(t) && Descent(t, nodes)
    ensures forall n :: n in nodes ==> n in t.name
    ensures |Between(t, nodes)| <= 255 ==> Lookup(t, nodes[0], Between(t, nodes)) == Some(nodes[|nodes| - 1])
    ensures |nodes| > 1 ==> Between(t, nodes) != "" && Between(t, nodes)[0] != '/'
  {
    hide WellFormed, Lookup, Descent;
    DescentNodes(t, nodes);
    if |nodes| <= 1 {
      EmptyStays(t, nodes[0]);
    } else {
      var name := t.name[nodes[1]];
      var j: nat :| FirstOfName(t, nodes[0], j, name) && t.kids[nodes[0]][j] == nodes[1];
      if |name| <= 255 {
        NameLeads(t, nodes[0], name, j);
      }
      if |nodes| > 2 {
        DescentLeads(t, nodes[1..]);
        if |Between(t, nodes)| <= 255 {
          PathsCompose(t, nodes[0], name, Between(t, nodes[1..]));
        }
      }
    }
  }

  // ---------------------------------------------------------------- going up

  function Dots(k: nat): string {
    if k == 0 then "" else if k == 1 then ".." else "../" + Dots(k - 1)
  }

  lemma {:induction false} DotsShape(k: nat)
    ensures |Dots(k)| == if k == 0 then 0 else 3 * k - 1
    ensures k > 0 ==> Dots(k)[0] == '.'
  {
    if k > 1 {
      DotsShape(k - 1);
    }
  }

  /** The directory `k` levels up, or the root. */
  ghost function Up<N>(t: Tree<N>, n: N, k: nat): N
    requires WellFormed(t) && n in t.kids
  {
    if k == 0 || n == t.root then n else Up(t, t.parent[n], k - 1)
  }

  lemma {:induction false} UpAtRoot<N>(t: Tree<N>, n: N, k: nat)
    requires WellFormed(t) && n in t.kids
    ensures Up(t, n, k) in t.kids
    ensures t.depth[n] <= k ==> Up(t, n, k) == t.root
    ensures k <= t.depth[n] ==> t.depth[Up(t, n, k)] == t.depth[n] - k
    decreases k
  {
    assert n != t.root ==> n in t.parent && t.depth[n] > 0;
    if k > 0 && n != t.root {
      UpAtRoot(t, t.parent[n], k - 1);
    }
  }

  /** A path of `k` times two dots leads `k` levels up. */
  lemma {:induction false} DotsLead<N>(t: Tree<N>, n: N, k: nat)
    requires WellFormed(t) && n in t.kids && |Dots(k)| <= 255
    ensures Lookup(t, n, Dots(k)) == Some(Up(t, n, k))
    decreases k
  {
    hide Lookup;
    DotsShape(k);
    if k == 0 {
      EmptyStays(t, n);
    } else {
      DotsClimb(t, n);
      var p := if n == t.root then n else t.parent[n];
      assert Up(t, n, k) == Up(t, p, k - 1);
      assert Up(t, p, 0) == p;
      if k > 1 {
        DotsShape(k - 1);
        DotsLead(t, p, k - 1);
        assert "../" + Dots(k - 1) == ".." + "/" + Dots(k - 1);
        PathsCompose(t, n, "..", Dots(k - 1));
      }
    }
  }

  /** As many times two dots as a directory is deep lead to the root. */
  lemma DotsReachRoot<N>(t: Tree<N>, n: N)
    requires WellFormed(t) && n in t.kids && |Dots(t.depth[n])| <= 255
    ensures Lookup(t, n, Dots(t.depth[n])) == Some(t.root)
  {
    DotsLead(t, n, t.depth[n]);
    UpAtRoot(t, n, t.depth[n]);
  }
}
