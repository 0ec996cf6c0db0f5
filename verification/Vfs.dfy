/** The node tree of fs/vfs/vfs.c: nodes linked through `ptr` (first child), `next` and
    `parent`, the walk of vfs_lookup over them, and vfs_get_cwd.  The ghost field `tree`
    is the value the links stand for. */
module Vfs {
  import opened Basics
  import opened PathModel
  import opened CwdModel
  import opened Strings

  class Node {
    var name: string
    var isDir: bool
    var parent: Node?
    var ptr: Node?
    var next: Node?
    constructor (name: string, isDir: bool)
      ensures this.name == name && this.isDir == isDir && parent == null && ptr == null && next == null
    {
      this.name, this.isDir, parent, ptr, next := name, isDir, null, null, null;
    }
  }

  ghost function At(kids: seq<Node>, i: nat): Node? {
    if i < |kids| then kids[i] else null
  }

  /** Following `next` from the first child visits exactly these nodes. */
  ghost predicate Chained(kids: seq<Node>)
    reads kids`next
  {
    forall i {:trigger kids[i].next} :: 0 <= i < |kids| ==> kids[i].next == At(kids, i + 1)
  }

  lemma ChainCons(c: Node, kids: seq<Node>)
    requires Chained(kids) && c.next == At(kids, 0)
    ensures Chained([c] + kids)
  {
    var more := [c] + kids;
    forall i {:trigger more[i].next} | 0 <= i < |more|
      ensures more[i].next == At(more, i + 1)
    {
      if i > 0 {
        assert more[i] == kids[i - 1];
      }
    }
  }

  /** The fields of one node, and the links among its children, are as the tree says. */
  ghost predicate Linked(t: Tree<Node>, n: Node)
    requires WellFormed(t) && n in t.kids
    reads n`name, n`parent, n`ptr, t.kids[n]`next
  {
    && n.name == t.name[n] && NUL !in n.name
    && n.parent == (if n in t.parent then t.parent[n] else null)
    && n.ptr == At(t.kids[n], 0)
    && Chained(t.kids[n])
  }

  ghost predicate AllLinked(t: Tree<Node>)
    requires WellFormed(t)
    reads t.kids.Keys
  {
    KidsInside(t);
    forall n :: n in t.kids ==> Linked(t, n)
  }

  lemma KidsInside(t: Tree<Node>)
    requires WellFormed(t)
    ensures forall n, i :: n in t.kids && 0 <= i < |t.kids[n]| ==> t.kids[n][i] in t.kids
  {
  }

  /** The chain below `n` once `c` points to its first child. */
  lemma FirstChild(t: Tree<Node>, n: Node, c: Node, name: string)
    requires WellFormed(t) && n in t.kids && c !in t.kids && Linked(t, n) && c.next == n.ptr
    requires WellFormed(AddChild(t, n, c, name))
    ensures n in AddChild(t, n, c, name).kids && Chained(AddChild(t, n, c, name).kids[n])
    ensures n.name == t.name[n] && NUL !in n.name
    ensures n.parent == if n in t.parent then t.parent[n] else null
  {
    ChainCons(c, t.kids[n]);
  }

  lemma LinkedBelow(t: Tree<Node>, n: Node, c: Node, name: string)
    requires WellFormed(t) && n in t.kids && c !in t.kids && n.ptr == c && n.name == t.name[n] && NUL !in n.name
    requires n.parent == if n in t.parent then t.parent[n] else null
    requires WellFormed(AddChild(t, n, c, name)) && Chained(AddChild(t, n, c, name).kids[n])
    requires c.name == name && NUL !in name && c.parent == n && c.ptr == null
    ensures Linked(AddChild(t, n, c, name), n) && Linked(AddChild(t, n, c, name), c)
  {
  }

  lemma LinkedElsewhere(t: Tree<Node>, n: Node, c: Node, name: string, m: Node)
    requires WellFormed(t) && n in t.kids && c !in t.kids && m in t.kids && m != n && Linked(t, m)
    requires WellFormed(AddChild(t, n, c, name))
    ensures m in AddChild(t, n, c, name).kids && Linked(AddChild(t, n, c, name), m)
  {
  }

  lemma AddChildKids(t: Tree<Node>, n: Node, c: Node, name: string)
    requires WellFormed(t) && n in t.kids && c !in t.kids && WellFormed(AddChild(t, n, c, name))
    ensures AddChild(t, n, c, name).root == t.root
    ensures AddChild(t, n, c, name).kids.Keys == t.kids.Keys + {c}
  {
  }

  lemma LinkedAt(t: Tree<Node>, m: Node)
    requires WellFormed(t) && AllLinked(t) && m in t.kids
    ensures Linked(t, m)
  {
  }

  lemma RootHasNoNames(t: Tree<Node>)
    requires WellFormed(t)
    ensures Names(t, t.root) == []
  {
  }

  const NAME_MAX := 256

  class FileSystem {
    const root: Node
    var current: Node
    ghost var tree: Tree<Node>

    ghost predicate Valid()
      reads this, tree.kids.Keys
    {
      Shape() && current in tree.kids
    }

    /** The links are as the tree says. */
    ghost predicate Shape()
      reads `tree, tree.kids.Keys
    {
      WellFormed(tree) && root == tree.root && AllLinked(tree)
    }

    /** vfs_init: a root directory called "/" that is also the current one. */
    constructor ()
      ensures Valid() && current == root && fresh(root) && tree == Sole<Node>(root)
    {
      var top := new Node("/", true);
      root := top;
      current := top;
      tree := Sole<Node>(top);
    }

    /** root_finddir: the first child with the name. */
    method FindDir(n: Node, name: string) returns (r: Option<Node>)
      requires Shape() && n in tree.kids
      ensures r == PathModel.FindDir(tree, n, name)
      ensures r.Some? ==> r.value in tree.kids
    {
      ghost var kids, i := tree.kids[n], 0;
      assert Linked(tree, n);
      var curr := n.ptr;
      while curr != null
        invariant i <= |kids| && curr == At(kids, i)
        invariant FindIn(tree, kids[i..], name) == FindIn(tree, kids, name)
        decreases |kids| - i
      {
        KidsInside(tree);
        assert kids[i] in tree.kids && Linked(tree, kids[i]);
        if curr.name == name {
          return Some(curr);
        }
        assert kids[i..][1..] == kids[i + 1..];
        curr := curr.next;
        i := i + 1;
      }
      return None;
    }

    /** One component of a path. */
    method Step(n: Node, token: string) returns (r: Option<Node>)
      requires Shape() && n in tree.kids
      ensures r == Enter(tree, n, token)
      ensures r.Some? ==> r.value in tree.kids
    {
      if token == "." {
        return Some(n);
      }
      assert Linked(tree, n);
      if token == ".." {
        if n.parent != null {
          return Some(n.parent);
        }
        return Some(n);
      }
      r := FindDir(n, token);
    }

    /** Copies at most 255 characters into a buffer of 256 with a NUL at its end. */
    method CopyPath(path: string) returns (tmp: array<char>)
      requires NUL !in path
      ensures fresh(tmp) && tmp.Length == PATH_BUFFER + 1
      ensures CString(tmp[..]) == if |path| <= PATH_BUFFER then path else path[..PATH_BUFFER]
    {
      tmp := new char[PATH_BUFFER + 1](_ => NUL);
      ghost var cut := if |path| <= PATH_BUFFER then path else path[..PATH_BUFFER];
      var i := 0;
      while i < PATH_BUFFER && i < |path|
        invariant i <= |cut|
        invariant tmp[..i] == cut[..i]
        invariant forall j :: i <= j < tmp.Length ==> tmp[j] == NUL
      {
        tmp[i] := path[i];
        i := i + 1;
      }
      assert tmp[..] == cut + tmp[|cut|..];
      CStringOf(cut, tmp[|cut|..]);
    }

    /** The loop over the pieces strtok yields. */
    method WalkPieces(start: Node, tmp: array<char>) returns (r: Option<Node>)
      requires Shape() && start in tree.kids && |CString(tmp[..])| < tmp.Length
      modifies tmp
      ensures Shape() && r == Walk(tree, start, Tokens(old(CString(tmp[..]))))
      ensures r.Some? ==> r.value in tree.kids
    {
      hide Shape, Tokens, Enter, CString;
      ghost var goal := Walk(tree, start, Tokens(CString(tmp[..])));
      var strtok := new Tokenizer(tmp);
      var curr := start;
      var part := strtok.Next();
      while part.Some?
        invariant Shape() && curr in tree.kids && strtok.Valid() && fresh(strtok) && strtok.buf == tmp
        invariant Walk(tree, curr, if part.None? then [] else [part.value] + Tokens(strtok.Remaining())) == goal
        decreases |strtok.Remaining()|, part.Some?
      {
        ghost var rest := Tokens(strtok.Remaining());
        assert ([part.value] + rest)[1..] == rest;
        r := Step(curr, part.value);
        if r.None? {
          return None;
        }
        curr := r.value;
        part := strtok.Next();
      }
      return Some(curr);
    }

    method Lookup(path: string) returns (r: Option<Node>)
      requires Valid() && NUL !in path
      ensures r == PathModel.Lookup(tree, current, path)
      ensures r.Some? ==> r.value in tree.kids
    {
      hide Shape, Tokens, Enter, CString;
      if path == "/" {
        RootInTree();
        return Some(root);
      }
      RootInTree();
      var curr := if path != [] && path[0] == '/' then root else current;
      var tmp := CopyPath(path);
      r := WalkPieces(curr, tmp);
    }

    lemma RootInTree()
      requires Shape()
      ensures WellFormed(tree) && root == tree.root && root in tree.kids
    {
    }

    /** What the fields of a directory other than the root say. */
    lemma NodeFacts(n: Node)
      requires Shape() && n in tree.kids && n != root
      ensures NUL !in n.name && n.parent != null && n.parent in tree.kids
      ensures WellFormed(tree) && Names(tree, n) == Names(tree, n.parent) + [n.name]
    {
      assert Linked(tree, n);
    }

    /** vfs_chdir changes the current directory to a directory that the path leads to. */
    method Chdir(path: string) returns (code: int)
      requires Valid() && NUL !in path
      modifies this`current
      ensures Valid() && code in {0, -1}
      ensures var r := PathModel.Lookup(tree, old(current), path);
              if r.Some? && r.value.isDir then code == 0 && current == r.value
              else code == -1 && current == old(current)
    {
      hide Shape, PathModel.Lookup;
      var r := Lookup(path);
      if r.Some? && r.value.isDir {
        current := r.value;
        return 0;
      }
      return -1;
    }

    /** Makes `c` the first child, once it points to its parent and its next sibling. */
    static method PointTo(n: Node, c: Node, ghost t: Tree<Node>)
      requires WellFormed(t) && n in t.kids && c !in t.kids && AllLinked(t) && WellFormed(AddChild(t, n, c, c.name))
      requires c.parent == n && c.next == n.ptr && c.ptr == null && NUL !in c.name
      modifies n`ptr
      ensures AllLinked(AddChild(t, n, c, c.name))
    {
      hide WellFormed, Chained, AddChild, Linked;
      DepthKnown(t, n);
      LinkedAt(t, n);
      FirstChild(t, n, c, c.name);
      AddChildKids(t, n, c, c.name);
      n.ptr := c;
      LinkedBelow(t, n, c, c.name);
      forall m | m in t.kids && m != n
        ensures m in AddChild(t, n, c, c.name).kids && Linked(AddChild(t, n, c, c.name), m)
      {
        assert old(Linked(t, m));
        assert Linked(t, m);
        LinkedElsewhere(t, n, c, c.name, m);
      }
    }

    /** Allocates a child and links it before its siblings. */
    static method NewChild(n: Node, name: string, ghost t: Tree<Node>) returns (c: Node)
      requires WellFormed(t) && n in t.kids && n in t.depth && AllLinked(t) && NUL !in name
      modifies n`ptr
      ensures fresh(c) && c.isDir && c !in t.kids
      ensures WellFormed(AddChild(t, n, c, name)) && AllLinked(AddChild(t, n, c, name))
    {
      hide WellFormed, AllLinked, AddChild;
      c := new Node(name, true);
      c.parent := n;
      c.next := n.ptr;
      AddChildWellFormed(t, n, c, name);
      PointTo(n, c, t);
    }

    /** root_mkdir; `memory` says whether kmalloc succeeds. */
    method Mkdir(n: Node, name: string, memory: bool) returns (code: int, child: Option<Node>)
      requires Valid() && n in tree.kids && NUL !in name && |name| < NAME_MAX   // a longer name stays unterminated
      modifies this`tree, n`ptr
      ensures Valid() && current == old(current)
      ensures !memory ==> code == -1 && child == None && tree == old(tree)
      ensures memory ==> code == 0 && child.Some? && fresh(child.value) && child.value.isDir
      ensures memory ==> tree == AddChild(old(tree), n, child.value, name)
    {
      hide Valid, WellFormed, AllLinked, AddChild;
      if !memory {
        return -1, None;
      }
      ghost var t := tree;
      Unfold();
      DepthKnown(t, n);
      var c := NewChild(n, name, t);
      AddChildKids(t, n, c, name);
      tree := AddChild(t, n, c, name);
      Fold();
      return 0, Some(c);
    }

    lemma Unfold()
      requires Valid()
      ensures WellFormed(tree) && root == tree.root && AllLinked(tree) && current in tree.kids
    {
    }

    lemma Fold()
      requires WellFormed(tree) && root == tree.root && AllLinked(tree) && current in tree.kids
      ensures Valid()
    {
    }

    /** The names from the current directory outwards, at most 32 of them. */
    method CollectParts() returns (parts: array<string>, depth: nat)
      requires Valid()
      ensures fresh(parts) && depth <= parts.Length == MAX_PARTS
      ensures depth == |Kept(Names(tree, current))|
      ensures forall i :: 0 <= i < depth ==> parts[i] == Kept(Names(tree, current))[depth - 1 - i]
      ensures forall i :: 0 <= i < depth ==> NUL !in parts[i]
    {
      hide Shape, WellFormed, Names;
      RootInTree();
      parts := new string[MAX_PARTS](_ => []);
      depth := 0;
      var curr: Node? := current;
      ghost var names := Names(tree, current);
      while curr != null && curr != root && depth < MAX_PARTS
        invariant depth <= MAX_PARTS && depth <= |names|
        invariant Shape() && WellFormed(tree)
        invariant curr != null && curr in tree.kids && Names(tree, curr) == names[..|names| - depth]
        invariant forall i :: 0 <= i < depth ==> parts[i] == names[|names| - 1 - i]
        invariant forall i :: 0 <= i < depth ==> NUL !in parts[i]
        decreases MAX_PARTS - depth
      {
        NodeFacts(curr);
        parts[depth] := curr.name;
        depth := depth + 1;
        curr := curr.parent;
      }
      if curr == root {
        RootHasNoNames(tree);
      }
    }

    /** Copies a text into the buffer from `pos` on. */
    static method CopyInto(buffer: array<char>, pos: nat, text: string)
      requires pos + |text| <= buffer.Length
      modifies buffer
      ensures buffer[..pos + |text|] == old(buffer[..pos]) + text
    {
      for i := 0 to |text|
        invariant buffer[..pos + i] == old(buffer[..pos]) + text[..i]
      {
        buffer[pos + i] := text[i];
      }
      assert text[..|text|] == text;
    }

    /** The printing loop, from the outermost part on. */
    static method PrintParts(buffer: array<char>, size: nat, parts: array<string>, depth: nat, ghost kept: seq<string>)
      returns (pos: nat)
      requires 2 <= size <= buffer.Length && depth <= parts.Length && depth == |kept|
      requires forall i :: 0 <= i < depth ==> parts[i] == kept[depth - 1 - i] && NUL !in parts[i]
      modifies buffer
      ensures pos < size && buffer[..pos] == PrintFrom("/", kept, size) && NUL !in buffer[..pos]
    {
      buffer[0] := '/';
      pos := 1;
      ghost var text := "/";
      var i := depth;
      assert kept[0..] == kept;
      while i > 0
        invariant 0 <= i <= depth && pos < size && buffer[..pos] == text && NUL !in text
        invariant PrintFrom(text, kept[depth - i..], size) == PrintFrom("/", kept, size)
      {
        i := i - 1;
        ghost var rest := kept[depth - 1 - i..];
        assert rest[0] == parts[i] && rest[1..] == kept[depth - i..];
        var len := |parts[i]|;
        if pos + len + 1 >= size {
          return;
        }
        CopyInto(buffer, pos, parts[i]);
        pos := pos + len;
        text := text + parts[i];
        if i > 0 {
          buffer[pos] := '/';
          pos := pos + 1;
          text := text + "/";
        } else {
          assert text + [] == text;
        }
      }
    }

    /** vfs_get_cwd.  Below the root it compares with the size as a signed number: from 2^31
        on it writes a NUL to the last place and nothing else. */
    method GetCwd(buffer: array<char>, size: nat)
      requires Valid() && 1 <= size <= buffer.Length && size < TWO32 && (current == root ==> size >= 2)
      modifies buffer
      ensures current == root || size < TWO32 / 2 ==> CString(buffer[..]) == Cwd(tree, current, size)
      ensures current != root && size >= TWO32 / 2 ==> buffer[..] == old(buffer[..])[size - 1 := NUL]
    {
      hide Shape, Kept, PrintFrom, WellFormed, Names;
      RootInTree();
      if current == root {
        buffer[0] := '/';
        for i := 1 to size
          invariant buffer[0] == '/' && forall j :: 1 <= j < i ==> buffer[j] == NUL
        {
          buffer[i] := NUL;
        }
        assert buffer[..] == "/" + buffer[1..];
        CStringOf("/", buffer[1..]);
        return;
      }
      var parts, depth := CollectParts();
      var signed := if size < TWO32 / 2 then size else size - TWO32;
      if signed < 0 {
        buffer[size - 1] := NUL;
        return;
      }
      if size == 1 {
        buffer[0] := NUL;
        return;
      }
      var pos := PrintParts(buffer, size, parts, depth, Kept(Names(tree, current)));
      ghost var text := buffer[..pos];
      buffer[pos] := NUL;
      assert buffer[..] == text + buffer[pos..];
      CStringOf(text, buffer[pos..]);
    }
  }
}
