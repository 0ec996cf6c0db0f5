/** What vfs_get_cwd prints, and when looking it up leads back. */
module CwdModel {
  import opened Basics
  import opened PathModel

  const MAX_PARTS := 32

  /** Appends the parts from the outermost on, until one does not fit. */
  function PrintFrom(text: string, parts: seq<string>, size: nat): string
    decreases |parts|
  {
    if parts == [] || |text| + |parts[0]| + 1 >= size then text
    else PrintFrom(text + parts[0] + (if |parts| > 1 then "/" else []), parts[1..], size)
  }

  /** At most the 32 innermost names are collected. */
  function Kept(names: seq<string>): seq<string> {
    if |names| <= MAX_PARTS then names else names[|names| - MAX_PARTS..]
  }

  /** The text left in a buffer of `size` characters, for sizes an int can hold. */
  ghost function Cwd<N>(t: Tree<N>, n: N, size: nat): string
    requires WellFormed(t) && n in t.kids
  {
    if n == t.root then "/" else if size < 2 then [] else PrintFrom("/", Kept(Names(t, n)), size)
  }

  lemma {:induction false} JoinedConcat(a: seq<string>, b: seq<string>)
    ensures Joined(a + b) == Joined(a) + Joined(b)
  {
    if a == [] {
      assert a + b == b;
    } else {
      JoinedConcat(a[1..], b);
      assert (a + b)[1..] == a[1..] + b;
    }
  }

  /** Parts that fit are printed in full; otherwise the text stops short. */
  lemma {:induction false} PrintExact(done: seq<string>, parts: seq<string>, size: nat)
    requires parts != [] && forall i :: 0 <= i < |parts| ==> parts[i] != []
    ensures var all := Joined(done + parts);
            var text := PrintFrom(Joined(done) + "/", parts, size);
            && (|all| + 1 < size ==> text == all)
            && (|all| + 1 >= size ==> |text| < |all| && text != [] && text[0] == '/')
    decreases |parts|
  {
    var text := Joined(done) + "/";
    var more := done + [parts[0]];
    JoinedAppend(done, parts[0]);
    assert more + parts[1..] == done + parts;
    JoinedConcat(more, parts[1..]);
    if |parts| > 1 {
      if |text| + |parts[0]| + 1 < size {
        PrintExact(more, parts[1..], size);
        assert text + parts[0] + "/" == Joined(more) + "/";
      }
    } else {
      assert parts[1..] == [];
      assert text + parts[0] + [] == Joined(more);
    }
  }

  /** As many names are printed as fit: the first `k`, with a slash after them when more
      would follow, and one more would leave no two characters of the buffer free. */
  lemma {:induction false} PrintsWhatFits(done: seq<string>, parts: seq<string>, size: nat) returns (k: nat)
    ensures k <= |parts|
    ensures PrintFrom(Joined(done) + "/", parts, size) ==
      if k == |parts| > 0 then Joined(done + parts) else Joined(done + parts[..k]) + "/"
    ensures forall i :: 0 < i <= k ==> |Joined(done + parts[..i])| + 1 < size
    ensures k < |parts| ==> |Joined(done + parts[..k + 1])| + 1 >= size
    decreases |parts|
  {
    hide Joined;
    k := 0;
    assert done + parts[..0] == done;
    if parts != [] {
      var text := Joined(done) + "/";
      var more := done + [parts[0]];
      JoinedAppend(done, parts[0]);
      assert done + parts[..1] == more;
      if |text| + |parts[0]| + 1 < size {
        assert text + parts[0] == Joined(more);
        if |parts| > 1 {
          var n := PrintsWhatFits(more, parts[1..], size);
          k := n + 1;
          forall i | 0 <= i <= |parts| - 1
            ensures more + parts[1..][..i] == done + parts[..i + 1]
          {
          }
          assert more + parts[1..] == done + parts;
          assert text + parts[0] + "/" == Joined(more) + "/";
          forall i | 0 < i <= k
            ensures |Joined(done + parts[..i])| + 1 < size
          {
            if i > 1 {
              assert |Joined(more + parts[1..][..i - 1])| + 1 < size;
            }
          }
        } else {
          assert text + parts[0] + [] == text + parts[0];
          assert parts[1..] == [] && more == done + parts;
          k := 1;
        }
      }
    }
  }

  /** Looking up what vfs_get_cwd prints, from any directory, gives the same one exactly when every
      component is nameable, the directory is at most 32 deep, its path leaves two
      characters of the buffer free, and it has at most 255 characters; and also when the
      buffer has room for the NUL only, because an empty path stays where it is. */
  lemma CwdRoundTrip<N>(t: Tree<N>, current: N, n: N, size: nat)
    requires WellFormed(t) && n in t.kids
    ensures Lookup(t, current, Cwd(t, n, size)) == Some(n) <==>
              n == t.root || (size < 2 && current == n) ||
              (&& Nameable(t, n) && t.depth[n] <= 32
               && |PathText(t, n)| + 1 < size && |PathText(t, n)| <= 255)
  {
    if n != t.root && size >= 2 {
      if Nameable(t, n) {
        NameableRoundTrip(t, current, n, size);
      } else {
        NotNameable(t, current, n, size);
      }
    }
  }

  lemma {:induction false} PrintStartsWithSlash(text: string, parts: seq<string>, size: nat)
    requires text != [] && text[0] == '/'
    ensures var r := PrintFrom(text, parts, size); r != [] && r[0] == '/'
    decreases |parts|
  {
    if parts != [] && |text| + |parts[0]| + 1 < size {
      PrintStartsWithSlash(text + parts[0] + (if |parts| > 1 then "/" else []), parts[1..], size);
    }
  }

  lemma NotNameable<N>(t: Tree<N>, current: N, n: N, size: nat)
    requires WellFormed(t) && n in t.kids && size >= 2 && n != t.root && !Nameable(t, n)
    ensures Lookup(t, current, Cwd(t, n, size)) != Some(n)
  {
    var text := Cwd(t, n, size);
    PrintStartsWithSlash("/", Kept(Names(t, n)), size);
    if Lookup(t, current, text) == Some(n) {
      AbsoluteReaches(t, current, text, n);
    }
  }

  lemma NameableRoundTrip<N>(t: Tree<N>, current: N, n: N, size: nat)
    requires WellFormed(t) && n in t.kids && size >= 2 && n != t.root && Nameable(t, n)
    ensures Lookup(t, current, Cwd(t, n, size)) == Some(n) <==>
              && t.depth[n] <= MAX_PARTS
              && |PathText(t, n)| + 1 < size && |PathText(t, n)| <= PATH_BUFFER
  {
    hide WellFormed, Nameable, PrintFrom, Kept, Joined, Lookup, Clean;
    var path, text := PathText(t, n), Cwd(t, n, size);
    NamesLength(t, n);
    NamesNotEmpty(t, n);
    PrintedNames(Names(t, n), size);
    PrintStartsWithSlash("/", Kept(Names(t, n)), size);
    if Lookup(t, current, text) == Some(n) {
      AbsoluteReaches(t, current, text, n);
    }
    LookupPath(t, current, n);
  }

  lemma NamesNotEmpty<N>(t: Tree<N>, n: N)
    requires WellFormed(t) && n in t.kids && Nameable(t, n) && n != t.root
    ensures Names(t, n) != [] && forall i :: 0 <= i < |Names(t, n)| ==> Names(t, n)[i] != []
  {
    WalkNames(t, n);
    var names := Names(t, n);
    assert forall i :: 0 <= i < |names| ==> names[i] in names;
  }

  /** Printing drops nothing exactly when there are at most 32 names and they fit. */
  lemma PrintedNames(names: seq<string>, size: nat)
    requires names != [] && forall i :: 0 <= i < |names| ==> names[i] != []
    ensures var text, path := PrintFrom("/", Kept(names), size), Joined(names);
            if |names| <= MAX_PARTS && |path| + 1 < size then text == path else |text| < |path|
  {
    hide PrintFrom, Joined;
    var kept := Kept(names);
    PrintExact([], kept, size);
    assert [] + kept == kept;
    JoinedEmpty();
    if |names| > MAX_PARTS {
      var dropped := names[..|names| - MAX_PARTS];
      assert names == dropped + kept;
      JoinedConcat(dropped, kept);
      JoinedNotEmpty(dropped);
    }
  }

  lemma JoinedEmpty()
    ensures Joined([]) == [] && Joined([]) + "/" == "/"
  {
  }

  lemma JoinedNotEmpty(names: seq<string>)
    requires names != []
    ensures |Joined(names)| > 0
  {
  }

  // ---------------------------------------------------------------- one directory too deep

  /** A chain of `n` directories called "a" below the root; directory `k` is `k` deep. */
  ghost function Chain(n: nat): Tree<nat> {
    if n == 0 then Sole(0) else AddChild(Chain(n - 1), n - 1, n, "a")
  }

  /** Directory `k` is the last of a chain. */
  ghost predicate Tip(t: Tree<nat>, k: nat) {
    && WellFormed(t) && t.root == 0 && k in t.kids && t.kids[k] == []
    && (forall j :: j in t.kids ==> j <= k)
    && Names(t, k) == seq(k, _ => "a") && Nameable(t, k) && t.depth[k] == k
  }

  lemma OneDeeper(t: Tree<nat>, k: nat)
    requires Tip(t, k)
    ensures var u := AddChild(t, k, k + 1, "a");
      && Tip(u, k + 1) && k in u.kids && Names(u, k) == Names(t, k) && Nameable(u, k)
  {
    hide WellFormed;
    DepthKnown(t, k);
    assert k + 1 !in t.kids && FindDir(t, k, "a") == None;
    MkdirNameable(t, k, k + 1, "a");
    NewNames(t, k, k + 1, "a");
    MkdirKeepsNameable(t, k, k + 1, "a", k);
    assert seq(k + 1, _ => "a") == seq(k, _ => "a") + ["a"];
  }

  /** The names of a new directory are those of its parent and its own. */
  lemma NewNames<N>(t: Tree<N>, n: N, c: N, name: string)
    requires WellFormed(t) && n in t.kids && c !in t.kids && WellFormed(AddChild(t, n, c, name))
    ensures c in AddChild(t, n, c, name).kids && n in AddChild(t, n, c, name).kids
    ensures Names(AddChild(t, n, c, name), n) == Names(t, n)
    ensures Names(AddChild(t, n, c, name), c) == Names(t, n) + [name]
  {
    AddChildNames(t, n, c, name, n);
  }

  lemma {:induction false} ChainTip(n: nat)
    ensures Tip(Chain(n), n)
  {
    if n > 0 {
      ChainTip(n - 1);
      OneDeeper(Chain(n - 1), n - 1);
    }
  }

  lemma {:induction false} ChainLength(n: nat)
    ensures |Joined(seq(n, _ => "a"))| == 2 * n
  {
    if n > 0 {
      assert seq(n, _ => "a")[1..] == seq(n - 1, _ => "a");
      ChainLength(n - 1);
    }
  }

  /** From a directory 33 deep, the path that vfs_get_cwd prints leads to its parent. */
  lemma TooDeep()
    ensures Tip(Chain(33), 33) && Nameable(Chain(33), 33)
    ensures Lookup(Chain(33), 33, Cwd(Chain(33), 33, 4096)) == Some(32)
  {
    ChainTip(32);
    OneDeeper(Chain(32), 32);
    var t := Chain(33);
    assert t == AddChild(Chain(32), 32, 33, "a");
    TipLosesRoot(t);
  }

  lemma TipLosesRoot(t: Tree<nat>)
    requires Tip(t, 33) && 32 in t.kids && Names(t, 32) == seq(32, _ => "a") && Nameable(t, 32)
    ensures Lookup(t, 33, Cwd(t, 33, 4096)) == Some(32)
  {
    hide WellFormed, Nameable, Names, PrintFrom;
    var kept := seq(32, _ => "a");
    assert Kept(Names(t, 33)) == kept;
    ChainLength(32);
    PrintExact([], kept, 4096);
    JoinedEmpty();
    assert [] + kept == kept;
    LookupPath(t, 33, 32);
  }
}
