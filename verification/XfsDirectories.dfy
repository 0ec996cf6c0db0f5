/** Directory listing, lookup by name and parent chains over the inodes of all groups. */
module XfsDirectories {
  import opened Basics
  import opened XfsModel
  import Bitmap

  /** The inode slots of all groups in scan order. */
  function Flatten(groups: seq<Group>): seq<Inode> {
    if groups == [] then [] else groups[0].inodes + Flatten(groups[1..])
  }

  predicate IsChild(x: Inode, parent: nat) {
    x.active && x.parent == parent
  }

  function Children(xs: seq<Inode>, parent: nat): (r: seq<Inode>)
    ensures |r| <= |xs|
  {
    if xs == [] then []
    else if IsChild(xs[0], parent) then [xs[0]] + Children(xs[1..], parent)
    else Children(xs[1..], parent)
  }

  /** The entries of a directory in the order readdir counts them. */
  function Listing(v: Volume, parent: nat): seq<Inode> {
    Children(Flatten(v.groups), parent)
  }

  /** Entry `k` of a scan over `xs`, as xfs_vfs_readdir counts matches. */
  function Nth(xs: seq<Inode>, parent: nat, k: nat): Option<Inode>
    decreases |xs|
  {
    if xs == [] then None
    else if !IsChild(xs[0], parent) then Nth(xs[1..], parent, k)
    else if k == 0 then Some(xs[0])
    else Nth(xs[1..], parent, k - 1)
  }

  /** The first child with a name in a scan over `xs`, as xfs_vfs_finddir looks for it. */
  function FirstNamed(xs: seq<Inode>, parent: nat, name: string): Option<Inode> {
    if xs == [] then None
    else if IsChild(xs[0], parent) && xs[0].name == name then Some(xs[0])
    else FirstNamed(xs[1..], parent, name)
  }

  /** readdir at an index gives the entry of the listing there, and fails past its end. */
  lemma {:induction false} NthOfListing(xs: seq<Inode>, parent: nat, k: nat)
    ensures Nth(xs, parent, k) == if k < |Children(xs, parent)| then Some(Children(xs, parent)[k]) else None
    decreases |xs|
  {
    if xs != [] {
      NthOfListing(xs[1..], parent, if IsChild(xs[0], parent) && k > 0 then k - 1 else k);
    }
  }

  /** finddir succeeds exactly for names the listing has, with the first entry of that name. */
  lemma {:induction false} FirstNamedOfListing(xs: seq<Inode>, parent: nat, name: string)
    ensures match FirstNamed(xs, parent, name)
            case None => forall k :: 0 <= k < |Children(xs, parent)| ==> Children(xs, parent)[k].name != name
            case Some(x) =>
              exists k :: 0 <= k < |Children(xs, parent)| && Children(xs, parent)[k] == x && x.name == name
                && forall j :: 0 <= j < k ==> Children(xs, parent)[j].name != name
  {
    if xs != [] {
      FirstNamedOfListing(xs[1..], parent, name);
      var rest := Children(xs[1..], parent);
      var all := Children(xs, parent);
      var r := FirstNamed(xs[1..], parent, name);
      if IsChild(xs[0], parent) {
        assert all[1..] == rest;
        if xs[0].name == name {
          assert all[0] == xs[0];
        } else if r.Some? {
          var k :| 0 <= k < |rest| && rest[k] == r.value && r.value.name == name
            && forall j :: 0 <= j < k ==> rest[j].name != name;
          assert all[k + 1] == r.value && forall j :: 0 <= j < k + 1 ==> all[j].name != name;
        } else {
          assert forall k :: 0 < k < |all| ==> all[k] == rest[k - 1];
        }
      }
    }
  }

  /** A listing holds exactly the matching slots. */
  lemma {:induction false} ChildrenAre(xs: seq<Inode>, parent: nat, x: Inode)
    ensures x in Children(xs, parent) <==> x in xs && IsChild(x, parent)
  {
    if xs != [] {
      ChildrenAre(xs[1..], parent, x);
      assert xs == [xs[0]] + xs[1..];
    }
  }

  // ---------------------------------------------------------------- numbers and parents

  /** Active slots have different numbers. */
  ghost predicate Numbered(xs: seq<Inode>) {
    forall a, b :: 0 <= a < b < |xs| && xs[a].active && xs[b].active ==> xs[a].number != xs[b].number
  }

  lemma {:induction false} ChildrenDistinct(xs: seq<Inode>, parent: nat)
    requires Numbered(xs)
    ensures forall a, b :: 0 <= a < b < |Children(xs, parent)| ==>
              Children(xs, parent)[a].number != Children(xs, parent)[b].number
  {
    if xs != [] {
      ChildrenDistinct(xs[1..], parent);
      var rest := Children(xs[1..], parent);
      if IsChild(xs[0], parent) {
        forall k | 0 <= k < |rest|
          ensures rest[k].number != xs[0].number
        {
          ChildrenAre(xs[1..], parent, rest[k]);
          var b :| 0 <= b < |xs[1..]| && xs[1..][b] == rest[k];
          assert xs[b + 1] == rest[k];
        }
      }
    }
  }

  ghost predicate Known(xs: seq<Inode>, number: nat) {
    exists a :: 0 <= a < |xs| && xs[a].active && xs[a].number == number
  }

  /** Numbers run from `base` up to the counter, and every parent is the root, number 0, or
      an older inode. */
  ghost predicate TreeOk(v: Volume, base: nat) {
    var xs := Flatten(v.groups);
    && 0 < base && Numbered(xs)
    && forall a :: 0 <= a < |xs| && xs[a].active ==>
         && base <= xs[a].number < v.counter
         && (xs[a].parent == 0 || (xs[a].parent < xs[a].number && Known(xs, xs[a].parent)))
  }

  lemma {:induction false} FlattenLength(groups: seq<Group>)
    requires forall i :: 0 <= i < |groups| ==> |groups[i].inodes| == MAX_FILES
    ensures |Flatten(groups)| == MAX_FILES * |groups|
  {
    if groups != [] {
      FlattenLength(groups[1..]);
    }
  }

  /** Changing one slot of one group changes one slot of the scan. */
  lemma {:induction false} FlattenUpdate(groups: seq<Group>, ag: nat, h: Group, slot: nat, x: Inode)
    requires forall i :: 0 <= i < |groups| ==> |groups[i].inodes| == MAX_FILES
    requires ag < |groups| && slot < MAX_FILES && h.inodes == groups[ag].inodes[slot := x]
    ensures |Flatten(groups)| == MAX_FILES * |groups|
    ensures Flatten(groups)[MAX_FILES * ag + slot] == groups[ag].inodes[slot]
    ensures Flatten(groups[ag := h]) == Flatten(groups)[MAX_FILES * ag + slot := x]
  {
    FlattenLength(groups);
    if ag == 0 {
      assert groups[ag := h][1..] == groups[1..];
    } else {
      FlattenUpdate(groups[1..], ag - 1, h, slot, x);
      assert groups[ag := h][1..] == groups[1..][ag - 1 := h];
    }
  }

  /** Filling an inactive slot with a numbered inode under an existing parent. */
  lemma FillSlot(xs: seq<Inode>, p: nat, x: Inode, counter: nat, base: nat)
    requires p < |xs| && !xs[p].active && x.active && x.number == counter && 0 < base <= counter
    requires x.parent == 0 || Known(xs, x.parent)
    requires Numbered(xs) && forall a :: 0 <= a < |xs| && xs[a].active ==>
      && base <= xs[a].number < counter
      && (xs[a].parent == 0 || (xs[a].parent < xs[a].number && Known(xs, xs[a].parent)))
    ensures var ys := xs[p := x];
      && Numbered(ys)
      && forall a :: 0 <= a < |ys| && ys[a].active ==>
           && base <= ys[a].number < counter + 1
           && (ys[a].parent == 0 || (ys[a].parent < ys[a].number && Known(ys, ys[a].parent)))
  {
    var ys := xs[p := x];
    forall n: nat | Known(xs, n)
      ensures Known(ys, n) && n < counter
    {
      var a :| 0 <= a < |xs| && xs[a].active && xs[a].number == n;
      assert ys[a] == xs[a];
    }
  }

  // ---------------------------------------------------------------- runs

  datatype Request = Request(name: string, kind: nat, parent: nat)

  ghost function Apply(v: Volume, r: Request): (Volume, int)
    requires Sized(v)
  {
    Create(v, r.name, r.kind, r.parent)
  }

  /** What xfs_init leaves. */
  ghost predicate Fresh(g: Group) {
    && g.freeBlocks == BLOCKS && g.inodeCount == 0 && |g.inodes| == MAX_FILES
    && g.bitmap == seq(BLOCKS / 8, _ => 0)
    && forall j :: 0 <= j < MAX_FILES ==> !g.inodes[j].active
  }

  ghost predicate Initial(v: Volume) {
    && |v.groups| == AG_COUNT && 0 < v.counter
    && forall i :: 0 <= i < AG_COUNT ==> Fresh(v.groups[i])
  }

  /** The only inode a caller can pass besides the root is one it was given. */
  ghost predicate ParentExists(v: Volume, parent: nat) {
    parent == 0 || Known(Flatten(v.groups), parent)
  }

  ghost predicate IsRun(vs: seq<Volume>, rs: seq<Request>) {
    && |vs| == |rs| + 1 && Initial(vs[0])
    && forall i {:trigger rs[i]} :: 0 <= i < |rs| ==>
         Sized(vs[i]) && Apply(vs[i], rs[i]).0 == vs[i + 1]
  }

  lemma FreshIsOk(v: Volume)
    requires Initial(v)
    ensures VolumeOk(v)
  {
    forall i | 0 <= i < AG_COUNT
      ensures GroupOk(v.groups[i])
    {
      assert Fresh(v.groups[i]);
      Bitmap.ClearBits(v.groups[i].bitmap);
    }
  }

  lemma {:induction false} NothingActive(groups: seq<Group>)
    requires forall i :: 0 <= i < |groups| ==> Fresh(groups[i])
    ensures forall a :: 0 <= a < |Flatten(groups)| ==> !Flatten(groups)[a].active
  {
    if groups != [] {
      NothingActive(groups[1..]);
    }
  }

  /** What a creation answers: an over-long name is refused, one that cleans to nothing is
      accepted and ignored, and any other fails exactly when all 128 inodes are used. */
  function Answer(name: string, exhausted: bool): int {
    if |name| >= MAX_NAME then -EINVAL
    else if CleanName(name) == [] then 0
    else if exhausted then -ENOSPC
    else 0
  }

  lemma RequestKeeps(v: Volume, r: Request)
    requires VolumeOk(v) && Sized(v)
    ensures VolumeOk(Apply(v, r).0) && Apply(v, r).1 == Answer(r.name, Exhausted(v))
  {
    hide GroupOk, CreateClean, Exhausted, Balanced;
    CreateKeeps(v, CleanName(r.name), r.kind, r.parent);
  }

  /** In every reachable state groups are balanced and account for their blocks, and
      creation answers as `Answer` says: "no block" and -EIO never happen. */
  lemma {:induction false} RunKeeps(vs: seq<Volume>, rs: seq<Request>, i: nat)
    requires IsRun(vs, rs) && i <= |rs|
    ensures VolumeOk(vs[i]) && Sized(vs[i])
    ensures i < |rs| ==> Apply(vs[i], rs[i]).1 == Answer(rs[i].name, Exhausted(vs[i]))
  {
    hide VolumeOk, Apply, Exhausted, Answer, Sized;
    if i == 0 {
      FreshIsOk(vs[0]);
    } else {
      RunKeeps(vs, rs, i - 1);
      RequestKeeps(vs[i - 1], rs[i - 1]);
    }
    GroupsSized(vs[i]);
    if i < |rs| {
      RequestKeeps(vs[i], rs[i]);
    }
  }

  lemma GroupsSized(v: Volume)
    requires VolumeOk(v)
    ensures Sized(v)
  {
  }

  /** Binding one more inode in a group keeps the tree. */
  lemma BindKeepsTree(v: Volume, ag: nat, h: Group, inode: Inode, base: nat)
    requires TreeOk(v, base) && base <= v.counter && |v.groups| == AG_COUNT && ag < AG_COUNT
    requires forall i :: 0 <= i < AG_COUNT ==> |v.groups[i].inodes| == MAX_FILES
    requires var n := v.groups[ag].inodeCount;
      && n < MAX_FILES && !v.groups[ag].inodes[n].active && h.inodes == v.groups[ag].inodes[n := inode]
    requires inode.active && inode.number == v.counter && ParentExists(v, inode.parent)
    ensures TreeOk(Volume(v.groups[ag := h], v.counter + 1), base)
  {
    hide Flatten, Numbered, Known;
    var n := v.groups[ag].inodeCount;
    FlattenUpdate(v.groups, ag, h, n, inode);
    FillSlot(Flatten(v.groups), MAX_FILES * ag + n, inode, v.counter, base);
  }

  /** One creation under an existing parent keeps the tree. */
  lemma CreateKeepsTree(v: Volume, r: Request, base: nat)
    requires VolumeOk(v) && Sized(v) && TreeOk(v, base) && base <= v.counter && ParentExists(v, r.parent)
    ensures TreeOk(Apply(v, r).0, base)
    ensures v.counter <= Apply(v, r).0.counter
  {
    hide GroupOk, CreateClean, Bitmap.Bits, AllocBlock, FirstFree, FreeSlot, TreeOk, ParentExists, Balanced, BeforeBlank;
    var name := CleanName(r.name);
    CreateKeeps(v, name, r.kind, r.parent);
    if |r.name| < MAX_NAME && name != [] && !Exhausted(v) {
      var ag := PickAmong(v.groups, AG_COUNT);
      var g := v.groups[ag];
      var inode := Inode(v.counter, name, r.kind, FirstFree(g.bitmap, 0), r.parent, true);
      SlotFree(g);
      GroupCreates(g, inode);
      BindKeepsTree(v, ag, Bind(AllocBlock(g).0, g.inodeCount, inode), inode, base);
    }
  }

  lemma SlotFree(g: Group)
    requires GroupOk(g) && g.inodeCount < MAX_FILES
    ensures g.inodeCount < |g.inodes| && !g.inodes[g.inodeCount].active
  {
  }

  /** When callers pass existing parents, every reachable state is a tree. */
  lemma {:induction false} RunKeepsTree(vs: seq<Volume>, rs: seq<Request>, i: nat)
    requires IsRun(vs, rs) && i <= |rs|
    requires forall j :: 0 <= j < |rs| ==> ParentExists(vs[j], rs[j].parent)
    ensures TreeOk(vs[i], vs[0].counter) && vs[0].counter <= vs[i].counter
  {
    hide VolumeOk, Apply, Sized;
    if i == 0 {
      NothingActive(vs[0].groups);
    } else {
      RunKeepsTree(vs, rs, i - 1);
      RunKeeps(vs, rs, i - 1);
      CreateKeepsTree(vs[i - 1], rs[i - 1], vs[0].counter);
    }
  }

  // ---------------------------------------------------------------- what callers see

  /** Readdir over 0, 1, 2, … gives every active child at exactly one index, gives nothing
      else, and fails from the number of children on. */
  lemma ReaddirIsComplete(v: Volume, base: nat, parent: nat, k: nat, x: Inode)
    requires TreeOk(v, base)
    ensures Nth(Flatten(v.groups), parent, k).None? <==> k >= |Listing(v, parent)|
    ensures x in Flatten(v.groups) && IsChild(x, parent) <==>
            exists i: nat :: Nth(Flatten(v.groups), parent, i) == Some(x)
    ensures forall i: nat, j: nat ::
              (Nth(Flatten(v.groups), parent, i) == Some(x) == Nth(Flatten(v.groups), parent, j)) ==> i == j
  {
    var xs := Flatten(v.groups);
    forall i: nat
      ensures Nth(xs, parent, i) == if i < |Children(xs, parent)| then Some(Children(xs, parent)[i]) else None
    {
      NthOfListing(xs, parent, i);
    }
    ChildrenAre(xs, parent, x);
    ChildrenDistinct(xs, parent);
    if x in Children(xs, parent) {
      var i: nat :| i < |Children(xs, parent)| && Children(xs, parent)[i] == x;
      assert Nth(xs, parent, i) == Some(x);
    }
  }

  ghost predicate Misses(entry: Option<Inode>, name: string) {
    entry.Some? && entry.value.name != name
  }

  /** Finddir succeeds exactly for the names readdir lists, and returns the entry at the
      lowest index of that name. */
  lemma FinddirAgreesWithReaddir(v: Volume, parent: nat, name: string)
    ensures match FirstNamed(Flatten(v.groups), parent, name)
            case None => forall k: nat :: Nth(Flatten(v.groups), parent, k).Some? ==>
                           Nth(Flatten(v.groups), parent, k).value.name != name
            case Some(x) => x.name == name && exists k: nat ::
                           && Nth(Flatten(v.groups), parent, k) == Some(x)
                           && forall j: nat :: j < k ==> Misses(Nth(Flatten(v.groups), parent, j), name)
  {
    var xs := Flatten(v.groups);
    var all := Children(xs, parent);
    forall i: nat
      ensures Nth(xs, parent, i) == if i < |all| then Some(all[i]) else None
    {
      NthOfListing(xs, parent, i);
    }
    FirstNamedOfListing(xs, parent, name);
    var r := FirstNamed(xs, parent, name);
    if r.Some? {
      var k: nat :| k < |all| && all[k] == r.value && r.value.name == name
        && forall j :: 0 <= j < k ==> all[j].name != name;
      assert Nth(xs, parent, k) == r;
    }
  }

  /** The inode a successful creation binds. */
  ghost function Created(v: Volume, r: Request): Inode
    requires Sized(v)
  {
    var g := v.groups[PickAmong(v.groups, AG_COUNT)];
    Inode(v.counter, CleanName(r.name), r.kind, FirstFree(g.bitmap, 0), r.parent, true)
  }

  lemma SlotSwap(xs: seq<Inode>, k: nat, x: Inode, p: nat, y: Inode)
    requires k < |xs| && !xs[k].active && x.active
    ensures y in Children(xs[k := x], p) <==> y in Children(xs, p) || (y == x && x.parent == p)
  {
    var ys := xs[k := x];
    ChildrenAre(xs, p, y);
    ChildrenAre(ys, p, y);
    assert ys[k] == x;
    assert forall a :: 0 <= a < |xs| && a != k ==> xs[a] == ys[a];
  }

  /** A successful creation puts exactly the new entry into exactly one directory. */
  lemma CreatedIsListed(v: Volume, r: Request, p: nat, y: Inode)
    requires VolumeOk(v) && Sized(v) && |r.name| < MAX_NAME && CleanName(r.name) != [] && !Exhausted(v)
    ensures y in Listing(Apply(v, r).0, p) <==> y in Listing(v, p) || (y == Created(v, r) && p == r.parent)
  {
    hide GroupOk, CreateClean, Bitmap.Bits, AllocBlock, FirstFree, FreeSlot, Balanced, BeforeBlank, Children, Flatten, Exhausted;
    var x := Created(v, r);
    CreateKeeps(v, x.name, r.kind, r.parent);
    var ag := PickAmong(v.groups, AG_COUNT);
    var g := v.groups[ag];
    SlotFree(g);
    GroupCreates(g, x);
    FlattenUpdate(v.groups, ag, Bind(AllocBlock(g).0, g.inodeCount, x), g.inodeCount, x);
    SlotSwap(Flatten(v.groups), MAX_FILES * ag + g.inodeCount, x, p, y);
  }

  /** What was created is found. */
  lemma CreatedIsFound(v: Volume, r: Request)
    requires VolumeOk(v) && Sized(v) && |r.name| < MAX_NAME && CleanName(r.name) != [] && !Exhausted(v)
    ensures FirstNamed(Flatten(Apply(v, r).0.groups), r.parent, CleanName(r.name)).Some?
  {
    hide Apply, VolumeOk, Exhausted, Flatten, Children, FirstNamed, CleanName, PickAmong, FirstFree;
    var x := Created(v, r);
    CreatedIsListed(v, r, r.parent, x);
    FirstNamedOfListing(Flatten(Apply(v, r).0.groups), r.parent, CleanName(r.name));
  }

  /** A chain of parents from an inode number to the root. */
  ghost predicate Chain(xs: seq<Inode>, path: seq<nat>) {
    && path != [] && path[|path| - 1] == 0
    && forall i {:trigger path[i]} :: 0 <= i < |path| - 1 ==> ParentOf(xs, path[i], path[i + 1])
  }

  ghost predicate ParentOf(xs: seq<Inode>, number: nat, parent: nat) {
    exists a :: 0 <= a < |xs| && xs[a].active && xs[a].number == number && xs[a].parent == parent
  }

  /** Every parent chain reaches the root. */
  lemma {:induction false} ChainToRoot(v: Volume, base: nat, number: nat) returns (path: seq<nat>)
    requires TreeOk(v, base) && ParentExists(v, number)
    ensures Chain(Flatten(v.groups), path) && path[0] == number
    decreases number
  {
    var xs := Flatten(v.groups);
    if number == 0 {
      path := [0];
    } else {
      var a :| 0 <= a < |xs| && xs[a].active && xs[a].number == number;
      var rest := ChainToRoot(v, base, xs[a].parent);
      path := [number] + rest;
      assert ParentOf(xs, path[0], path[1]);
      assert forall i :: 0 < i < |path| ==> path[i] == rest[i - 1];
    }
  }
}
