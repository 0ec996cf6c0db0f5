/** What xfs_create_file does with a name, said of the characters given and of what the
    directories list afterwards. */
module XfsLaws {
  import opened Basics
  import opened XfsModel
  import opened XfsDirectories
  import Bitmap

  // ---------------------------------------------------------------- names

  /** A character that ends a name. */
  predicate Ends(c: char) {
    c == ' ' || c == '\t' || c == '\n' || c == '\r'
  }

  predicate PlainName(w: string) {
    w != "" && w[0] != '/' && forall i :: 0 <= i < |w| ==> !Ends(w[i])
  }

  /** A slash or nothing before a name. */
  predicate Before(pre: string) {
    pre == "" || pre == "/"
  }

  /** Nothing, or anything that begins with a character that ends names. */
  predicate After(post: string) {
    post == "" || Ends(post[0])
  }

  lemma {:induction false} CutsAfter(w: string, post: string)
    requires After(post) && forall i :: 0 <= i < |w| ==> !Ends(w[i])
    ensures BeforeBlank(w + post) == w
  {
    if w == "" {
      assert w + post == post;
    } else {
      assert (w + post)[1..] == w[1..] + post;
      CutsAfter(w[1..], post);
    }
  }

  lemma CleansTo(pre: string, w: string, post: string)
    requires Before(pre) && After(post) && (PlainName(w) || w == "")
    ensures CleanName(pre + w + post) == w
  {
    hide BeforeBlank;
    CutsAfter(w, post);
    if pre == "/" {
      Associate("/", w, post);
      assert ("/" + (w + post))[1..] == w + post;
    } else {
      assert "" + w == w;
    }
  }

  // ---------------------------------------------------------------- slots

  ghost predicate SomeSlotFree(v: Volume) {
    exists a :: 0 <= a < |Flatten(v.groups)| && !Flatten(v.groups)[a].active
  }

  lemma {:induction false} SlotOf(groups: seq<Group>, a: nat) returns (i: nat, j: nat)
    requires (forall k :: 0 <= k < |groups| ==> |groups[k].inodes| == MAX_FILES) && a < |Flatten(groups)|
    ensures i < |groups| && j < MAX_FILES && Flatten(groups)[a] == groups[i].inodes[j]
  {
    if a < MAX_FILES {
      i, j := 0, a;
    } else {
      i, j := SlotOf(groups[1..], a - MAX_FILES);
      i := i + 1;
    }
  }

  lemma FreeSlotExists(v: Volume)
    requires VolumeOk(v)
    ensures SomeSlotFree(v) <==> !Exhausted(v)
  {
    forall k | 0 <= k < |v.groups|
      ensures |v.groups[k].inodes| == MAX_FILES
    {
      assert GroupOk(v.groups[k]);
    }
    if SomeSlotFree(v) {
      var a :| 0 <= a < |Flatten(v.groups)| && !Flatten(v.groups)[a].active;
      var i, j := SlotOf(v.groups, a);
      assert GroupOk(v.groups[i]) && v.groups[i].inodeCount < MAX_FILES;
    }
    if !Exhausted(v) {
      var i :| 0 <= i < |v.groups| && v.groups[i].inodeCount != MAX_FILES;
      var g := v.groups[i];
      assert GroupOk(g);
      FlattenUpdate(v.groups, i, g.(inodes := g.inodes[g.inodeCount := g.inodes[g.inodeCount]]), g.inodeCount,
                    g.inodes[g.inodeCount]);
      assert !Flatten(v.groups)[MAX_FILES * i + g.inodeCount].active;
    }
  }

  // ---------------------------------------------------------------- creation

  /** The new entry is `w`, and it is the only change in any directory. */
  ghost predicate Adds(v: Volume, u: Volume, w: string, kind: nat, parent: nat, x: Inode) {
    && x.name == w && x.kind == kind && x.parent == parent && x.number == v.counter && x.active
    && forall p: nat, y :: y in Listing(u, p) <==> y in Listing(v, p) || (y == x && p == parent)
  }

  /** With an inode free, a name, with or without a slash before it and with anything after
      a character that ends it, makes an entry of exactly that name, and it is found. */
  lemma NameIsListed(v: Volume, pre: string, w: string, post: string, kind: nat, parent: nat)
    requires VolumeOk(v) && Sized(v) && SomeSlotFree(v)
    requires Before(pre) && PlainName(w) && After(post) && |pre + w + post| < 64
    ensures var (u, code) := Apply(v, Request(pre + w + post, kind, parent));
      && code == 0
      && (exists x :: Adds(v, u, w, kind, parent, x))
      && FirstNamed(Flatten(u.groups), parent, w).Some?
      && FirstNamed(Flatten(u.groups), parent, w).value.name == w
  {
    var r := Request(pre + w + post, kind, parent);
    CleansTo(pre, w, post);
    FreeSlotExists(v);
    CreateAnswers(v, r);
    var x := Created(v, r);
    hide VolumeOk, Exhausted, CleanName, Listing, Flatten, FirstNamed, Apply;
    forall p: nat, y
      ensures y in Listing(Apply(v, r).0, p) <==> y in Listing(v, p) || (y == x && p == parent)
    {
      CreatedIsListed(v, r, p, y);
    }
    assert Adds(v, Apply(v, r).0, w, kind, parent, x);
    CreatedIsFound(v, r);
    FirstNamedOfListing(Flatten(Apply(v, r).0.groups), parent, w);
  }

  lemma CreateAnswers(v: Volume, r: Request)
    requires VolumeOk(v) && Sized(v)
    ensures Apply(v, r).1 == Answer(r.name, Exhausted(v))
  {
    RequestKeeps(v, r);
  }

  /** A name that is too long is refused, one with nothing in it is accepted without effect,
      and with no inode free every other name is refused. */
  lemma NameIsRefused(v: Volume, pre: string, w: string, post: string, kind: nat, parent: nat)
    requires VolumeOk(v) && Sized(v) && Before(pre) && After(post)
    ensures |pre + w + post| >= 64 ==> Apply(v, Request(pre + w + post, kind, parent)) == (v, -22)
    ensures |pre + w + post| < 64 && w == "" ==> Apply(v, Request(pre + w + post, kind, parent)) == (v, 0)
    ensures |pre + w + post| < 64 && PlainName(w) && !SomeSlotFree(v) ==>
      Apply(v, Request(pre + w + post, kind, parent)) == (v, -28)
  {
    if w == "" || PlainName(w) {
      CleansTo(pre, w, post);
    }
    FreeSlotExists(v);
    CreateKeeps(v, w, kind, parent);
  }

  // ---------------------------------------------------------------- counting

  function Inodes(v: Volume): nat
    requires |v.groups| == AG_COUNT
  {
    v.groups[0].inodeCount + v.groups[1].inodeCount + v.groups[2].inodeCount + v.groups[3].inodeCount
  }

  lemma CreateCounts(v: Volume, r: Request)
    requires VolumeOk(v) && Sized(v)
    ensures |Apply(v, r).0.groups| == AG_COUNT && v.counter <= Apply(v, r).0.counter
    ensures Apply(v, r).0.counter - v.counter == Inodes(Apply(v, r).0) - Inodes(v)
  {
    hide CreateClean, Balanced, CleanName, FirstFree, PickAmong, Bitmap.Bits;
    CreateKeeps(v, CleanName(r.name), r.kind, r.parent);
    if |r.name| < MAX_NAME && CleanName(r.name) != [] && !Exhausted(v) {
      var ag := PickAmong(v.groups, AG_COUNT);
      var g := v.groups[ag];
      var inode := Inode(v.counter, CleanName(r.name), r.kind, FirstFree(g.bitmap, 0), r.parent, true);
      BindCounts(g, inode);
      hide AllocBlock, Bind, GroupOk;
    }
  }

  lemma BindCounts(g: Group, inode: Inode)
    requires GroupOk(g) && g.inodeCount < MAX_FILES
    ensures |g.inodes| > g.inodeCount && Bind(AllocBlock(g).0, g.inodeCount, inode).inodeCount == g.inodeCount + 1
  {
    BlockTaken(g);
  }

  /** In every reachable state: no slot is free exactly when 128 files were made, so these
      are as many as can be. */
  lemma {:induction false} FullAt128(vs: seq<Volume>, rs: seq<Request>, i: nat)
    requires IsRun(vs, rs) && i <= |rs|
    ensures VolumeOk(vs[i]) && vs[i].counter - vs[0].counter == Inodes(vs[i]) <= 128
    ensures !SomeSlotFree(vs[i]) <==> vs[i].counter - vs[0].counter == 128
  {
    hide Apply, Exhausted, SomeSlotFree;
    RunKeeps(vs, rs, i);
    FreeSlotExists(vs[i]);
    AllFull(vs[i]);
    if i > 0 {
      FullAt128(vs, rs, i - 1);
      RunKeeps(vs, rs, i - 1);
      CreateCounts(vs[i - 1], rs[i - 1]);
    } else {
      hide VolumeOk;
      assert forall k :: 0 <= k < AG_COUNT ==> Fresh(vs[0].groups[k]);
    }
  }

  lemma AllFull(v: Volume)
    requires VolumeOk(v)
    ensures Inodes(v) <= 128 && (Exhausted(v) <==> Inodes(v) == 128)
  {
    hide GroupOk;
    CountsSmall(v);
  }

  lemma CountsSmall(v: Volume)
    requires VolumeOk(v)
    ensures forall k :: 0 <= k < AG_COUNT ==> v.groups[k].inodeCount <= 32
  {
    forall k | 0 <= k < AG_COUNT
      ensures v.groups[k].inodeCount <= 32
    {
      assert GroupOk(v.groups[k]);
    }
  }

  /** In every reachable state each group accounts for its 1024 blocks, and no group has two
      free blocks more than another. */
  lemma BlocksAccounted(vs: seq<Volume>, rs: seq<Request>, i: nat, k: nat, l: nat)
    requires IsRun(vs, rs) && i <= |rs| && k < AG_COUNT && l < AG_COUNT
    ensures |vs[i].groups| == AG_COUNT
    ensures vs[i].groups[k].freeBlocks + |Bitmap.Bits(vs[i].groups[k].bitmap)| == 1024
    ensures vs[i].groups[k].freeBlocks + vs[i].groups[k].inodeCount == 1024
    ensures vs[i].groups[k].freeBlocks <= vs[i].groups[l].freeBlocks + 1
  {
    RunKeeps(vs, rs, i);
    hide IsRun, Bitmap.Bits;
    assert GroupOk(vs[i].groups[k]);
  }

  // ---------------------------------------------------------------- blocks

  /** The files of a group have blocks of their own, marked in the bitmap. */
  ghost predicate OwnBlocks(g: Group) {
    && (forall j :: 0 <= j < |g.inodes| && g.inodes[j].active ==> g.inodes[j].startBlock in Bitmap.Bits(g.bitmap))
    && (forall j, k :: 0 <= j < k < |g.inodes| && g.inodes[j].active && g.inodes[k].active ==>
          g.inodes[j].startBlock != g.inodes[k].startBlock)
  }

  ghost predicate AllOwnBlocks(v: Volume) {
    forall i :: 0 <= i < |v.groups| ==> OwnBlocks(v.groups[i])
  }

  lemma BindOwnsBlock(g: Group, inode: Inode)
    requires GroupOk(g) && OwnBlocks(g) && g.inodeCount < MAX_FILES && inode.startBlock == FirstFree(g.bitmap, 0)
    ensures |g.inodes| > g.inodeCount && OwnBlocks(Bind(AllocBlock(g).0, g.inodeCount, inode))
  {
    hide Bitmap.Bits, Bitmap.Test, Bitmap.Put;
    BlockTaken(g);
    var i := FirstFree(g.bitmap, 0);
    NotABit(g.bitmap, i);
    Bitmap.PutBits(g.bitmap, i, true);
  }

  lemma CreateOwns(v: Volume, r: Request)
    requires VolumeOk(v) && Sized(v) && AllOwnBlocks(v)
    ensures AllOwnBlocks(Apply(v, r).0)
  {
    hide CreateClean, Balanced, CleanName, FirstFree, PickAmong, Bitmap.Bits, OwnBlocks, GroupOk;
    CreateKeeps(v, CleanName(r.name), r.kind, r.parent);
    if |r.name| < MAX_NAME && CleanName(r.name) != [] && !Exhausted(v) {
      var ag := PickAmong(v.groups, AG_COUNT);
      var g := v.groups[ag];
      BindOwnsBlock(g, Inode(v.counter, CleanName(r.name), r.kind, FirstFree(g.bitmap, 0), r.parent, true));
      hide AllocBlock, Bind;
    }
  }

  /** In every reachable state the files of a group have different blocks. */
  lemma {:induction false} BlocksAreOwn(vs: seq<Volume>, rs: seq<Request>, i: nat)
    requires IsRun(vs, rs) && i <= |rs|
    ensures AllOwnBlocks(vs[i])
  {
    hide Apply, VolumeOk;
    if i > 0 {
      BlocksAreOwn(vs, rs, i - 1);
      RunKeeps(vs, rs, i - 1);
      CreateOwns(vs[i - 1], rs[i - 1]);
    } else {
      assert forall k :: 0 <= k < AG_COUNT ==> Fresh(vs[0].groups[k]);
    }
  }
}
