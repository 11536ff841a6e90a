/** From a directory tree through the image to the booted file system. */
module EndToEnd {
  import opened Wrappers
  import opened Memory
  import opened CStrings
  import opened SourceTree
  import opened Makefs
  import opened FileSystem
  import opened InitrdDevice
  import opened Paths
  import opened VirtualFileSystem

  /** The entry t is the source entry c: same name and attributes, the same content behind
      its data pointer, and the same children, the last one in front. */
  ghost predicate Shows(t: DTree, c: Node)
    decreases c, 0
  {
    && t.ident == c.name && t.inode.mode == c.mode && t.inode.gid == c.gid && t.inode.uid == 0xabcdef1
    && t.inode.isDir == c.Dir?
    && match c
       case File(_, _, _, content) =>
         && t.kids == [] && t.inode.size == |content| && t.inode.data + |content| <= |t.inode.fileData|
         && t.inode.fileData[t.inode.data..t.inode.data + |content|] == content
       case Dir(_, _, _, children) => t.inode.size == 0 && ShowsAll(t.kids, children)
  }

  ghost predicate ShowsAll(ts: seq<DTree>, cs: seq<Node>)
    decreases cs, 1
  {
    |ts| == |cs| && forall i, j :: 0 <= i < |ts| && 0 <= j < |cs| && i + j + 1 == |cs| ==> Shows(ts[i], cs[j])
  }

  /** `S_ISDIR` of the host and of the kernel agree on directories and regular files. */
  lemma DirBit(mode: nat)
    ensures TypeOf(mode) == 4 ==> IsDirMode(mode)
    ensures TypeOf(mode) == 8 ==> !IsDirMode(mode)
  {
    hide TypeOf, IsDirMode;
    var high, kind, rest := TypeBits(mode);
    HighBits(mode, high, kind, rest);
  }

  lemma TypeBits(mode: nat) returns (high: nat, kind: nat, rest: nat)
    ensures mode == 0x1000 * (0x10 * high + kind) + rest && rest < 0x1000 && kind == TypeOf(mode)
  {
    var bits := mode / 0x1000;
    high, kind, rest := bits / 0x10, bits % 0x10, mode % 0x1000;
  }

  lemma HighBits(mode: nat, high: nat, kind: nat, rest: nat)
    requires mode == 0x1000 * (0x10 * high + kind) + rest && rest < 0x1000
    ensures kind == 4 ==> IsDirMode(mode)
    ensures kind == 8 ==> !IsDirMode(mode)
  {
    hide IsDirMode;
    if kind == 4 {
      BitIs(mode, 2 * high, 1, rest);
    } else if kind == 8 {
      BitIs(mode, 2 * high + 1, 0, rest);
    }
  }

  lemma BitIs(mode: nat, half: nat, bit: nat, rest: nat)
    requires mode == 0x4000 * (2 * half + bit) + rest && rest < 0x4000 && bit < 2
    ensures IsDirMode(mode) <==> bit == 1
  {
  }

  lemma GoodParts(cs: seq<Node>)
    requires cs != [] && GoodTree(cs)
    ensures GoodTree(cs[..|cs| - 1]) && GoodNode(cs[|cs| - 1])
  {
  }

  lemma ShowsCons(t: DTree, ts: seq<DTree>, cs: seq<Node>)
    requires cs != [] && ShowsAll(ts, cs[..|cs| - 1]) && Shows(t, cs[|cs| - 1])
    ensures ShowsAll([t] + ts, cs)
  {
    hide Shows;
    var all, init := [t] + ts, cs[..|cs| - 1];
    forall i, j | 0 <= i < |all| && 0 <= j < |cs| && i + j + 1 == |cs| ensures Shows(all[i], cs[j]) {
      if i > 0 {
        assert all[i] == ts[i - 1] && cs[j] == init[j];
      }
    }
  }

  lemma {:induction false} TreesShow(image: Image, cs: seq<Node>, n: nat, parent: nat, off: nat)
    requires Holds(image.dirents, image.inodes, image.data, cs, n, parent, off) && Linked(image, cs, n) && GoodTree(cs)
    ensures ShowsAll(Trees(image, cs, n), cs)
    decreases cs, 0
  {
    hide GoodNode, Shows, Count, LastId, Contents, HoldsNode, LinkedNode;
    if cs != [] {
      var init, c := cs[..|cs| - 1], cs[|cs| - 1];
      GoodParts(cs);
      TreesShow(image, init, n, parent, off);
      var id := n + Count(init);
      TreeShows(image, c, id, parent, LastId(init, n), off + |Contents(init)|);
      ShowsCons(TreeFrom(image, c, id, LastId(init, n)), Trees(image, init, n), cs);
    }
  }

  lemma {:induction false} TreeShows(image: Image, c: Node, id: nat, parent: nat, sibling: nat, off: nat)
    requires HoldsNode(image.dirents, image.inodes, image.data, c, id, parent, sibling, off)
    requires LinkedNode(image, c, id, sibling) && GoodNode(c)
    ensures Shows(TreeFrom(image, c, id, sibling), c)
    decreases c, 1
  {
    DirBit(c.mode);
    if c.Dir? {
      TreesShow(image, c.children, id + 1, id, off);
    }
  }

  /** Resolving below an entry that shows a good listing finds exactly what the listing holds. */
  lemma {:induction false} WalkFinds(t: DTree, cs: seq<Node>, comps: seq<Str>) returns (c: Node)
    requires ShowsAll(t.kids, cs) && GoodTree(cs) && comps != [] && Walk(t, comps).Some?
    ensures Leads(cs, comps, c) && Shows(Walk(t, comps).value, c)
    decreases |comps|
  {
    var i := FindChild(t.kids, comps[0]).value;
    var j := |cs| - 1 - i;
    assert Shows(t.kids[i], cs[j]);
    if |comps| == 1 {
      c := cs[j];
    } else {
      assert Walk(t, comps) == Walk(t.kids[i], comps[1..]);
      assert FindChild(t.kids[i].kids, comps[1..][0]).Some?;
      assert |t.kids[i].kids| > 0;
      assert GoodNode(cs[j]);
      c := WalkFinds(t.kids[i], cs[j].children, comps[1..]);
    }
  }

  lemma {:induction false} WalkReaches(t: DTree, cs: seq<Node>, comps: seq<Str>, c: Node)
    requires ShowsAll(t.kids, cs) && GoodTree(cs) && Leads(cs, comps, c)
    ensures Walk(t, comps).Some? && Shows(Walk(t, comps).value, c)
    decreases |comps|
  {
    var j :| (
      && 0 <= j < |cs| && cs[j].name == comps[0]
      && if |comps| == 1 then cs[j] == c else cs[j].Dir? && Leads(cs[j].children, comps[1..], c));
    var i := |cs| - 1 - j;
    assert Shows(t.kids[i], cs[j]);
    OnlyChild(t, cs, comps[0], j);
    if |comps| > 1 {
      assert GoodNode(cs[j]);
      WalkReaches(t.kids[i], cs[j].children, comps[1..], c);
    }
  }

  lemma OnlyChild(t: DTree, cs: seq<Node>, name: Str, j: nat)
    requires ShowsAll(t.kids, cs) && GoodTree(cs) && j < |cs| && cs[j].name == name
    ensures FindChild(t.kids, name) == Some(|cs| - 1 - j)
  {
    assert Shows(t.kids[|cs| - 1 - j], cs[j]);
    match FindChild(t.kids, name)
    case None =>
    case Some(i) => assert Shows(t.kids[i], cs[|cs| - 1 - i]);
  }

  /** A path leads to at most one entry of a good tree. */
  lemma {:induction false} LeadsOnce(cs: seq<Node>, comps: seq<Str>, c: Node, d: Node)
    requires GoodTree(cs) && Leads(cs, comps, c) && Leads(cs, comps, d)
    ensures c == d
    decreases |comps|
  {
    var i :| (
      && 0 <= i < |cs| && cs[i].name == comps[0]
      && if |comps| == 1 then cs[i] == c else cs[i].Dir? && Leads(cs[i].children, comps[1..], c));
    var j :| (
      && 0 <= j < |cs| && cs[j].name == comps[0]
      && if |comps| == 1 then cs[j] == d else cs[j].Dir? && Leads(cs[j].children, comps[1..], d));
    assert i == j;
    if |comps| > 1 {
      assert GoodNode(cs[i]);
      LeadsOnce(cs[i].children, comps[1..], c, d);
    }
  }

  /** A tree that makefs can pack: the root's own name is "/". */
  ghost predicate GoodRoot(root: Node) {
    && root.Dir? && root.name == [47] && GoodTree(root.children)
    && 1 + Count(root.children) <= 255 && |Contents(root.children)| <= MAX_DATA
  }

  lemma GoodIsStorable(cs: seq<Node>)
    requires GoodTree(cs)
    ensures Storable(cs)
  {
  }

  /** Pack the tree and read the image back. */
  method PackAndRead(root: Node) returns (device: Dirent)
    requires GoodRoot(root)
    ensures device.Valid() && fresh(device) && fresh(device.Repr) && device.Unmounted()
    ensures ShowsAll(device.tree.kids, root.children)
  {
    hide GoodTree, ShowsAll, ImageOf, StorableNode, Holds;
    RootStorable(root);
    var image := MakeImage(root);
    var initrd := new Initrd(image, root);
    RootShows(image, root);
    device := initrd.rootDirent;
  }

  lemma RootStorable(root: Node)
    requires GoodRoot(root)
    ensures StorableNode(root)
  {
    GoodIsStorable(root.children);
  }

  lemma RootShows(image: Image, root: Node)
    requires GoodRoot(root) && ImageOf(image, root)
    ensures ShowsAll(RootTree(image, root).kids, root.children)
  {
    RootLinked(image, root);
    TreesShow(image, root.children, 1, 0, 0);
  }

  /** "dev" */
  const DEV: Str := [100, 101, 118]

  ghost predicate HasDev(root: Node)
    requires root.Dir?
  {
    exists j :: 0 <= j < |root.children| && root.children[j].name == [100, 101, 118]
  }

  /** The tree of the booted file system: the source tree's, with udev's in the place of the
      entry "dev". */
  ghost predicate Booted(t: DTree, root: Node, udev: DTree)
    requires root.Dir?
  {
    exists s: DTree ::
      ShowsAll(s.kids, root.children) && FindChild(s.kids, DEV).Some? && t == MountAt(s, [DEV], DEV, udev)
  }

  lemma DevPath(path: Str)
    requires path == [SLASH] + DEV
    ensures path[1..] == DEV && Components(path) == [DEV] && ComponentsFit(path[1..]) && NoZero(path)
  {
    JoinSplits([DEV], SLASH);
    assert Join([DEV], SLASH) == DEV;
  }

  lemma DevShown(t: DTree, root: Node)
    requires root.Dir? && ShowsAll(t.kids, root.children)
    ensures FindChild(t.kids, DEV).Some? <==> HasDev(root)
  {
    if HasDev(root) {
      var j :| 0 <= j < |root.children| && root.children[j].name == DEV;
      assert Shows(t.kids[|root.children| - 1 - j], root.children[j]);
    }
    if FindChild(t.kids, DEV).Some? {
      var i := FindChild(t.kids, DEV).value;
      assert Shows(t.kids[i], root.children[|root.children| - 1 - i]);
    }
  }

  /** While nothing was mounted, a mount at "/dev" fails only for want of that entry. */
  lemma DevMounts(d: Dirent)
    requires d.Valid() && d.Unmounted()
    ensures MountFails(d, [SLASH] + DEV) <==> FindChild(d.tree.kids, DEV).None?
  {
    hide Follow;
    DevPath([SLASH] + DEV);
    FollowOne(d, DEV);
  }

  /** `init_fs` (kernel/fs/fs.cpp:13-23) on the image of a tree: mount the ram disk at "/", then
      udev at "/dev". */
  method Boot(root: Node, udev: Dirent) returns (r: Outcome<Vfs>)
    requires GoodRoot(root) && udev.Valid() && udev.parent == None
    modifies udev
    ensures r.Halted? <==> !HasDev(root)
    ensures r.Done? ==> fresh(r.value) && r.value.Valid() && r.value.rootDirent != null
    ensures r.Done? ==> Booted(r.value.rootDirent.tree, root, old(udev.tree))
  {
    hide GoodTree, ShowsAll, HasDev, MountAt, MountFails, Walk, Follow, FindChild, Split, ComponentsFit, NoZero;
    var initrd := PackAndRead(root);
    var vfs := new Vfs();
    RootPath();
    var mounted := vfs.MountDevice([SLASH], initrd);
    ghost var shown := vfs.rootDirent.tree;
    DevShown(shown, root);
    DevMounts(vfs.rootDirent);
    DevPath([SLASH] + DEV);
    mounted := vfs.MountDevice([SLASH] + DEV, udev);
    r := if mounted.Halted? then Halted else Done(vfs);
  }

  lemma RootPath()
    ensures NoZero([SLASH]) && ComponentsFit([SLASH][1..])
  {
  }

  /** What a path leads to in the booted file system. */
  lemma BootedWalk(t: DTree, root: Node, udev: DTree, comps: seq<Str>)
    requires GoodRoot(root) && Booted(t, root, udev) && comps != []
    ensures comps[0] == [100, 101, 118] ==> Walk(t, comps) == Walk(udev.(ident := DEV), comps[1..])
    ensures comps[0] != [100, 101, 118] ==> (Walk(t, comps).Some? <==> exists c :: Leads(root.children, comps, c))
    ensures comps[0] != [100, 101, 118] && Walk(t, comps).Some? ==>
              forall c :: Leads(root.children, comps, c) ==> Shows(Walk(t, comps).value, c)
  {
    hide Walk, MountAt, Leads, Shows, ShowsAll;
    var s: DTree :|
      ShowsAll(s.kids, root.children) && FindChild(s.kids, DEV).Some? && t == MountAt(s, [DEV], DEV, udev);
    MountOne(s, DEV, udev, comps);
    if comps[0] != DEV {
      if Walk(s, comps).Some? {
        var c := WalkFinds(s, root.children, comps);
        assert Leads(root.children, comps, c);
      }
      forall c | Leads(root.children, comps, c)
        ensures Walk(t, comps).Some? && Shows(Walk(t, comps).value, c)
      {
        WalkReaches(s, root.children, comps, c);
      }
    }
  }

  /** End to end: in the booted file system a path below "/dev" resolves exactly when its rest
      resolves in udev, and any other path exactly when it leads to an entry of the source
      tree, and to that entry. */
  method Resolve(vfs: Vfs, path: Str, ghost root: Node, ghost udev: DTree) returns (r: Resolved)
    requires GoodRoot(root) && vfs.Valid() && vfs.rootDirent != null && Booted(vfs.rootDirent.tree, root, udev)
    requires path != [] && path[0] == 47 && NoZero(path) && ComponentsFit(path[1..])
    ensures r.Entry? ==> r.dirent.Valid()
    ensures Components(path)[0] == [100, 101, 118] ==>
              match Walk(udev.(ident := [100, 101, 118]), Components(path)[1..])
              case None => r.NotFound?
              case Some(d) => r.Entry? && r.dirent.tree == d
    ensures Components(path)[0] != [100, 101, 118] ==>
              (r.Entry? <==> exists c :: Leads(root.children, Components(path), c))
    ensures Components(path)[0] != [100, 101, 118] && r.Entry? ==>
              forall c :: Leads(root.children, Components(path), c) ==> Shows(r.dirent.tree, c)
  {
    hide Walk, Leads, Shows, Booted, GoodRoot, Split, ComponentsFit;
    var resolved := vfs.ResolvePath(path);
    r := resolved.value;
    BootedWalk(vfs.rootDirent.tree, root, udev, Components(path));
  }

  /** Reading a resolved file at offset 0 delivers the first bytes of the original. */
  method ReadFile(d: Dirent, ghost c: Node, buf: array<Byte>, nbyte: nat) returns (n: nat)
    requires d.Valid() && Shows(d.tree, c) && c.File? && nbyte <= buf.Length
    modifies buf
    ensures n == (if |c.content| < nbyte then |c.content| else nbyte) && buf[..n] == c.content[..n]
    ensures forall i :: n <= i < buf.Length ==> buf[i] == old(buf[i])
  {
    hide Dirent.Valid;
    ghost var i := d.tree.inode;
    assert i == d.inode.value by { InodeOf(d); }
    n := Read(d.inode.value, buf, nbyte, 0);
    FilePrefix(i.fileData, i.data, |c.content|, n);
  }

  lemma InodeOf(d: Dirent)
    requires d.Valid()
    ensures d.inode == Some(d.tree.inode)
  {
  }

  lemma FilePrefix(s: seq<Byte>, a: nat, len: nat, n: nat)
    requires n <= len && a + len <= |s|
    ensures s[a..a + len][..n] == s[a..a + n]
  {
  }

  /** What a read at an offset should deliver. */
  function Wanted(content: seq<Byte>, nbyte: nat, offset: nat): seq<Byte> {
    var from := if offset < |content| then offset else |content|;
    var to := if offset + nbyte < |content| then offset + nbyte else |content|;
    content[from..to]
  }

  /** How many bytes `rdfs_inode::read` copies: its bound does not know the offset. */
  function CountOf(inode: Inode, nbyte: nat): nat { if inode.size < nbyte then inode.size else nbyte }

  /** The bytes it copies, as far as the image reaches. */
  function Delivered(inode: Inode, nbyte: nat, offset: nat): seq<Byte>
    requires inode.data + offset + CountOf(inode, nbyte) <= |inode.fileData|
  {
    inode.fileData[inode.data + offset..inode.data + offset + CountOf(inode, nbyte)]
  }

  ghost predicate Contained(inode: Inode, content: seq<Byte>) {
    && inode.size == |content| && inode.data + |content| <= |inode.fileData|
    && inode.fileData[inode.data..inode.data + |content|] == content
  }

  /** The offset is 0, nothing is asked, the file is empty, or the range ends inside it. */
  predicate OffsetFits(content: seq<Byte>, nbyte: nat, offset: nat) {
    offset == 0 || nbyte == 0 || content == [] || offset + nbyte <= |content|
  }

  /** A read delivers what it should exactly when the offset fits: then the bytes are right
      and inside the image whenever there are any, otherwise their number is wrong already. */
  lemma ReadAtOffset(inode: Inode, content: seq<Byte>, nbyte: nat, offset: nat)
    requires Contained(inode, content)
    ensures CountOf(inode, nbyte) == |Wanted(content, nbyte, offset)| <==> OffsetFits(content, nbyte, offset)
    ensures OffsetFits(content, nbyte, offset) && CountOf(inode, nbyte) > 0 ==>
              inode.data + offset + CountOf(inode, nbyte) <= |inode.fileData|
              && Delivered(inode, nbyte, offset) == Wanted(content, nbyte, offset)
  {
    hide Wanted, Delivered;
    WantedLength(content, nbyte, offset);
    if OffsetFits(content, nbyte, offset) && CountOf(inode, nbyte) > 0 {
      RightBytes(inode, content, nbyte, offset);
    }
  }

  lemma WantedLength(content: seq<Byte>, nbyte: nat, offset: nat)
    ensures |Wanted(content, nbyte, offset)|
         == if |content| <= offset then 0 else if offset + nbyte < |content| then nbyte else |content| - offset
  {
  }

  lemma RightBytes(inode: Inode, content: seq<Byte>, nbyte: nat, offset: nat)
    requires Contained(inode, content) && OffsetFits(content, nbyte, offset) && CountOf(inode, nbyte) > 0
    ensures inode.data + offset + CountOf(inode, nbyte) <= |inode.fileData|
    ensures Delivered(inode, nbyte, offset) == Wanted(content, nbyte, offset)
  {
    hide Wanted;
    var n := CountOf(inode, nbyte);
    assert offset + n <= |content|;
    SliceOfSlice(inode.fileData, inode.data, |content|, offset, n);
    WantedIs(content, nbyte, offset, n);
  }

  lemma WantedIs(content: seq<Byte>, nbyte: nat, offset: nat, n: nat)
    requires n == (if |content| < nbyte then |content| else nbyte) && 0 < n && offset + n <= |content|
    requires OffsetFits(content, nbyte, offset)
    ensures Wanted(content, nbyte, offset) == content[offset..offset + n]
  {
  }

  /** Reading two bytes from offset 1 of a two-byte file also delivers what follows the file. */
  lemma OffsetReadsOn()
    ensures var inode := Inode(1, 0x81a4, 0, 0, 2, false, [7, 8, 9], 0);
            Delivered(inode, 2, 1) == [8, 9] && Wanted([7, 8], 2, 1) == [8]
  {
  }

  lemma SliceOfSlice(s: seq<Byte>, a: nat, len: nat, from: nat, n: nat)
    requires a + len <= |s| && from + n <= len
    ensures s[a..a + len][from..from + n] == s[a + from..a + from + n]
  {
    var l, r := s[a..a + len][from..from + n], s[a + from..a + from + n];
    assert forall i :: 0 <= i < n ==> l[i] == s[a..a + len][from + i];
    assert forall i :: 0 <= i < n ==> r[i] == s[a + from + i];
  }
}
