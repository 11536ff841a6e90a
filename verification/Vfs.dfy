/** The virtual file system (kernel/fs/vfs.cpp). */
module VirtualFileSystem {
  import opened Wrappers
  import opened Memory
  import opened CStrings
  import opened Paths
  import opened FileSystem

  const BUF_SIZE: nat := 0xff

  /** Every component of the path fits the scan buffer. */
  predicate ComponentsFit(path: Str) {
    forall i :: 0 <= i < |Split(path, SLASH)| ==> |Split(path, SLASH)[i]| < 255
  }

  /** The components of an absolute path. */
  function Components(path: Str): (comps: seq<Str>)
    requires path != []
    ensures |comps| > 0
  {
    Split(path[1..], SLASH)
  }

  /** They are the only slash-free pieces that, with a slash between each two, make up what
      follows the leading one. */
  lemma ComponentsMean(path: Str, comps: seq<Str>)
    requires path != [] && comps != []
    ensures comps == Components(path) <==> SepFree(comps, 47) && Join(comps, 47) == path[1..]
  {
    SplitJoins(path[1..], SLASH);
    if SepFree(comps, SLASH) { JoinSplits(comps, SLASH); }
  }

  datatype Resolved = NotFound | Entry(dirent: Dirent)

  /** Following names from entry to entry. */
  ghost function Follow(d: Dirent, comps: seq<Str>): (r: Resolved)
    requires d.Valid()
    reads d, d.Repr
    ensures r.NotFound? <==> Walk(d.tree, comps) == None
    ensures r.Entry? ==> Below(d, r.dirent) && Walk(d.tree, comps) == Some(r.dirent.tree)
    decreases |comps|
  {
    if comps == [] then Entry(d) else
    match FindChild(d.tree.kids, comps[0])
    case None => NotFound
    case Some(i) => Follow(d.children[i], comps[1..])
  }

  /** d is an entry of the tree under `root`. */
  ghost predicate Below(root: Dirent, d: Dirent)
    reads root, root.Repr, d, d.Repr
  {
    d in root.Repr && d.Repr <= root.Repr && d.Valid()
  }

  lemma FollowOne(d: Dirent, name: Str)
    requires d.Valid()
    ensures Follow(d, [name]) == match FindChild(d.tree.kids, name)
                                 case None => NotFound
                                 case Some(i) => Entry(d.children[i])
  {
    match FindChild(d.tree.kids, name)
    case None =>
    case Some(i) => assert [name][1..] == [] && Follow(d.children[i], []) == Entry(d.children[i]);
  }

  lemma {:induction false} FollowSnoc(d: Dirent, comps: seq<Str>, name: Str)
    requires d.Valid()
    ensures Follow(d, comps + [name]) == match Follow(d, comps)
                                         case NotFound => NotFound
                                         case Entry(e) => Follow(e, [name])
    decreases |comps|
  {
    if comps == [] {
      assert comps + [name] == [name];
    } else {
      assert (comps + [name])[1..] == comps[1..] + [name];
      match FindChild(d.tree.kids, comps[0])
      case None =>
      case Some(i) => FollowSnoc(d.children[i], comps[1..], name);
    }
  }

  /** What the scan knows after some bytes: the entry reached and the piece being read. */
  ghost predicate Scanned(root: Dirent, seen: Str, current: Dirent, piece: Str)
    requires root.Valid()
    reads root, root.Repr
  {
    var pieces := Split(seen, SLASH);
    piece == pieces[|pieces| - 1] && Follow(root, pieces[..|pieces| - 1]) == Entry(current)
  }

  lemma ScanStart(root: Dirent)
    requires root.Valid()
    ensures Scanned(root, [], root, [])
  {
  }

  lemma ScanEnd(root: Dirent, seen: Str, current: Dirent, piece: Str)
    requires root.Valid() && Scanned(root, seen, current, piece)
    ensures current.Valid() && Follow(root, Split(seen, SLASH)) == Follow(current, [piece])
  {
    hide Follow;
    var pieces := Split(seen, SLASH);
    assert pieces == pieces[..|pieces| - 1] + [piece];
    FollowSnoc(root, pieces[..|pieces| - 1], piece);
  }

  lemma ScanByte(root: Dirent, path: Str, j: nat, current: Dirent, piece: Str)
    requires root.Valid() && 1 <= j < |path| && path[j] != SLASH && Scanned(root, path[1..j], current, piece)
    ensures Scanned(root, path[1..j + 1], current, piece + [path[j]])
  {
    hide Follow, Split;
    assert path[1..j + 1] == path[1..j] + [path[j]];
    SplitSnoc(path[1..j], path[j], SLASH);
  }

  /** A slash ends the piece: the walk goes on at its child, ... */
  lemma ScanSlash(root: Dirent, path: Str, j: nat, current: Dirent, piece: Str)
    requires root.Valid() && 1 <= j < |path| && path[j] == SLASH && Scanned(root, path[1..j], current, piece)
    ensures current.Valid() && Follow(root, Split(path[1..j], SLASH)) == Follow(current, [piece])
    ensures Follow(current, [piece]).Entry? ==> Scanned(root, path[1..j + 1], Follow(current, [piece]).dirent, [])
  {
    hide Follow, Split;
    assert path[1..j + 1] == path[1..j] + [path[j]];
    SplitSnoc(path[1..j], path[j], SLASH);
    ScanEnd(root, path[1..j], current, piece);
  }

  /** ... or the whole path leads nowhere. */
  lemma ScanFails(root: Dirent, path: Str, j: nat)
    requires root.Valid() && 1 <= j < |path| && path[j] == SLASH && Follow(root, Split(path[1..j], SLASH)).NotFound?
    ensures Follow(root, Split(path[1..], SLASH)).NotFound?
  {
    hide Walk, Follow;
    assert path[1..][..j - 1] == path[1..j];
    SplitGrows(path[1..], j, SLASH);
    WalkPrefix(root.tree, Split(path[1..], SLASH), |Split(path[1..j], SLASH)|);
  }

  /** A finished piece stays. */
  lemma {:induction false} SplitGrows(s: Str, j: nat, sep: Byte)
    requires 0 < j <= |s| && s[j - 1] == sep
    ensures |Split(s[..j - 1], sep)| < |Split(s, sep)|
    ensures Split(s, sep)[..|Split(s[..j - 1], sep)|] == Split(s[..j - 1], sep)
    decreases |s|
  {
    var pieces := Split(s[..j - 1], sep);
    var init := s[..|s| - 1];
    if j == |s| {
      assert Split(s, sep) == pieces + [[]];
    } else {
      assert init[..j - 1] == s[..j - 1];
      SplitGrows(init, j, sep);
    }
  }

  /** When a prefix of the components leads nowhere, neither do all of them. */
  lemma {:induction false} WalkPrefix(t: DTree, comps: seq<Str>, k: nat)
    requires k <= |comps| && Walk(t, comps[..k]) == None
    ensures Walk(t, comps) == None
  {
    if k > 0 {
      assert comps[..k][0] == comps[0] && comps[..k][1..] == comps[1..][..k - 1];
      match FindChild(t.kids, comps[0])
      case None =>
      case Some(i) => WalkPrefix(t.kids[i], comps[1..], k - 1);
    }
  }

  /** The piece being read is no longer than the component it becomes. */
  lemma {:induction false} PieceFits(s: Str, k: nat, sep: Byte)
    requires k <= |s|
    ensures var m := |Split(s[..k], sep)|;
            m <= |Split(s, sep)| && |Split(s[..k], sep)[m - 1]| <= |Split(s, sep)[m - 1]|
    decreases |s|
  {
    if k == |s| {
      assert s[..k] == s;
    } else {
      var init := s[..|s| - 1];
      assert init[..k] == s[..k];
      PieceFits(init, k, sep);
    }
  }

  lemma ScanFits(root: Dirent, path: Str, j: nat, current: Dirent, piece: Str)
    requires root.Valid() && 1 <= j <= |path| && ComponentsFit(path[1..]) && Scanned(root, path[1..j], current, piece)
    ensures |piece| < BUF_SIZE
  {
    PieceFits(path[1..], j - 1, SLASH);
    assert path[1..][..j - 1] == path[1..j];
  }

  class Vfs {
    var rootDirent: Dirent?   // null until a device is mounted at "/"

    ghost predicate Valid()
      reads this, rootDirent, (if rootDirent != null then rootDirent.Repr else {})
    {
      rootDirent != null ==> rootDirent.Valid()
    }

    constructor ()
      ensures Valid() && rootDirent == null
    {
      rootDirent := null;
    }

    /** `resolve_path` (kernel/fs/vfs.cpp:30-54): the scan over the bytes reaches the entry
        that the components of the path lead to. */
    method ResolvePath(path: Str) returns (r: Outcome<Resolved>)
      requires Valid() && rootDirent != null && NoZero(path) && (path != [] ==> ComponentsFit(path[1..]))
      ensures r.Halted? <==> path == [] || path[0] != 47
      ensures r.Done? ==> r.value == Follow(rootDirent, Components(path))
    {
      if path == [] || path[0] != SLASH { return Halted; }
      var buf := new Byte[BUF_SIZE];
      var i: nat := 0;
      var current: Dirent := rootDirent;
      ScanStart(rootDirent);
      for j := 1 to |path|
        invariant Scanning(rootDirent, path, j, current, buf[..], i) && fresh(buf)
      {
        hide *;
        var next;
        next, i := ScanOne(rootDirent, path, j, current, buf, i);
        match next {
          case NotFound => return Done(NotFound);
          case Entry(d) => current := d;
        }
      }
      r := FinishScan(rootDirent, path, current, buf, i);
    }

    /** `mount_device` (kernel/fs/vfs.cpp:9-28). */
    method MountDevice(path: Str, device: Dirent) returns (r: Outcome<()>)
      requires Valid() && device.Valid() && NoZero(path) && (path != [] ==> ComponentsFit(path[1..]))
      requires path != [47] ==> rootDirent != null && device.parent == None && device.Repr !! rootDirent.Repr
      modifies this, device, if rootDirent != null then rootDirent.Repr else {}
      ensures path == [47] ==> r.Done? && Valid() && rootDirent == device && device.Repr == old(device.Repr)
      ensures path == [47] ==>
                device.children == old(device.children) && device.tree == old(device.tree).(ident := path)
      ensures path != [47] ==> rootDirent == old(rootDirent)
      ensures path != [47] ==> (r.Halted? <==> old(MountFails(rootDirent, path)))
      ensures path != [47] && r.Done? ==>
                Valid()
                && rootDirent.tree == MountAt(old(rootDirent.tree), Components(path), path[1..], old(device.tree))
      ensures path != [47] && r.Done? ==>
                (Walk(rootDirent.tree, Components(path)) == Some(old(device.tree).(ident := path[1..]))
                 <==> |Components(path)| == 1)
    {
      hide Walk, MountAt, ComponentsFit, Split, NoZero;
      ghost var tree := device.tree;
      Rename(device, path);
      if path == [SLASH] {
        rootDirent := device;
        device.parent := None;
        return Done(());
      }
      ghost var before := rootDirent.tree;
      r := MountBelow(rootDirent, path, device);
      if r.Done? {
        MountRenames(before, Components(path), path[1..], tree, path[1..]);
        MountReachable(before, path, tree);
      }
    }

    /** `mount_device` away from "/" (kernel/fs/vfs.cpp:16-23). */
    method MountBelow(root: Dirent, path: Str, device: Dirent) returns (r: Outcome<()>)
      requires rootDirent == root && root.Valid() && device.Valid() && device.parent == None && device.Repr !! root.Repr
      requires NoZero(path) && (path != [] ==> ComponentsFit(path[1..]))
      modifies device`ident, device`tree, root.Repr`children, root.Repr`Repr, root.Repr`tree
      ensures r.Halted? <==> old(MountFails(root, path))
      ensures r.Done? ==> path != [] && Walk(old(root.tree), Components(path)).Some?
      ensures r.Done? ==> root.Valid()
      ensures r.Done? ==> root.tree
                          == MountAt(old(root.tree), Components(path), path[1..], old(device.tree).(ident := path[1..]))
    {
      hide Walk, Split, MountAt, ComponentsFit, NoZero, Follow;
      var resolved := ResolvePath(path);
      if resolved.Halted? || resolved.value.NotFound? { return Halted; }
      var dirent := resolved.value.dirent;
      Rename(device, path[1..]);
      if dirent.parent == None { return Halted; }
      var parent := dirent.parent.value;
      ParentFound(root, Components(path), dirent);
      var slot := parent.GetChild(dirent.ident);
      Hang(root, Components(path), parent, slot.value, device);
      r := Done(());
    }
  }

  /** The path is not absolute, names nothing, or names an entry without a parent, which is
      the root of a device mounted there before. */
  ghost predicate MountFails(root: Dirent, path: Str)
    requires root.Valid()
    reads root, root.Repr
  {
    || path == [] || path[0] != 47
    || match Follow(root, Components(path))
       case NotFound => true
       case Entry(d) => d.parent == None
  }

  /** parent is the entry above the one that the names lead to, which is its child i. */
  ghost predicate IsParent(root: Dirent, comps: seq<Str>, parent: Dirent, i: nat)
    requires root.Valid() && |comps| > 0
    reads root, root.Repr
  {
    && Follow(root, comps[..|comps| - 1]) == Entry(parent)
    && FindChild(parent.tree.kids, comps[|comps| - 1]) == Some(i)
  }

  /** The entry that the names lead to knows where it hangs, and its name is the last one. */
  lemma ParentFound(root: Dirent, comps: seq<Str>, d: Dirent)
    requires root.Valid() && |comps| > 0 && Follow(root, comps) == Entry(d) && d.parent != None
    ensures d.parent.value != null && Below(root, d.parent.value)
    ensures var parent := d.parent.value;
            FindChild(parent.tree.kids, d.ident).Some?
            && IsParent(root, comps, parent, FindChild(parent.tree.kids, d.ident).value)
  {
    hide Follow;
    var init, last := comps[..|comps| - 1], comps[|comps| - 1];
    assert comps == init + [last];
    FollowSnoc(root, init, last);
    var parent := Follow(root, init).dirent;
    FollowOne(parent, last);
    assert d == parent.children[FindChild(parent.tree.kids, last).value];
  }

  /** `device->ident = name` */
  method Rename(device: Dirent, name: Str)
    requires device.Valid()
    modifies device`ident, device`tree
    ensures device.Valid() && device.tree == old(device.tree).(ident := name)
  {
    device.ident := name;
    device.tree := device.tree.(ident := name);
    assert forall i :: 0 <= i < |device.children| ==> device.children[i].Valid();
  }

  // ---------- Mending the proof state along a path ----------

  /** A child of d is in order. */
  ghost predicate Side(d: Dirent, kid: Dirent, t: DTree)
    reads d`Repr, kid, kid.Repr
  {
    && kid in d.Repr && kid in kid.Repr && kid.Repr <= d.Repr && d !in kid.Repr
    && kid.tree == t && (kid.parent == Some(d) || kid.parent == None) && kid.Valid()
  }

  /** The children of d other than child i are in order, and do not contain `parent`. */
  ghost predicate Sides(d: Dirent, kids: seq<Dirent>, i: nat, parent: Dirent)
    reads d`Repr, d.Repr - {parent}
    reads parent`Repr, parent`tree, parent`ident, parent`inode, parent`inodeId, parent`parent
  {
    && d in d.Repr && |kids| == |d.tree.kids|
    && (forall j :: 0 <= j < |kids| && j != i ==>
          && kids[j] in d.Repr && kids[j] != parent
          && kids[j] in kids[j].Repr && kids[j].Repr <= d.Repr && parent !in kids[j].Repr
          && Side(d, kids[j], d.tree.kids[j]))
    && forall j, l :: 0 <= j < l < |kids| && j != i && l != i ==> kids[j].Repr !! kids[l].Repr
  }

  /** Child i leads on to `parent`. */
  ghost predicate Inner(d: Dirent, i: nat, parent: Dirent)
    reads d`Repr, d.Repr - {parent}, parent`Repr, parent`tree, parent`parent
  {
    && d in d.Repr && d != parent && i < |d.children| == |d.tree.kids|
    && var c := d.children[i];
    && c in d.Repr && c.Repr <= d.Repr && d !in c.Repr
    && c.tree == d.tree.kids[i] && (c.parent == Some(d) || c.parent == None)
    && (forall j :: 0 <= j < |d.children| && j != i ==> d.children[j] in d.Repr && d.children[j] != parent)
    && forall j :: 0 <= j < |d.children| && j != i ==> d.children[j].Repr !! c.Repr
  }

  /** d is as valid as before the device took its place in `kids`, the new children of
      `parent`, to which all but the last of the names lead. The predicate does not read the
      children of `parent`, so it survives the assignment. */
  ghost predicate Torn(d: Dirent, comps: seq<Str>, parent: Dirent, kids: seq<Dirent>, device: Dirent)
    requires |comps| > 0
    reads d`Repr, d.Repr - {parent}
    reads parent`Repr, parent`tree, parent`ident, parent`inode, parent`inodeId, parent`parent
    decreases |comps|
  {
    && d in d.Repr
    && d.inode == Some(d.tree.inode) && d.inodeId == d.tree.inode.id && d.ident == d.tree.ident
    && FindChild(d.tree.kids, comps[0]).Some?
    && var i := FindChild(d.tree.kids, comps[0]).value;
       if |comps| == 1 then d == parent && Sides(d, kids, i, parent) && kids[i] == device
       else Inner(d, i, parent) && Sides(d, d.children, i, parent)
            && Torn(d.children[i], comps[1..], parent, kids, device)
  }

  lemma SidesReady(d: Dirent, i: nat, parent: Dirent)
    requires d.Valid() && i < |d.children| && (d == parent || parent in d.children[i].Repr)
    ensures Sides(d, d.children, i, parent)
    ensures d != parent ==> Inner(d, i, parent)
  {
    forall j | 0 <= j < |d.children| && j != i
      ensures parent !in d.children[j].Repr && d.children[j].Repr !! d.children[i].Repr
    {
    }
  }

  lemma {:induction false} TornReady(d: Dirent, comps: seq<Str>, parent: Dirent, k: nat, device: Dirent)
    requires d.Valid() && |comps| > 0 && IsParent(d, comps, parent, k) && k < |parent.children|
    ensures Torn(d, comps, parent, parent.children[k := device], device)
    decreases |comps|
  {
    var init := comps[..|comps| - 1];
    if |comps| == 1 {
      assert Follow(d, init) == Entry(d);
      SidesReady(d, k, parent);
      SidesSame(d, d.children, k, parent, device);
    } else {
      var i := FindChild(d.tree.kids, comps[0]).value;
      assert init[1..] == comps[1..][..|comps[1..]| - 1];
      TornReady(d.children[i], comps[1..], parent, k, device);
      SidesReady(d, i, parent);
    }
  }

  lemma SidesSame(d: Dirent, kids: seq<Dirent>, i: nat, parent: Dirent, device: Dirent)
    requires Sides(d, kids, i, parent) && i < |kids|
    ensures Sides(d, kids[i := device], i, parent)
  {
  }

  /** Bring the trees and the footprints along the path up to date. */
  ghost method Mend(d: Dirent, comps: seq<Str>, parent: Dirent, device: Dirent)
    requires |comps| > 0 && Torn(d, comps, parent, parent.children, device)
    requires device.Valid() && device.parent == None && device.Repr !! d.Repr
    modifies d.Repr`Repr, d.Repr`tree
    ensures d.Valid() && d.Repr == old(d.Repr) + device.Repr
    ensures d.tree == MountAt(old(d.tree), comps, device.ident, device.tree)
    decreases |comps|
  {
    hide Side, MountAt;
    var i := FindChild(d.tree.kids, comps[0]).value;
    MountStep(d.tree, comps, device.ident, device.tree);
    if |comps| > 1 {
      ghost var c := d.children[i];
      Mend(c, comps[1..], parent, device);
      forall j | 0 <= j < |d.children| && j != i
        ensures Side(d, d.children[j], d.tree.kids[j]) && d.children[j].Repr !! c.Repr
      {
        assert old(d.children[j].Repr !! c.Repr && d.children[j] in d.children[j].Repr);
        assert old(Side(d, d.children[j], d.tree.kids[j]));
      }
    } else {
      forall j | 0 <= j < |d.children| && j != i
        ensures Side(d, d.children[j], d.tree.kids[j]) && d.children[j].Repr !! d.children[i].Repr
      {
      }
    }
    MendHere(d, i, device);
  }

  /** `parent->get_child_iter(name).value().p->value = device` */
  method Hang(ghost root: Dirent, ghost comps: seq<Str>, parent: Dirent, k: nat, device: Dirent)
    requires root.Valid() && |comps| > 0 && IsParent(root, comps, parent, k) && Below(root, parent)
    requires device.Valid() && device.parent == None && device.Repr !! root.Repr
    modifies parent`children, root.Repr`Repr, root.Repr`tree
    ensures root.Valid() && root.Repr == old(root.Repr) + device.Repr
    ensures root.tree == MountAt(old(root.tree), comps, device.ident, device.tree)
  {
    hide Torn, MountAt, Follow;
    TornReady(root, comps, parent, k, device);
    parent.children := parent.children[k := device];
    Mend(root, comps, parent, device);
  }

  lemma MountStep(t: DTree, comps: seq<Str>, ident: Str, device: DTree)
    requires |comps| > 0 && FindChild(t.kids, comps[0]).Some?
    ensures var i := FindChild(t.kids, comps[0]).value;
            MountAt(t, comps, ident, device)
            == t.(kids := t.kids[i := if |comps| == 1 then device.(ident := ident)
                                      else MountAt(t.kids[i], comps[1..], ident, device)])
  {
  }

  /** One entry takes over the new child i. */
  ghost method MendHere(d: Dirent, i: nat, device: Dirent)
    requires d in d.Repr && i < |d.children| == |d.tree.kids| && d !in device.Repr
    requires d.inode == Some(d.tree.inode) && d.inodeId == d.tree.inode.id && d.ident == d.tree.ident
    requires forall j :: 0 <= j < |d.children| && j != i ==> Side(d, d.children[j], d.tree.kids[j])
    requires forall j, l :: 0 <= j < l < |d.children| ==> d.children[j].Repr !! d.children[l].Repr
    requires d.children[i].Valid() && d.children[i].Repr <= d.Repr + device.Repr && d !in d.children[i].Repr
    requires d.children[i].parent == Some(d) || d.children[i].parent == None
    modifies d`Repr, d`tree
    ensures d.Valid() && d.Repr == old(d.Repr) + device.Repr
    ensures d.tree == old(d.tree).(kids := old(d.tree).kids[i := old(d.children[i].tree)])
  {
    d.Repr := d.Repr + device.Repr;
    d.tree := d.tree.(kids := d.tree.kids[i := d.children[i].tree]);
    forall j | 0 <= j < |d.children|
      ensures d.children[j].Valid() && d.children[j].Repr <= d.Repr && d !in d.children[j].Repr
    {
    }
  }

  /** The mounted root is renamed, so its old name does not matter. */
  lemma {:induction false} MountRenames(t: DTree, comps: seq<Str>, ident: Str, device: DTree, name: Str)
    requires |comps| > 0
    ensures MountAt(t, comps, ident, device.(ident := name)) == MountAt(t, comps, ident, device)
  {
    match FindChild(t.kids, comps[0])
    case None =>
    case Some(i) => if |comps| > 1 { MountRenames(t.kids[i], comps[1..], ident, device, name); }
  }

  /** What mounting a device with the given identifier makes of a tree. */
  function MountAt(t: DTree, comps: seq<Str>, ident: Str, device: DTree): DTree
    requires |comps| > 0
  {
    match FindChild(t.kids, comps[0])
    case None => t
    case Some(i) =>
      var kid := if |comps| == 1 then device.(ident := ident) else MountAt(t.kids[i], comps[1..], ident, device);
      t.(kids := t.kids[i := kid])
  }

  /** The state of the scan loop before byte j: the entry reached, and i bytes of the piece
      in the buffer. */
  ghost predicate Scanning(root: Dirent, path: Str, j: nat, current: Dirent, buf: seq<Byte>, i: nat)
    requires 1 <= j <= |path|
    reads root, root.Repr
  {
    && |buf| == BUF_SIZE && i < BUF_SIZE && NoZero(buf[..i])
    && NoZero(path) && ComponentsFit(path[1..])
    && root.Valid() && Scanned(root, path[1..j], current, buf[..i])
  }

  /** The last component (kernel/fs/vfs.cpp:52-53). */
  method FinishScan(root: Dirent, path: Str, current: Dirent, buf: array<Byte>, i: nat) returns (r: Outcome<Resolved>)
    requires 1 <= |path| && Scanning(root, path, |path|, current, buf[..], i)
    modifies buf
    ensures r == Done(Follow(root, Components(path)))
  {
    hide Walk, Scanned, Split, ComponentsFit, Follow;
    ghost var piece := buf[..i];
    assert buf[..][..i] == piece && path[1..|path|] == path[1..];
    ScanEnd(root, path[1..], current, piece);
    var last := EndOfPiece(current, buf, i);
    r := Done(last);
  }

  /** One round of the loop of `resolve_path` (kernel/fs/vfs.cpp:39-49). */
  method ScanOne(root: Dirent, path: Str, j: nat, current: Dirent, buf: array<Byte>, i: nat) returns (next: Resolved,
                 i': nat)
    requires 1 <= j < |path| && Scanning(root, path, j, current, buf[..], i)
    modifies buf
    ensures next.NotFound? ==> Follow(root, Components(path)).NotFound?
    ensures next.Entry? ==> Scanning(root, path, j + 1, next.dirent, buf[..], i')
  {
    hide Walk, Scanned, Split, ComponentsFit, Follow;
    ghost var piece := buf[..i];
    assert buf[..][..i] == piece;
    ScanEnd(root, path[1..j], current, piece);
    if path[j] == SLASH {
      next := EndOfPiece(current, buf, i);
      ScanSlash(root, path, j, current, piece);
      if next.NotFound? {
        ScanFails(root, path, j);
      }
      i' := 0;
    } else {
      ScanByte(root, path, j, current, piece);
      ScanFits(root, path, j + 1, current, piece + [path[j]]);
      buf[i] := path[j];
      i' := i + 1;
      assert buf[..i'] == piece + [path[j]];
      next := Entry(current);
    }
  }

  /** Terminate the buffer and look the name up (kernel/fs/vfs.cpp:40-41, 52-53). */
  method EndOfPiece(current: Dirent, buf: array<Byte>, i: nat) returns (r: Resolved)
    requires current.Valid() && i < buf.Length && NoZero(buf[..i])
    modifies buf
    ensures buf[..i] == old(buf[..i]) && r == Follow(current, [buf[..i]])
  {
    hide Follow;
    buf[i] := 0;
    CStringReads(buf[..i], buf[i + 1..]);
    assert buf[..] == buf[..i] + [0] + buf[i + 1..];
    r := NextEntry(current, CString(buf[..]));
  }

  /** `current->get_child(buf)` */
  method NextEntry(current: Dirent, name: Str) returns (r: Resolved)
    requires current.Valid()
    ensures r == Follow(current, [name])
  {
    FollowOne(current, name);
    var k := current.GetChild(name);
    match k
    case None => r := NotFound;
    case Some(i) => r := Entry(current.children[i]);
  }

  // ---------- What a mount changes ----------

  /** Lookup only depends on the names. */
  lemma {:induction false} FindSameIdents(a: seq<DTree>, b: seq<DTree>, name: Str)
    requires |a| == |b| && forall i :: 0 <= i < |a| ==> a[i].ident == b[i].ident
    ensures FindChild(a, name) == FindChild(b, name)
  {
  }

  /** After a mount at an existing one-component path, every path through that component
      resolves in the device's tree and every other path resolves as before. */
  lemma MountOne(t: DTree, name: Str, device: DTree, q: seq<Str>)
    requires FindChild(t.kids, name).Some? && q != []
    ensures Walk(MountAt(t, [name], name, device), q) ==
              if q[0] == name then Walk(device.(ident := name), q[1..]) else Walk(t, q)
  {
    hide Walk, MountAt, FindChild;
    var r := MountAt(t, [name], name, device);
    MountStep(t, [name], name, device);
    FindSameIdents(t.kids, r.kids, q[0]);
    WalkStep(t, q);
    WalkStep(r, q);
  }

  /** An identifier with a slash in it is never found. */
  lemma {:induction false} MountHidden(t: DTree, comps: seq<Str>, ident: Str, device: DTree)
    requires |comps| > 0 && SepFree(comps, SLASH) && SLASH in ident && Walk(t, comps).Some?
    ensures Walk(MountAt(t, comps, ident, device), comps) != Some(device.(ident := ident))
  {
    var r := MountAt(t, comps, ident, device);
    var i := FindChild(t.kids, comps[0]).value;
    if |comps| == 1 {
      assert comps[0] != ident;
      match FindChild(r.kids, comps[0])
      case None =>
      case Some(j) => assert Walk(r, comps) == Some(r.kids[j]);
    } else {
      assert SepFree(comps[1..], SLASH);
      MountHidden(t.kids[i], comps[1..], ident, device);
      FindSameIdents(t.kids, r.kids, comps[0]);
    }
  }

  /** The identifier given to a mounted root is the whole path behind the first slash, so the
      path leads to the device exactly when it has one component. */
  lemma MountReachable(t: DTree, path: Str, device: DTree)
    requires path != [] && Walk(t, Components(path)).Some?
    ensures Walk(MountAt(t, Components(path), path[1..], device), Components(path)) == Some(device.(ident := path[1..]))
            <==> |Components(path)| == 1
  {
    var comps := Components(path);
    SplitJoins(path[1..], SLASH);
    if |comps| == 1 {
      MountOne(t, comps[0], device, comps);
    } else {
      assert path[1..] == Join(comps[..|comps| - 1], SLASH) + [SLASH] + comps[|comps| - 1];
      MountHidden(t, comps, path[1..], device);
    }
  }

  lemma OneStep(t: DTree, name: Str)
    ensures Walk(t, [name]) == match FindChild(t.kids, name) case None => None case Some(k) => Some(t.kids[k])
  {
  }

  lemma WalkStep(t: DTree, q: seq<Str>)
    requires q != []
    ensures Walk(t, q) == match FindChild(t.kids, q[0])
                          case None => None
                          case Some(i) => Walk(t.kids[i], q[1..])
  {
  }

  lemma WalkTwo(t: DTree, a: Str, b: Str)
    ensures Walk(t, [a, b]) == match FindChild(t.kids, a)
                               case None => None
                               case Some(i) => Walk(t.kids[i], [b])
  {
    assert [a, b][1..] == [b];
  }

  /** After a device was mounted at "/a/b", that path leads nowhere. */
  lemma DeepMountLost(t: DTree, inode: Inode, device: DTree)
    requires t == DTree([SLASH], inode, [DTree([97], inode, [DTree([98], inode, [])])])
    ensures Components([SLASH, 97, SLASH, 98]) == [[97], [98]]
    ensures Walk(t, [[97], [98]]) == Some(DTree([98], inode, []))
    ensures Walk(MountAt(t, [[97], [98]], [97, SLASH, 98], device), [[97], [98]]) == None
  {
    hide Walk, Split;
    JoinSplits([[97], [98]], SLASH);
    assert Join([[97], [98]], SLASH) == [97, SLASH, 98] == [SLASH, 97, SLASH, 98][1..];
    WalkTwo(t, [97], [98]);
    OneStep(t.kids[0], [98]);
    var r := MountAt(t, [[97], [98]], [97, SLASH, 98], device);
    assert [[97], [98]][1..] == [[98]];
    WalkTwo(r, [97], [98]);
    OneStep(r.kids[0], [98]);
  }
}
