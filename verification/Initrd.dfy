/** The ram disk reader (kernel/fs/initrd.cpp): from the tables back to a tree of entries. */
module InitrdDevice {
  import opened Wrappers
  import opened Memory
  import opened CStrings
  import opened SourceTree
  import opened Makefs
  import opened HashMap
  import opened FileSystem

  /** The kernel's `S_ISDIR` (includes/kernel/fs/flags.h:60). */
  predicate IsDirMode(mode: nat) { mode / 0x4000 % 2 == 1 }

  /** The inode that `cache` makes for entry id (kernel/fs/initrd.cpp:44-56). */
  function InodeFrom(image: Image, id: nat): Inode
    requires id < |image.dirents| && image.dirents[id].inodeId < |image.inodes|
  {
    var rd := image.inodes[image.dirents[id].inodeId];
    if IsDirMode(rd.mode) then Inode(rd.id, rd.mode, rd.uid, rd.gid, rd.size, true, [], 0)
    else Inode(rd.id, rd.mode, rd.uid, rd.gid, rd.size, false, image.data, rd.data)
  }

  /** The links of the tables spell the listing cs, its ids from n on. */
  ghost predicate Linked(image: Image, cs: seq<Node>, n: nat)
    decreases cs, 0
  {
    cs == [] || (
      var init, c := cs[..|cs| - 1], cs[|cs| - 1];
      Linked(image, init, n) && LinkedNode(image, c, n + Count(init), LastId(init, n)))
  }

  ghost predicate LinkedNode(image: Image, c: Node, id: nat, sibling: nat)
    decreases c, 1
  {
    && id < |image.dirents| && id < |image.inodes|
    && (var d := image.dirents[id];
        d.inodeId == id && d.sibling == sibling && image.inodes[id].id == id
        && d.firstChild == if c.Dir? then LastId(c.children, id + 1) else 0)
    && (c.Dir? ==> Linked(image, c.children, id + 1))
  }

  /** The trees that the tables spell for a listing, the one written last in front. */
  function Trees(image: Image, cs: seq<Node>, n: nat): (ts: seq<DTree>)
    requires Linked(image, cs, n)
    ensures |ts| == |cs|
    decreases cs, 0
  {
    if cs == [] then [] else
    var init, c := cs[..|cs| - 1], cs[|cs| - 1];
    [TreeFrom(image, c, n + Count(init), LastId(init, n))] + Trees(image, init, n)
  }

  function TreeFrom(image: Image, c: Node, id: nat, ghost sibling: nat): DTree
    requires LinkedNode(image, c, id, sibling)
    decreases c, 1
  {
    DTree(CString(image.dirents[id].name), InodeFrom(image, id),
          if c.Dir? then Trees(image, c.children, id + 1) else [])
  }

  /** The ids in the order in which `cache` meets them: an entry, its siblings, its children. */
  function Visits(cs: seq<Node>, n: nat): seq<nat>
    decreases cs, 0
  {
    if cs == [] then [] else
    var init, c := cs[..|cs| - 1], cs[|cs| - 1];
    var id := n + Count(init);
    [id] + Visits(init, n) + if c.Dir? then Visits(c.children, id + 1) else []
  }

  /** What the inode cache is given for a list of ids. */
  function Entries(image: Image, ids: seq<nat>): seq<(nat, Inode)>
    requires forall i :: 0 <= i < |ids| ==> ids[i] < |image.dirents| && image.dirents[ids[i]].inodeId < |image.inodes|
  {
    seq(|ids|, i requires 0 <= i < |ids| => (InodeFrom(image, ids[i]).id, InodeFrom(image, ids[i])))
  }

  ghost predicate InTables(image: Image, ids: seq<nat>) {
    forall i :: 0 <= i < |ids| ==>
      ids[i] < |image.dirents| && image.dirents[ids[i]].inodeId < |image.inodes|
      && InodeFrom(image, ids[i]).id == ids[i] < WORD
  }

  ghost function Below(ds: seq<Dirent>): set<Dirent>
    reads ds
  {
    set i, d | 0 <= i < |ds| && d in ds[i].Repr :: d
  }

  /** The entries ds are finished and spell the trees ts below `parent`. */
  ghost predicate Spell(ds: seq<Dirent>, ts: seq<DTree>, parent: Option<Dirent?>)
    reads ds, Below(ds)
  {
    && |ds| == |ts| && Apart(ds)
    && forall i :: 0 <= i < |ds| ==> ds[i].Valid() && ds[i].tree == ts[i] && ds[i].parent == parent
  }

  lemma EntriesConcat(image: Image, a: seq<nat>, b: seq<nat>)
    requires InTables(image, a) && InTables(image, b)
    ensures InTables(image, a + b) && Entries(image, a + b) == Entries(image, a) + Entries(image, b)
  {
  }

  /** Make one entry with its inode and let it join its parent (kernel/fs/initrd.cpp:41-64). */
  method NewEntry(image: Image, inodeCache: HashMap<Inode>, parent: Dirent?, i: nat) returns (dir: Dirent)
    requires i < |image.dirents| && image.dirents[i].inodeId < |image.inodes|
    requires InTables(image, [i]) && inodeCache.Valid()
    modifies inodeCache`log, inodeCache.table
    modifies (if parent != null then {parent} else {})`children
    ensures inodeCache.Valid() && inodeCache.log == old(inodeCache.log) + Entries(image, [i])
    ensures fresh(dir) && dir.children == [] && dir.parent == Some(parent)
    ensures dir.ident == CString(image.dirents[i].name)
    ensures dir.inode == Some(InodeFrom(image, i)) && dir.inodeId == InodeFrom(image, i).id
    ensures parent != null ==> parent.children == old(parent.children) + [dir]
  {
    var ids := [i];
    assert InodeFrom(image, ids[0]).id == ids[0] < WORD;
    var rdDirent := image.dirents[i];
    dir := new Dirent(CString(rdDirent.name), Some(parent));
    var inode := InodeFrom(image, i);
    dir.inode := Some(inode);
    dir.inodeId := inode.id;
    inodeCache.Set(inode.id, inode);
    if parent != null {
      parent.AddChild(dir);
    }
  }

  /** An entry whose children are finished is finished. */
  ghost method Seal(dir: Dirent, t: DTree)
    requires Spell(dir.children, t.kids, Some(dir)) && dir !in Below(dir.children)
    requires dir.ident == t.ident && dir.inode == Some(t.inode) && dir.inodeId == t.inode.id
    modifies dir`Repr, dir`tree
    ensures dir.Valid() && dir.tree == t && dir.Repr == {dir} + old(Below(dir.children)) && dir.Unmounted()
  {
    Stamp(dir, t);
    Sealed(dir);
  }

  ghost method Stamp(dir: Dirent, t: DTree)
    requires Spell(dir.children, t.kids, Some(dir)) && dir !in Below(dir.children)
    modifies dir`Repr, dir`tree
    ensures Spell(dir.children, t.kids, Some(dir)) && dir !in Below(dir.children)
    ensures dir.tree == t && dir.Repr == {dir} + Below(dir.children) == {dir} + old(Below(dir.children))
  {
    hide Spell;
    ghost var below := Below(dir.children);
    InBelow(dir.children, t.kids, Some(dir));
    dir.Repr := {dir} + below;
    dir.tree := t;
    assert Below(dir.children) == below;
  }

  lemma Sealed(dir: Dirent)
    requires Spell(dir.children, dir.tree.kids, Some(dir)) && dir !in Below(dir.children)
    requires dir.ident == dir.tree.ident && dir.inode == Some(dir.tree.inode) && dir.inodeId == dir.tree.inode.id
    requires dir.Repr == {dir} + Below(dir.children)
    ensures dir.Valid() && dir.Unmounted()
  {
  }

  lemma BelowCons(dir: Dirent, ds: seq<Dirent>)
    ensures Below([dir] + ds) == dir.Repr + Below(ds)
  {
    var all := [dir] + ds;
    assert all[0] == dir;
    forall d | d in Below(ds) ensures d in Below(all) {
      var i :| 0 <= i < |ds| && d in ds[i].Repr;
      assert all[i + 1] == ds[i];
    }
    assert forall i :: 0 < i < |all| ==> all[i] == ds[i - 1];
  }

  lemma ApartCons(dir: Dirent, ds: seq<Dirent>)
    requires Apart(ds) && dir.Repr !! Below(ds)
    ensures Apart([dir] + ds)
  {
    var all := [dir] + ds;
    forall i, j | 0 <= i < j < |all| ensures all[i].Repr !! all[j].Repr {
      assert ds[j - 1].Repr <= Below(ds);
    }
  }

  lemma SpellCons(dir: Dirent, ds: seq<Dirent>, t: DTree, ts: seq<DTree>, parent: Option<Dirent?>)
    requires dir.Valid() && dir.tree == t && dir.parent == parent && Spell(ds, ts, parent) && dir.Repr !! Below(ds)
    ensures Below([dir] + ds) == dir.Repr + Below(ds)
    ensures Spell([dir] + ds, [t] + ts, parent)
  {
    hide Below, Apart;
    BelowCons(dir, ds);
    ApartCons(dir, ds);
  }

  function ChildrenOf(c: Node): seq<Node> { if c.Dir? then c.children else [] }

  /** `if (id) cache(parent, dirents[id])` (kernel/fs/initrd.cpp:66-72). */
  method CacheList(image: Image, inodeCache: HashMap<Inode>, parent: Dirent?, i: nat, ghost cs: seq<Node>, ghost n: nat)
    returns (ghost kids: seq<Dirent>)
    requires Linked(image, cs, n) && n + Count(cs) <= WORD && (i == 0 <==> cs == [])
    requires i != 0 ==> 0 < n && i == n + Count(cs[..|cs| - 1])
    requires inodeCache.Valid()
    modifies inodeCache`log, inodeCache.table
    modifies (if parent != null then {parent} else {})`children
    ensures inodeCache.Valid()
    ensures InTables(image, Visits(cs, n)) && inodeCache.log == old(inodeCache.log) + Entries(image, Visits(cs, n))
    ensures fresh(Below(kids)) && Spell(kids, Trees(image, cs, n), Some(parent))
    ensures parent != null ==> parent.children == old(parent.children) + kids
    decreases Count(cs), 3
  {
    kids := [];
    if i != 0 {
      var first;
      first, kids := Cache(image, inodeCache, parent, i, cs, n);
    }
  }

  /** `initrd::cache` (kernel/fs/initrd.cpp:39-75): an entry joins its parent, then its
      siblings do, then its own children are made. */
  method Cache(image: Image, inodeCache: HashMap<Inode>, parent: Dirent?, i: nat, ghost cs: seq<Node>, ghost n: nat)
    returns (dir: Dirent, ghost kids: seq<Dirent>)
    requires cs != [] && (0 < n || |cs| == 1) && Linked(image, cs, n) && i == n + Count(cs[..|cs| - 1])
    requires n + Count(cs) <= WORD
    requires inodeCache.Valid()
    modifies inodeCache`log, inodeCache.table
    modifies (if parent != null then {parent} else {})`children
    ensures inodeCache.Valid()
    ensures InTables(image, Visits(cs, n)) && inodeCache.log == old(inodeCache.log) + Entries(image, Visits(cs, n))
    ensures |kids| == |cs| && kids[0] == dir && fresh(Below(kids)) && dir.Unmounted()
    ensures Spell(kids, Trees(image, cs, n), Some(parent))
    ensures parent != null ==> parent.children == old(parent.children) + kids
    decreases Count(cs), 2
  {
    hide Linked, LinkedNode, Spell, Trees, InodeFrom, Count, InTables, Entries, Visits, LastId;
    ghost var siblings;
    dir, siblings := CacheSiblings(image, inodeCache, parent, i, cs, n);
    CacheChildren(image, inodeCache, dir, i, cs, n);
    CacheParts(image, cs, n, i);
    SpellAll(image, dir, siblings, parent, i, cs, n);
    kids := [dir] + siblings;
  }

  lemma SpellAll(image: Image, dir: Dirent, siblings: seq<Dirent>, parent: Dirent?, i: nat, cs: seq<Node>, n: nat)
    requires cs != [] && Linked(image, cs, n) && i == n + Count(cs[..|cs| - 1]) && Linked(image, cs[..|cs| - 1], n)
    requires dir.Valid() && dir.tree == Trees(image, cs, n)[0] && dir.parent == Some(parent)
    requires Spell(siblings, Trees(image, cs[..|cs| - 1], n), Some(parent)) && dir.Repr !! Below(siblings)
    ensures Below([dir] + siblings) == dir.Repr + Below(siblings)
    ensures Spell([dir] + siblings, Trees(image, cs, n), Some(parent)) && |siblings| + 1 == |cs|
  {
    hide Linked, InodeFrom, Count, Apart, Below;
    TreeParts(image, cs, n, i);
    SpellCons(dir, siblings, Trees(image, cs, n)[0], Trees(image, cs[..|cs| - 1], n), Some(parent));
  }

  /** Entry i and its siblings (kernel/fs/initrd.cpp:41-68). */
  method CacheSiblings(image: Image, inodeCache: HashMap<Inode>, parent: Dirent?, i: nat, ghost cs: seq<Node>,
                       ghost n: nat)
    returns (dir: Dirent, ghost siblings: seq<Dirent>)
    requires cs != [] && (0 < n || |cs| == 1) && Linked(image, cs, n) && i == n + Count(cs[..|cs| - 1])
    requires n + Count(cs) <= WORD && inodeCache.Valid()
    modifies inodeCache`log, inodeCache.table
    modifies (if parent != null then {parent} else {})`children
    ensures inodeCache.Valid()
    ensures InTables(image, [i]) && InTables(image, Visits(cs[..|cs| - 1], n))
    ensures inodeCache.log == old(inodeCache.log) + Entries(image, [i]) + Entries(image, Visits(cs[..|cs| - 1], n))
    ensures fresh(dir) && dir.children == [] && dir.parent == Some(parent)
    ensures i < |image.dirents| && image.dirents[i].inodeId < |image.inodes|
    ensures dir.ident == CString(image.dirents[i].name)
    ensures dir.inode == Some(InodeFrom(image, i)) && dir.inodeId == InodeFrom(image, i).id
    ensures Linked(image, cs[..|cs| - 1], n) && Spell(siblings, Trees(image, cs[..|cs| - 1], n), Some(parent))
    ensures fresh(Below(siblings)) && dir !in Below(siblings) && dir !in siblings
    ensures parent != null ==> parent.children == old(parent.children) + ([dir] + siblings)
    decreases Count(cs), 1
  {
    hide Linked, LinkedNode, Spell, Trees, InodeFrom, Count, InTables, Entries, Visits, LastId;
    ghost var init := cs[..|cs| - 1];
    CacheLinks(image, cs, n, i);
    dir := NewEntry(image, inodeCache, parent, i);
    siblings := CacheList(image, inodeCache, parent, image.dirents[i].sibling, init, n);
    assert dir !in Below(siblings);
    InBelow(siblings, Trees(image, init, n), Some(parent));
  }

  /** The children of entry i (kernel/fs/initrd.cpp:70-72), which finish it. */
  method CacheChildren(image: Image, inodeCache: HashMap<Inode>, dir: Dirent, i: nat, ghost cs: seq<Node>, ghost n: nat)
    requires cs != [] && (0 < n || |cs| == 1) && Linked(image, cs, n) && i == n + Count(cs[..|cs| - 1])
    requires n + Count(cs) <= WORD && inodeCache.Valid()
    requires i < |image.dirents| && image.dirents[i].inodeId < |image.inodes|
    requires dir.ident == CString(image.dirents[i].name) && dir.children == []
    requires dir.inode == Some(InodeFrom(image, i)) && dir.inodeId == InodeFrom(image, i).id
    modifies inodeCache`log, inodeCache.table, dir`children, dir`Repr, dir`tree
    ensures inodeCache.Valid()
    ensures var below := Visits(ChildrenOf(cs[|cs| - 1]), i + 1);
            InTables(image, below) && inodeCache.log == old(inodeCache.log) + Entries(image, below)
    ensures dir.Valid() && dir.tree == Trees(image, cs, n)[0] && fresh(dir.Repr - {dir}) && dir.Unmounted()
    decreases Count(cs), 0
  {
    hide *;
    CacheLinks(image, cs, n, i);
    var firstChild := image.dirents[i].firstChild;
    ghost var children := CacheList(image, inodeCache, dir, firstChild, ChildrenOf(cs[|cs| - 1]), i + 1);
    assert dir !in Below(children) && dir.children == children;
    SealEntry(image, dir, i, cs, n);
  }

  ghost method SealEntry(image: Image, dir: Dirent, i: nat, cs: seq<Node>, n: nat)
    requires cs != [] && Linked(image, cs, n) && i == n + Count(cs[..|cs| - 1])
    requires i < |image.dirents| && image.dirents[i].inodeId < |image.inodes|
    requires Linked(image, ChildrenOf(cs[|cs| - 1]), i + 1)
    requires Spell(dir.children, Trees(image, ChildrenOf(cs[|cs| - 1]), i + 1), Some(dir))
    requires dir !in Below(dir.children)
    requires dir.ident == CString(image.dirents[i].name)
    requires dir.inode == Some(InodeFrom(image, i)) && dir.inodeId == InodeFrom(image, i).id
    modifies dir`Repr, dir`tree
    ensures dir.Valid() && dir.tree == Trees(image, cs, n)[0]
    ensures dir.Repr == {dir} + old(Below(dir.children)) && dir.Unmounted()
  {
    hide Linked, Spell, InodeFrom, Count;
    TreeParts(image, cs, n, i);
    Seal(dir, Trees(image, cs, n)[0]);
  }

  lemma InBelow(ds: seq<Dirent>, ts: seq<DTree>, parent: Option<Dirent?>)
    requires Spell(ds, ts, parent)
    ensures forall d :: d in ds ==> d in Below(ds)
  {
  }

  lemma TreeParts(image: Image, cs: seq<Node>, n: nat, i: nat)
    requires cs != [] && Linked(image, cs, n) && i == n + Count(cs[..|cs| - 1])
    ensures var init, c := cs[..|cs| - 1], cs[|cs| - 1];
            && Linked(image, init, n) && Linked(image, ChildrenOf(c), i + 1)
            && i < |image.dirents| && image.dirents[i].inodeId < |image.inodes|
            && (var t := Trees(image, cs, n)[0];
                && Trees(image, cs, n) == [t] + Trees(image, init, n)
                && t.ident == CString(image.dirents[i].name) && t.inode == InodeFrom(image, i)
                && t.kids == Trees(image, ChildrenOf(c), i + 1))
  {
  }

  lemma VisitsParts(cs: seq<Node>, n: nat, i: nat)
    requires cs != [] && i == n + Count(cs[..|cs| - 1])
    ensures Visits(cs, n) == [i] + Visits(cs[..|cs| - 1], n) + Visits(ChildrenOf(cs[|cs| - 1]), i + 1)
  {
    hide Count;
    var init, c := cs[..|cs| - 1], cs[|cs| - 1];
    if !c.Dir? {
      assert ChildrenOf(c) == [];
      assert Visits([], i + 1) == [];
    }
  }

  /** The visits of a listing are its last entry, the listing before it, and its children. */
  lemma CacheParts(image: Image, cs: seq<Node>, n: nat, i: nat)
    requires cs != [] && i == n + Count(cs[..|cs| - 1])
    requires var init, c := cs[..|cs| - 1], cs[|cs| - 1];
          && InTables(image, [i]) && InTables(image, Visits(init, n)) && InTables(image, Visits(ChildrenOf(c), i + 1))
    ensures var init, c := cs[..|cs| - 1], cs[|cs| - 1];
            && InTables(image, Visits(cs, n))
            && Entries(image, Visits(cs, n))
               == Entries(image, [i]) + Entries(image, Visits(init, n)) + Entries(image, Visits(ChildrenOf(c), i + 1))
  {
    hide InTables, Entries, Visits, Count;
    var init, c := cs[..|cs| - 1], cs[|cs| - 1];
    VisitsParts(cs, n, i);
    EntriesConcat(image, [i], Visits(init, n));
    EntriesConcat(image, [i] + Visits(init, n), Visits(ChildrenOf(c), i + 1));
  }

  /** Where the links of entry i lead. */
  lemma CacheLinks(image: Image, cs: seq<Node>, n: nat, i: nat)
    requires cs != [] && (0 < n || |cs| == 1) && Linked(image, cs, n) && i == n + Count(cs[..|cs| - 1])
    requires n + Count(cs) <= WORD
    ensures var init, c := cs[..|cs| - 1], cs[|cs| - 1]; i < |image.dirents| && var d := image.dirents[i];
            && d.inodeId < |image.inodes| && InTables(image, [i])
            && Linked(image, init, n) && n + Count(init) <= WORD
            && Count(init) < Count(cs) && Count(ChildrenOf(c)) < Count(cs)
            && (d.sibling == 0 <==> init == [])
            && (d.sibling != 0 ==> 0 < n && d.sibling == n + Count(init[..|init| - 1]))
            && (var kids := ChildrenOf(c);
                && Linked(image, kids, i + 1) && i + 1 + Count(kids) <= WORD
                && (d.firstChild == 0 <==> kids == [])
                && (d.firstChild != 0 ==> d.firstChild == i + 1 + Count(kids[..|kids| - 1])))
  {
  }

  // ---------- The device ----------

  /** What makefs wrote can be followed. */
  lemma {:induction false} HoldsLinked(image: Image, cs: seq<Node>, n: nat, parent: nat, off: nat)
    requires Holds(image.dirents, image.inodes, image.data, cs, n, parent, off)
    ensures Linked(image, cs, n)
    decreases cs, 0
  {
    if cs != [] {
      var init, c := cs[..|cs| - 1], cs[|cs| - 1];
      HoldsLinked(image, init, n, parent, off);
      if c.Dir? {
        HoldsLinked(image, c.children, n + Count(init) + 1, n + Count(init), off + |Contents(init)|);
      }
    }
  }

  lemma RootLinked(image: Image, root: Node)
    requires ImageOf(image, root)
    ensures Linked(image, [root], 0) && Count([root]) == 1 + Count(root.children)
    ensures Linked(image, root.children, 1)
    ensures Trees(image, [root], 0) == [DTree(root.name, InodeFrom(image, 0), Trees(image, root.children, 1))]
  {
    HoldsLinked(image, root.children, 1, 0, 0);
    var cs := [root];
    assert cs[..|cs| - 1] == [] && Count([]) == 0 && LastId([], 0) == 0;
    assert LinkedNode(image, root, 0, 0);
    assert Trees(image, [], 0) == [];
  }

  /** `cache` meets every id exactly once. */
  lemma {:induction false} VisitsAll(cs: seq<Node>, n: nat)
    ensures |Visits(cs, n)| == Count(cs)
    ensures forall i :: i in Visits(cs, n) <==> n <= i < n + Count(cs)
    ensures forall i, j :: 0 <= i < j < |Visits(cs, n)| ==> Visits(cs, n)[i] != Visits(cs, n)[j]
    decreases Count(cs)
  {
    hide Visits, Count;
    if cs == [] {
      VisitsEmpty(n);
    } else {
      var init, c := cs[..|cs| - 1], cs[|cs| - 1];
      var id := n + Count(init);
      VisitsParts(cs, n, id);
      CountParts(cs);
      VisitsAll(init, n);
      VisitsAll(ChildrenOf(c), id + 1);
      var a, b := Visits(init, n), Visits(ChildrenOf(c), id + 1);
      VisitsDistinct(id, a, b, n);
      forall i ensures i in Visits(cs, n) <==> n <= i < n + Count(cs) {
        assert i in Visits(cs, n) <==> i == id || i in a || i in b;
      }
    }
  }

  lemma VisitsEmpty(n: nat)
    ensures Visits([], n) == [] && Count([]) == 0
  {
  }

  lemma CountParts(cs: seq<Node>)
    requires cs != []
    ensures Count(cs) == Count(cs[..|cs| - 1]) + 1 + Count(ChildrenOf(cs[|cs| - 1]))
  {
  }

  lemma VisitsDistinct(id: nat, a: seq<nat>, b: seq<nat>, n: nat)
    requires forall i :: i in a ==> n <= i < id
    requires forall i :: i in b ==> id < i
    requires forall i, j :: 0 <= i < j < |a| ==> a[i] != a[j]
    requires forall i, j :: 0 <= i < j < |b| ==> b[i] != b[j]
    ensures var s := [id] + a + b; forall i, j :: 0 <= i < j < |s| ==> s[i] != s[j]
  {
    var s := [id] + a + b;
    forall i, j | 0 <= i < j < |s| ensures s[i] != s[j] {
      assert s[j] == if j <= |a| then a[j - 1] else b[j - 1 - |a|];
      assert i > 0 ==> s[i] == if i <= |a| then a[i - 1] else b[i - 1 - |a|];
      assert j <= |a| ==> s[j] in a;
      assert j > |a| ==> s[j] in b;
      assert 0 < i <= |a| ==> s[i] in a;
    }
  }

  lemma {:induction false} EarliestEntry(image: Image, ids: seq<nat>, i: nat)
    requires InTables(image, ids)
    ensures Earliest(Entries(image, ids), i) ==
              if i in ids then Some(InodeFrom(image, i)) else None
  {
    if ids != [] {
      assert InTables(image, ids[1..]);
      assert Entries(image, ids)[1..] == Entries(image, ids[1..]);
      EarliestEntry(image, ids[1..], i);
    }
  }

  class Initrd {
    const image: Image
    const inodeCache: HashMap<Inode>
    const rootDirent: Dirent

    /** `initrd::initrd` (kernel/fs/initrd.cpp:77-82) on an image that makefs wrote. */
    constructor (image: Image, ghost root: Node)
      requires ImageOf(image, root)
      ensures this.image == image && Cached(root) && fresh(inodeCache) && fresh(inodeCache.table)
      ensures rootDirent.Valid() && fresh(rootDirent.Repr) && rootDirent.tree == RootTree(image, root)
      ensures rootDirent.Unmounted()
    {
      this.image := image;
      var inodes := new HashMap<Inode>();
      RootLinked(image, root);
      var dir;
      ghost var kids;
      dir, kids := Cache(image, inodes, null, 0, [root], 0);
      this.inodeCache := inodes;
      this.rootDirent := dir;
      assert dir.Repr <= Below(kids);
    }

    /** The cache was given exactly the inodes of the image's entries. */
    ghost predicate Cached(root: Node)
      reads inodeCache, inodeCache.table
    {
      && ImageOf(image, root) && inodeCache.Valid()
      && InTables(image, Visits([root], 0)) && inodeCache.log == Entries(image, Visits([root], 0))
    }

    /** `get_inode` (kernel/fs/initrd.cpp:86-88): the table's inode for every written id, and
        nothing for any other. */
    method GetInode(i: nat, ghost root: Node) returns (r: Option<Inode>)
      requires Cached(root) && i < WORD
      ensures i < image.numDirent ==> i < 255 && image.dirents[i].inodeId == i && r == Some(InodeFrom(image, i))
      ensures i < image.numDirent ==>
                var rd := image.inodes[i];
                && r.value.id == rd.id && r.value.mode == rd.mode && r.value.uid == rd.uid && r.value.gid == rd.gid
                && r.value.size == rd.size && (r.value.isDir <==> rd.mode / 0x4000 % 2 == 1)
                && (!r.value.isDir ==> r.value.fileData == image.data && r.value.data == rd.data)
      ensures image.numDirent <= i ==> r == None
    {
      r := inodeCache.Get(i);
      RootLinked(image, root);
      VisitsAll([root], 0);
      EarliestEntry(image, Visits([root], 0), i);
      if i < image.numDirent {
        ghost var k :| 0 <= k < |Visits([root], 0)| && Visits([root], 0)[k] == i;
        IdsAgree(image, root, i);
      }
    }
  }

  lemma IdsAgree(image: Image, root: Node, i: nat)
    requires ImageOf(image, root) && i < image.numDirent
    ensures i < ENTRIES && image.dirents[i].inodeId == i
  {
    if i > 0 {
      LinksOrdered(image.dirents, image.inodes, image.data, root.children, 1, 0, 0, i);
    }
  }

  function RootTree(image: Image, root: Node): DTree
    requires ImageOf(image, root)
  {
    RootLinked(image, root);
    DTree(root.name, InodeFrom(image, 0), Trees(image, root.children, 1))
  }
}
