/** Inodes and directory entries (includes/kernel/fs/fs.h). */
module FileSystem {
  import opened Wrappers
  import opened Memory
  import opened CStrings

  /** An inode of the ram disk. Its fields are set while it is created
      (kernel/fs/initrd.cpp:45-56) and never again. `fileData` from `data` on is where its
      data pointer points. */
  datatype Inode = Inode(id: nat, mode: nat, uid: nat, gid: nat, size: nat, isDir: bool, fileData: seq<Byte>, data: nat)

  /** `rdfs_inode::read` (kernel/fs/initrd.cpp:21-25), and `inode::read` for a directory. */
  method Read(inode: Inode, buf: array<Byte>, nbyte: nat, offset: nat) returns (actual: nat)
    requires !inode.isDir ==> (
               var count := if inode.size < nbyte then inode.size else nbyte;
               count <= buf.Length && inode.data + offset + count <= |inode.fileData|)
    modifies buf
    ensures actual == if inode.isDir then 0 else if inode.size < nbyte then inode.size else nbyte
    ensures !inode.isDir ==> buf[..actual] == inode.fileData[inode.data + offset..inode.data + offset + actual]
    ensures forall i :: actual <= i < buf.Length ==> buf[i] == old(buf[i])
  {
    if inode.isDir { return 0; }
    actual := if inode.size < nbyte then inode.size else nbyte;
    for i := 0 to actual
      invariant buf[..i] == inode.fileData[inode.data + offset..inode.data + offset + i]
      invariant forall k :: i <= k < buf.Length ==> buf[k] == old(buf[k])
    {
      buf[i] := inode.fileData[inode.data + offset + i];
    }
  }

  /** A tree of directory entries as a value. */
  datatype DTree = DTree(ident: Str, inode: Inode, kids: seq<DTree>)

  /** `get_child` on the value: the first child with the name. */
  function FindChild(kids: seq<DTree>, name: Str): (r: Option<nat>)
    ensures r.Some? ==> r.value < |kids| && kids[r.value].ident == name
    ensures r.Some? ==> forall i :: 0 <= i < r.value ==> kids[i].ident != name
    ensures r.None? ==> forall i :: 0 <= i < |kids| ==> kids[i].ident != name
  {
    if kids == [] then None
    else if kids[0].ident == name then Some(0)
    else match FindChild(kids[1..], name)
      case None => None
      case Some(i) => assert forall j :: 0 < j < |kids| ==> kids[j] == kids[1..][j - 1]; Some(i + 1)
  }

  /** Following a list of names down the tree. */
  function Walk(t: DTree, comps: seq<Str>): Option<DTree> {
    if comps == [] then Some(t) else
    match FindChild(t.kids, comps[0])
    case None => None
    case Some(i) => Walk(t.kids[i], comps[1..])
  }

  /** The entries share nothing below them. */
  ghost predicate Apart(ds: seq<Dirent>)
    reads ds
  {
    forall i, j :: 0 <= i < j < |ds| ==> ds[i].Repr !! ds[j].Repr
  }

  class Dirent {
    var ident: Str
    var inodeId: nat
    var inode: Option<Inode>
    var parent: Option<Dirent?>
    var children: seq<Dirent>
    ghost var Repr: set<Dirent>   // this entry and everything below it
    ghost var tree: DTree         // the same as a value

    ghost predicate Valid()
      reads this, Repr
      decreases tree
    {
      && this in Repr
      && inode == Some(tree.inode) && inodeId == tree.inode.id && ident == tree.ident
      && |children| == |tree.kids|
      && (forall i :: 0 <= i < |children| ==>
            && children[i] in Repr && children[i].Repr <= Repr && this !in children[i].Repr
            && children[i].tree == tree.kids[i]
            && (children[i].parent == Some(this) || children[i].parent == None)
            && children[i].Valid())
      && Apart(children)
    }

    /** No entry was mounted over: each child knows its parent. */
    ghost predicate Unmounted()
      reads this, children
    {
      forall i :: 0 <= i < |children| ==> children[i].parent == Some(this)
    }

    constructor (ident: Str, parent: Option<Dirent?>)
      ensures this.ident == ident && this.parent == parent && children == []
    {
      this.ident, this.parent, this.children := ident, parent, [];
      this.inode, this.inodeId := None, 0;
      this.Repr := {this};
    }

    /** `add_child` */
    method AddChild(d: Dirent)
      modifies this`children
      ensures children == old(children) + [d]
    {
      children := children + [d];
    }

    /** `get_child` and `get_child_iter` (includes/kernel/fs/fs.h:136-156): the position of
        the first child with the name. */
    method GetChild(name: Str) returns (r: Option<nat>)
      requires Valid()
      ensures r == FindChild(tree.kids, name)
    {
      var i := 0;
      while i < |children|
        invariant i <= |children|
        invariant forall j :: 0 <= j < i ==> tree.kids[j].ident != name
      {
        var same := StrCmp(name, children[i].ident);
        if same {
          return Some(i);
        }
        i := i + 1;
      }
      r := None;
    }
  }
}
