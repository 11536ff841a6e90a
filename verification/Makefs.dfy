/** The image writer (scripts/makefs.c). */
module Makefs {
  import opened Memory
  import opened CStrings
  import opened SourceTree

  datatype RdDirent = RdDirent(name: seq<Byte>, inodeId: nat, parent: nat, firstChild: nat, sibling: nat)
  datatype RdInode = RdInode(id: nat, mode: nat, uid: nat, gid: nat, size: nat, data: nat)

  const ENTRIES: nat := 0xff
  const FILE_UID: nat := 0xabcdef1
  const DATA_TODO: nat := 12341234
  const ROOT_MODE: nat := 0x1ff   // 0777
  const MAX_DATA: nat := WORD - 0x100   // offset + size + 0xff must not wrap (scripts/makefs.c:64-65)

  /** What is written out: the two tables and the file data. */
  datatype Image = Image(numDirent: nat, dirents: seq<RdDirent>, inodes: seq<RdInode>, data: seq<Byte>)

  /** The id of the last entry of a listing whose ids start at n; 0 stands for none. */
  function LastId(cs: seq<Node>, n: nat): nat {
    if cs == [] then 0 else n + Count(cs[..|cs| - 1])
  }

  // ---------- What the tables say about a tree ----------

  /** The tables hold the listing cs with ids from n on, file data from offset off on:
      every entry's sibling is the entry written before it, every directory's first child
      the one written last. */
  ghost predicate Holds(ents: seq<RdDirent>, nodes: seq<RdInode>, data: seq<Byte>, cs: seq<Node>, n: nat, parent: nat,
                        off: nat)
    decreases cs, 0
  {
    cs == [] || (
      var init, c := cs[..|cs| - 1], cs[|cs| - 1];
      && Holds(ents, nodes, data, init, n, parent, off)
      && HoldsNode(ents, nodes, data, c, n + Count(init), parent, LastId(init, n), off + |Contents(init)|))
  }

  ghost predicate HoldsNode(ents: seq<RdDirent>, nodes: seq<RdInode>, data: seq<Byte>, c: Node, id: nat, parent: nat,
                            sibling: nat, off: nat)
    decreases c, 1
  {
    && id < |ents| && id < |nodes|
    && |ents[id].name| == 136 && CString(ents[id].name) == c.name
    && ents[id].inodeId == id && ents[id].parent == parent && ents[id].sibling == sibling
    && nodes[id].id == id && nodes[id].mode == c.mode && nodes[id].uid == 0xabcdef1 && nodes[id].gid == c.gid
    && match c
       case File(_, _, _, content) =>
         && ents[id].firstChild == 0 && nodes[id].size == |content| && nodes[id].data == off
         && off + |content| <= |data| && data[off..off + |content|] == content
       case Dir(_, _, _, children) =>
         && ents[id].firstChild == LastId(children, id + 1) && nodes[id].size == 0 && nodes[id].data == 0
         && Holds(ents, nodes, data, children, id + 1, id, off)
  }

  /** The entries below m of two tables agree. */
  ghost predicate SameBelow(ents: seq<RdDirent>, ents': seq<RdDirent>, nodes: seq<RdInode>, nodes': seq<RdInode>,
                            m: nat) {
    && |ents'| == |ents| && |nodes'| == |nodes| && m <= |ents| && m <= |nodes|
    && ents'[..m] == ents[..m] && nodes'[..m] == nodes[..m]
  }

  /** Later writes do not disturb a listing that is already in the tables. */
  lemma {:induction false} HoldsKept(ents: seq<RdDirent>, ents': seq<RdDirent>, nodes: seq<RdInode>,
                                     nodes': seq<RdInode>,
                                     data: seq<Byte>, data': seq<Byte>, cs: seq<Node>, n: nat, parent: nat, off: nat,
                                     m: nat)
    requires Holds(ents, nodes, data, cs, n, parent, off) && n + Count(cs) <= m
    requires SameBelow(ents, ents', nodes, nodes', m) && data <= data'
    ensures Holds(ents', nodes', data', cs, n, parent, off)
    decreases cs, 0
  {
    if cs != [] {
      var init, c := cs[..|cs| - 1], cs[|cs| - 1];
      HoldsKept(ents, ents', nodes, nodes', data, data', init, n, parent, off, m);
      HoldsNodeKept(ents, ents', nodes, nodes', data, data', c, n + Count(init), parent, LastId(init, n),
                    off + |Contents(init)|, m);
    }
  }

  lemma {:induction false} HoldsNodeKept(ents: seq<RdDirent>, ents': seq<RdDirent>, nodes: seq<RdInode>,
                                         nodes': seq<RdInode>,
                                         data: seq<Byte>, data': seq<Byte>, c: Node, id: nat, parent: nat, sibling: nat,
                                         off: nat, m: nat)
    requires HoldsNode(ents, nodes, data, c, id, parent, sibling, off) && id + NodeCount(c) <= m
    requires SameBelow(ents, ents', nodes, nodes', m) && data <= data'
    ensures HoldsNode(ents', nodes', data', c, id, parent, sibling, off)
    decreases c, 1
  {
    assert ents'[id] == ents'[..m][id] == ents[id] && nodes'[id] == nodes'[..m][id] == nodes[id];
    match c
    case File(_, _, _, content) =>
      assert data'[off..off + |content|] == data[off..off + |content|];
    case Dir(_, _, _, children) =>
      HoldsKept(ents, ents', nodes, nodes', data, data', children, id + 1, id, off, m);
  }

  lemma Prefix(cs: seq<Node>, j: nat)
    requires j < |cs|
    ensures cs[..j + 1][..|cs[..j + 1]| - 1] == cs[..j] && cs[..j + 1][|cs[..j + 1]| - 1] == cs[j]
    ensures Count(cs[..j + 1]) == Count(cs[..j]) + NodeCount(cs[j])
    ensures Contents(cs[..j + 1]) == Contents(cs[..j]) + NodeContents(cs[j])
  {
  }

  lemma {:induction false} CountPrefix(cs: seq<Node>, j: nat)
    requires j <= |cs|
    ensures Count(cs[..j]) <= Count(cs)
    ensures Contents(cs[..j]) <= Contents(cs)
    decreases |cs| - j
  {
    if j < |cs| {
      Prefix(cs, j);
      CountPrefix(cs, j + 1);
    } else {
      assert cs[..j] == cs;
    }
  }

  /** Writes to entries in front of a listing do not disturb it either. */
  lemma {:induction false} HoldsAbove(ents: seq<RdDirent>, ents': seq<RdDirent>, nodes: seq<RdInode>,
                                      nodes': seq<RdInode>,
                                      data: seq<Byte>, cs: seq<Node>, n: nat, parent: nat, off: nat)
    requires Holds(ents, nodes, data, cs, n, parent, off) && SameFrom(ents, ents', nodes, nodes', n)
    ensures Holds(ents', nodes', data, cs, n, parent, off)
    decreases cs, 0
  {
    if cs != [] {
      var init, c := cs[..|cs| - 1], cs[|cs| - 1];
      HoldsAbove(ents, ents', nodes, nodes', data, init, n, parent, off);
      HoldsNodeAbove(ents, ents', nodes, nodes', data, c, n + Count(init), parent, LastId(init, n),
                     off + |Contents(init)|);
    }
  }

  lemma {:induction false} HoldsNodeAbove(ents: seq<RdDirent>, ents': seq<RdDirent>, nodes: seq<RdInode>,
                                          nodes': seq<RdInode>,
                                          data: seq<Byte>, c: Node, id: nat, parent: nat, sibling: nat, off: nat)
    requires HoldsNode(ents, nodes, data, c, id, parent, sibling, off) && SameFrom(ents, ents', nodes, nodes', id)
    ensures HoldsNode(ents', nodes', data, c, id, parent, sibling, off)
    decreases c, 1
  {
    if c.Dir? {
      HoldsAbove(ents, ents', nodes, nodes', data, c.children, id + 1, id, off);
    }
  }

  ghost predicate SameFrom(ents: seq<RdDirent>, ents': seq<RdDirent>, nodes: seq<RdInode>, nodes': seq<RdInode>,
                           m: nat) {
    && |ents'| == |ents| && |nodes'| == |nodes|
    && (forall i :: m <= i < |ents| ==> ents'[i] == ents[i]) && forall i :: m <= i < |nodes| ==> nodes'[i] == nodes[i]
  }

  /** One more entry. */
  lemma HoldsExtended(ents: seq<RdDirent>, ents': seq<RdDirent>, nodes: seq<RdInode>, nodes': seq<RdInode>,
                      data: seq<Byte>, data': seq<Byte>, cs: seq<Node>, j: nat, n: nat, parent: nat, off: nat)
    requires j < |cs| && Holds(ents, nodes, data, cs[..j], n, parent, off)
    requires SameBelow(ents, ents', nodes, nodes', n + Count(cs[..j])) && data <= data'
    requires HoldsNode(ents', nodes', data', cs[j], n + Count(cs[..j]), parent, LastId(cs[..j], n),
                       off + |Contents(cs[..j])|)
    ensures Holds(ents', nodes', data', cs[..j + 1], n, parent, off)
    ensures LastId(cs[..j + 1], n) == n + Count(cs[..j])
  {
    hide HoldsNode;
    Prefix(cs, j);
    HoldsKept(ents, ents', nodes, nodes', data, data', cs[..j], n, parent, off, n + Count(cs[..j]));
  }

  lemma EmptyListing(ents: seq<RdDirent>, nodes: seq<RdInode>, data: seq<Byte>, n: nat, parent: nat, off: nat)
    requires n <= |ents| && n <= |nodes|
    ensures Holds(ents, nodes, data, [], n, parent, off) && LastId([], n) == 0 && Count([]) == 0 && Contents([]) == []
    ensures SameBelow(ents, ents, nodes, nodes, n)
  {
  }

  lemma SameBelowThen(ents: seq<RdDirent>, ents': seq<RdDirent>, ents'': seq<RdDirent>,
                      nodes: seq<RdInode>, nodes': seq<RdInode>, nodes'': seq<RdInode>, m: nat, m': nat)
    requires SameBelow(ents, ents', nodes, nodes', m) && SameBelow(ents', ents'', nodes', nodes'', m') && m <= m'
    ensures SameBelow(ents, ents'', nodes, nodes'', m)
  {
  }

  lemma SameUpTo(ents: seq<RdDirent>, ents': seq<RdDirent>, nodes: seq<RdInode>, nodes': seq<RdInode>, m: nat)
    requires |ents'| == |ents| && |nodes'| == |nodes| && m <= |ents| && m <= |nodes|
    requires forall i :: 0 <= i < m ==> ents'[i] == ents[i] && nodes'[i] == nodes[i]
    ensures SameBelow(ents, ents', nodes, nodes', m)
  {
  }

  lemma KeptEntry(ents: seq<RdDirent>, ents': seq<RdDirent>, nodes: seq<RdInode>, nodes': seq<RdInode>, i: nat)
    requires SameBelow(ents, ents', nodes, nodes', i + 1)
    ensures i < |ents| == |ents'| && i < |nodes| == |nodes'| && ents'[i] == ents[i] && nodes'[i] == nodes[i]
  {
  }

  /** The globals of makefs: `id`, the two tables of `out` and the data buffer. */
  class Writer {
    const dirents: array<RdDirent>
    const inodes: array<RdInode>
    var outData: seq<Byte>
    var id: nat

    ghost predicate Valid()
      reads this, dirents, inodes
    {
      && dirents.Length == ENTRIES && inodes.Length == ENTRIES && id <= ENTRIES
      && dirents as object != inodes
      && forall i :: 0 <= i < ENTRIES ==> |dirents[i].name| == NAME_SIZE
    }

    /** `main`: the tables start all zero (scripts/makefs.c:143-145). */
    constructor ()
      ensures Valid() && id == 0 && outData == [] && fresh(dirents) && fresh(inodes)
      ensures forall i :: 0 <= i < ENTRIES ==> dirents[i] == RdDirent(seq(NAME_SIZE, _ => 0), 0, 0, 0, 0)
    {
      dirents := new RdDirent[ENTRIES](_ => RdDirent(seq(NAME_SIZE, _ => 0), 0, 0, 0, 0));
      inodes := new RdInode[ENTRIES](_ => RdInode(0, 0, 0, 0, 0, 0));
      outData, id := [], 0;
    }

    /** `convert_dirent` (scripts/makefs.c:42-61). */
    method ConvertDirent(c: Node) returns (cur: nat)
      requires Valid() && id < ENTRIES && NoZero(c.name) && |c.name| < NAME_SIZE
      modifies this`id, dirents, inodes
      ensures Valid() && cur == old(id) && id == cur + 1
      ensures dirents[cur] == old(dirents[cur]).(name := dirents[cur].name, inodeId := cur)
      ensures CString(dirents[cur].name) == c.name
      ensures inodes[cur] == RdInode(cur, c.mode, 0xabcdef1, c.gid, if c.Dir? then 0 else |c.content|, 12341234)
      ensures forall i :: 0 <= i < ENTRIES && i != cur ==> dirents[i] == old(dirents[i]) && inodes[i] == old(inodes[i])
    {
      cur := id;
      id := id + 1;
      var field := dirents[cur].name;
      CStringReads(c.name, field[|c.name| + 1..]);
      dirents[cur] := dirents[cur].(name := c.name + [0] + field[|c.name| + 1..], inodeId := cur);
      inodes[cur] := RdInode(cur, c.mode, FILE_UID, c.gid, if c.Dir? then 0 else |c.content|, DATA_TODO);
    }

    /** `load_data` (scripts/makefs.c:63-75): the offset at which the content was appended. */
    method LoadData(content: seq<Byte>) returns (out: nat)
      requires |outData| + |content| <= MAX_DATA
      modifies this`outData
      ensures out == |old(outData)| && outData == old(outData) + content
    {
      out := |outData|;
      if |content| == 0 { return; }
      outData := outData + content;
    }

    /** `traverse_dir` (scripts/makefs.c:77-123). */
    method TraverseDir(children: seq<Node>, parent: nat) returns (last: nat)
      requires Valid() && id + Count(children) <= ENTRIES && Storable(children)
      requires |outData| + |Contents(children)| <= MAX_DATA
      modifies this, dirents, inodes
      ensures Valid() && id == old(id) + Count(children) && last == LastId(children, old(id))
      ensures outData == old(outData) + Contents(children)
      ensures SameBelow(old(dirents[..]), dirents[..], old(inodes[..]), inodes[..], old(id))
      ensures Holds(dirents[..], inodes[..], outData, children, old(id), parent, |old(outData)|)
      decreases children
    {
      hide Holds, HoldsNode, SameBelow, LastId, Count, Contents, NodeCount, NodeContents, Storable, StorableNode;
      last := 0;
      ghost var ents0, nodes0, n, off := dirents[..], inodes[..], id, |outData|;
      EmptyListing(ents0, nodes0, outData, n, parent, off);
      assert children[..0] == [];
      for j := 0 to |children|
        invariant Valid() && id == n + Count(children[..j]) && last == LastId(children[..j], n)
        invariant outData == old(outData) + Contents(children[..j])
        invariant SameBelow(ents0, dirents[..], nodes0, inodes[..], n)
        invariant Holds(dirents[..], inodes[..], outData, children[..j], n, parent, off)
      {
        TraverseStep(children, j);
        ghost var ents, nodes, data := dirents[..], inodes[..], outData;
        last := AddEntry(children[j], parent, last);
        SameBelowThen(ents0, ents, dirents[..], nodes0, nodes, inodes[..], n, n + Count(children[..j]));
        HoldsExtended(ents, dirents[..], nodes, inodes[..], data, outData, children, j, n, parent, off);
      }
      assert children[..|children|] == children;
    }

    lemma TraverseStep(children: seq<Node>, j: nat)
      requires j < |children| && Storable(children)
      ensures StorableNode(children[j])
      ensures Count(children[..j]) + NodeCount(children[j]) <= Count(children)
      ensures Count(children[..j + 1]) == Count(children[..j]) + NodeCount(children[j])
      ensures Contents(children[..j + 1]) == Contents(children[..j]) + NodeContents(children[j])
      ensures |Contents(children[..j])| + |NodeContents(children[j])| <= |Contents(children)|
    {
      Prefix(children, j);
      CountPrefix(children, j + 1);
    }

    /** One round of the loop of `traverse_dir` (scripts/makefs.c:98-110). */
    method AddEntry(c: Node, parent: nat, last: nat) returns (cur: nat)
      requires Valid() && id + NodeCount(c) <= ENTRIES && StorableNode(c)
      requires |outData| + |NodeContents(c)| <= MAX_DATA
      modifies this, dirents, inodes
      ensures Valid() && cur == old(id) && id == cur + NodeCount(c)
      ensures outData == old(outData) + NodeContents(c)
      ensures SameBelow(old(dirents[..]), dirents[..], old(inodes[..]), inodes[..], old(id))
      ensures HoldsNode(dirents[..], inodes[..], outData, c, cur, parent, last, |old(outData)|)
      decreases c
    {
      hide Holds, LastId, Count, Contents, SameBelow;
      cur := ConvertDirent(c);
      dirents[cur] := dirents[cur].(parent := parent, sibling := last);
      ghost var ents, nodes := dirents[..], inodes[..];
      SameUpTo(old(dirents[..]), ents, old(inodes[..]), nodes, cur);
      if c.Dir? {
        var first := TraverseDir(c.children, cur);
        KeptEntry(ents, dirents[..], nodes, inodes[..], cur);
        SameBelowThen(old(dirents[..]), ents, dirents[..], old(inodes[..]), nodes, inodes[..], cur, cur + 1);
        ghost var ents1, nodes1 := dirents[..], inodes[..];
        dirents[cur] := dirents[cur].(firstChild := first);
        inodes[cur] := inodes[cur].(data := 0);
        SameUpTo(ents1, dirents[..], nodes1, inodes[..], cur);
        SameBelowThen(old(dirents[..]), ents1, dirents[..], old(inodes[..]), nodes1, inodes[..], cur, cur);
        HoldsAbove(ents1, dirents[..], nodes1, inodes[..], outData, c.children, cur + 1, cur, |old(outData)|);
      } else {
        var at := LoadData(c.content);
        dirents[cur] := dirents[cur].(firstChild := 0);
        inodes[cur] := inodes[cur].(data := at);
        SameUpTo(ents, dirents[..], nodes, inodes[..], cur);
        SameBelowThen(old(dirents[..]), ents, dirents[..], old(inodes[..]), nodes, inodes[..], cur, cur);
      }
    }
  }

  /** The image of a tree: root entry 0, the listing from id 1 on, the data from offset 0. */
  ghost predicate ImageOf(image: Image, root: Node) {
    && root.Dir? && |image.dirents| == 255 && |image.inodes| == 255
    && image.numDirent == 1 + Count(root.children) <= 255
    && image.data == Contents(root.children)
    && (var d := image.dirents[0];
        && CString(d.name) == root.name && d.inodeId == 0 && d.parent == 0 && d.sibling == 0
        && d.firstChild == LastId(root.children, 1))
    && image.inodes[0] == RdInode(0, 0x1ff, 0, 0, 0, 0)
    && Holds(image.dirents, image.inodes, image.data, root.children, 1, 0, 0)
  }

  /** `main` (scripts/makefs.c:143-171), from the root directory's entry on. */
  method MakeImage(root: Node) returns (image: Image)
    requires root.Dir? && StorableNode(root) && 1 + Count(root.children) <= ENTRIES
    requires |Contents(root.children)| <= MAX_DATA
    ensures ImageOf(image, root)
  {
    var w := new Writer();
    var dirId := w.ConvertDirent(root);
    assert dirId == 0;
    var first := w.TraverseDir(root.children, dirId);
    ghost var ents, nodes := w.dirents[..], w.inodes[..];
    assert ents[0] == ents[..1][0] && nodes[0] == nodes[..1][0];
    w.dirents[dirId] := w.dirents[dirId].(firstChild := first);
    w.dirents[dirId] := w.dirents[dirId].(sibling := 0);
    w.inodes[dirId] := w.inodes[dirId].(uid := 0, gid := 0, mode := ROOT_MODE, data := 0);
    image := Image(w.id, w.dirents[..], w.inodes[..], w.outData);
    HoldsAbove(ents, image.dirents, nodes, image.inodes, image.data, root.children, 1, 0, 0);
  }

  /** What the tables hold of a listing, entry by entry: entry j has the next free id after
      those of the entries before it and all that lies in them; its sibling is the entry before
      it, and the first child of a directory is the last entry of its own listing. */
  lemma HoldsMeans(ents: seq<RdDirent>, nodes: seq<RdInode>, data: seq<Byte>, cs: seq<Node>, n: nat,
                   parent: nat, off: nat, j: nat)
    requires Holds(ents, nodes, data, cs, n, parent, off) && j < |cs|
    ensures var id, c := n + Count(cs[..j]), cs[j];
            && id < |ents| && id < |nodes|
            && CString(ents[id].name) == c.name && ents[id].inodeId == id && ents[id].parent == parent
            && ents[id].sibling == (if j == 0 then 0 else n + Count(cs[..j - 1]))
            && ents[id].firstChild == (if c.Dir? && c.children != []
                                       then id + 1 + Count(c.children[..|c.children| - 1]) else 0)
            && nodes[id].id == id && nodes[id].mode == c.mode && nodes[id].gid == c.gid && nodes[id].uid == 0xabcdef1
            && nodes[id].size == (if c.Dir? then 0 else |c.content|)
            && (c.Dir? ==> Holds(ents, nodes, data, c.children, id + 1, id, off + |Contents(cs[..j])|))
            && (c.File? ==>
                  && nodes[id].data == off + |Contents(cs[..j])| && nodes[id].data + |c.content| <= |data|
                  && data[nodes[id].data..nodes[id].data + |c.content|] == c.content)
  {
    hide Holds, Count, Contents;
    HoldsEntry(ents, nodes, data, cs, n, parent, off, j);
    LastIdMeans(cs[..j], n);
    if j > 0 { assert cs[..j][..j - 1] == cs[..j - 1]; }
    if cs[j].Dir? { LastIdMeans(cs[j].children, n + Count(cs[..j]) + 1); }
  }

  lemma LastIdMeans(cs: seq<Node>, n: nat)
    ensures LastId(cs, n) == if cs == [] then 0 else n + Count(cs[..|cs| - 1])
  {
  }

  lemma {:induction false} HoldsEntry(ents: seq<RdDirent>, nodes: seq<RdInode>, data: seq<Byte>, cs: seq<Node>, n: nat,
                                      parent: nat, off: nat, j: nat)
    requires Holds(ents, nodes, data, cs, n, parent, off) && j < |cs|
    ensures HoldsNode(ents, nodes, data, cs[j], n + Count(cs[..j]), parent, LastId(cs[..j], n),
                      off + |Contents(cs[..j])|)
    decreases |cs|
  {
    hide HoldsNode, Count, Contents, LastId;
    var init := cs[..|cs| - 1];
    if j < |init| {
      HoldsEntry(ents, nodes, data, init, n, parent, off, j);
      assert init[..j] == cs[..j];
    }
  }

  /** Why a reader can follow the links: a sibling has a smaller id, a first child a larger
      one, and 0 names neither. */
  lemma {:induction false} LinksOrdered(ents: seq<RdDirent>, nodes: seq<RdInode>, data: seq<Byte>, cs: seq<Node>,
                                        n: nat, parent: nat,
                                        off: nat, i: nat)
    requires 0 < n && Holds(ents, nodes, data, cs, n, parent, off) && n <= i < n + Count(cs)
    ensures i < |ents| && ents[i].inodeId == i
    ensures ents[i].sibling == 0 || n <= ents[i].sibling < i
    ensures ents[i].firstChild == 0 || i < ents[i].firstChild < n + Count(cs)
    ensures parent < n ==> ents[i].parent < i
    decreases cs, 0
  {
    var init, c := cs[..|cs| - 1], cs[|cs| - 1];
    var id := n + Count(init);
    if i < id {
      LinksOrdered(ents, nodes, data, init, n, parent, off, i);
    } else {
      LastIdBounds(init, n);
      if c.Dir? {
        LastIdBounds(c.children, id + 1);
        if id < i {
          LinksOrdered(ents, nodes, data, c.children, id + 1, id, off + |Contents(init)|, i);
        }
      }
    }
  }

  lemma LastIdBounds(cs: seq<Node>, n: nat)
    ensures LastId(cs, n) == 0 || n <= LastId(cs, n) < n + Count(cs)
  {
  }
}
