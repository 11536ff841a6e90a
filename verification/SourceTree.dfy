/** The directory tree that makefs packs. */
module SourceTree {
  import opened Memory
  import opened CStrings

  /** One directory entry with what `fstat` says about it. `children` is the listing
      without "." and "..", in the order `readdir` delivers it. */
  datatype Node =
    | File(name: Str, mode: nat, gid: nat, content: seq<Byte>)
    | Dir(name: Str, mode: nat, gid: nat, children: seq<Node>)

  /** Entries in a listing, all levels counted; each gets one id. */
  function Count(cs: seq<Node>): nat {
    if cs == [] then 0 else Count(cs[..|cs| - 1]) + NodeCount(cs[|cs| - 1])
  }

  function NodeCount(c: Node): nat {
    if c.Dir? then 1 + Count(c.children) else 1
  }

  /** The file contents of a listing, one after the other. */
  function Contents(cs: seq<Node>): seq<Byte> {
    if cs == [] then [] else Contents(cs[..|cs| - 1]) + NodeContents(cs[|cs| - 1])
  }

  function NodeContents(c: Node): seq<Byte> {
    if c.Dir? then Contents(c.children) else c.content
  }

  const NAME_SIZE: nat := 0x88

  /** A name that fits its field: no zero, no slash, not empty. */
  ghost predicate GoodName(name: Str) {
    0 < |name| < 136 && NoZero(name) && forall i :: 0 <= i < |name| ==> name[i] != 47
  }

  /** The file type bits of `st_mode`: 4 is a directory, 8 a regular file. */
  function TypeOf(mode: nat): nat { mode / 0x1000 % 0x10 }

  ghost predicate GoodTree(cs: seq<Node>) {
    && (forall i, j :: 0 <= i < j < |cs| ==> cs[i].name != cs[j].name)
    && forall i :: 0 <= i < |cs| ==> GoodNode(cs[i])
  }

  ghost predicate GoodNode(c: Node) {
    && GoodName(c.name) && c.mode < WORD && c.gid < WORD
    && match c
       case File(_, mode, _, _) => TypeOf(mode) == 8
       case Dir(_, mode, _, children) => TypeOf(mode) == 4 && GoodTree(children)
  }

  /** The path `comps` leads from the listing to the entry `c`. */
  ghost predicate Leads(cs: seq<Node>, comps: seq<Str>, c: Node)
    decreases |comps|
  {
    |comps| > 0 && exists i :: (
      && 0 <= i < |cs| && cs[i].name == comps[0]
      && if |comps| == 1 then cs[i] == c else cs[i].Dir? && Leads(cs[i].children, comps[1..], c))
  }

  /** Names can be stored. */
  ghost predicate Storable(cs: seq<Node>) {
    forall i :: 0 <= i < |cs| ==> StorableNode(cs[i])
  }

  ghost predicate StorableNode(c: Node) {
    NoZero(c.name) && |c.name| < NAME_SIZE && (c.Dir? ==> Storable(c.children))
  }
}
