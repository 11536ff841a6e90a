/** The chained hash table (includes/util/hashmap.h). */
module HashMap {
  import opened Wrappers
  import opened Memory
  import opened CStrings

  const HASH_RANGE: nat := 0x100
  const SEED: nat := 5381

  /** The hash as the loop computes it, wrapping at 32 bits. */
  function Djb(s: Str): (h: nat)
    ensures h < WORD
  {
    if s == [] then SEED else
    var c: int := s[|s| - 1];
    (Djb(s[..|s| - 1]) * 33 + c) % WORD
  }

  /** The base-33 polynomial over the bytes. */
  function Polynomial(s: Str): nat {
    if s == [] then SEED else
    var c: int := s[|s| - 1];
    Polynomial(s[..|s| - 1]) * 33 + c
  }

  /** Starting at 5381, each byte multiplies by 33 and is added. */
  lemma PolynomialMeans(s: Str, c: Byte)
    ensures Polynomial([]) == 5381 && Polynomial(s + [c]) == Polynomial(s) * 33 + c as int
  {
    assert (s + [c])[..|s|] == s;
  }

  lemma WrapStep(p: nat, h: nat, c: nat)
    requires h == p % WORD
    ensures (h * 33 + c) % WORD == (p * 33 + c) % WORD
  {
  }

  lemma ModMod(x: nat)
    ensures x % WORD % HASH_RANGE == x % HASH_RANGE
  {
  }

  lemma {:induction false} DjbIsPolynomial(s: Str)
    ensures Djb(s) == Polynomial(s) % WORD
  {
    if s != [] {
      DjbIsPolynomial(s[..|s| - 1]);
      WrapStep(Polynomial(s[..|s| - 1]), Djb(s[..|s| - 1]), s[|s| - 1]);
    }
  }

  /** Wrapping does not matter: the bucket is the polynomial modulo 256. */
  lemma HashIsPolynomial(s: Str)
    ensures Djb(s) % 256 == Polynomial(s) % 256
  {
    DjbIsPolynomial(s);
    ModMod(Polynomial(s));
  }

  /** `hash` (includes/util/hashmap.h:24-30). */
  method Hash(s: Str) returns (bucket: nat)
    ensures bucket == Polynomial(s) % 256
  {
    var hash: nat := SEED;
    for i := 0 to |s|
      invariant hash == Djb(s[..i])
    {
      assert s[..i + 1][..i] == s[..i];
      var c: int := s[i];
      hash := (hash * 33 + c) % WORD;
    }
    assert s[..|s|] == s;
    HashIsPolynomial(s);
    bucket := hash % HASH_RANGE;
  }

  /** The string a 32-bit key is hashed as: its little-endian bytes up to the first zero. */
  function KeyString(key: nat): Str
    requires key < WORD
  {
    CString([key % 0x100, key / 0x100 % 0x100, key / 0x1_0000 % 0x100, key / 0x100_0000, 0])
  }

  function BucketOf(key: nat): (b: nat)
    requires key < WORD
    ensures b < HASH_RANGE
  {
    Polynomial(KeyString(key)) % HASH_RANGE
  }

  /** The value of the first entry with the key. */
  function Earliest<V>(log: seq<(nat, V)>, key: nat): Option<V> {
    if log == [] then None
    else if log[0].0 == key then Some(log[0].1)
    else Earliest(log[1..], key)
  }

  /** The value is that of an entry with the key before which there is none with it. */
  lemma {:induction false} EarliestMeans<V>(log: seq<(nat, V)>, key: nat)
    ensures match Earliest(log, key)
            case None => forall i :: 0 <= i < |log| ==> log[i].0 != key
            case Some(v) => exists i :: 0 <= i < |log| && log[i].0 == key && log[i].1 == v
                                        && forall j :: 0 <= j < i ==> log[j].0 != key
  {
    if log != [] && log[0].0 != key {
      EarliestMeans(log[1..], key);
      assert forall i :: 0 < i < |log| ==> log[i] == log[1..][i - 1];
      if Earliest(log, key).Some? {
        var i :| 0 <= i < |log[1..]| && log[1..][i].0 == key && log[1..][i].1 == Earliest(log, key).value
                 && forall j :: 0 <= j < i ==> log[1..][j].0 != key;
        assert log[i + 1] == log[1..][i];
      }
    }
  }

  /** The entries that belong in bucket b, in order. */
  function Chain<V>(log: seq<(nat, V)>, b: nat): seq<(nat, V)>
    requires forall i :: 0 <= i < |log| ==> log[i].0 < WORD
  {
    if log == [] then []
    else if BucketOf(log[0].0) == b then [log[0]] + Chain(log[1..], b)
    else Chain(log[1..], b)
  }

  lemma {:induction false} ChainAppend<V>(log: seq<(nat, V)>, e: (nat, V), b: nat)
    requires forall i :: 0 <= i < |log| ==> log[i].0 < WORD
    requires e.0 < WORD
    ensures Chain(log + [e], b) == if BucketOf(e.0) == b then Chain(log, b) + [e] else Chain(log, b)
  {
    if log == [] {
      assert (log + [e])[1..] == [];
    } else {
      assert (log + [e])[1..] == log[1..] + [e];
      ChainAppend(log[1..], e, b);
    }
  }

  /** Looking in one chain finds what looking through the whole log finds. */
  lemma {:induction false} EarliestInChain<V>(log: seq<(nat, V)>, key: nat)
    requires key < WORD && forall i :: 0 <= i < |log| ==> log[i].0 < WORD
    ensures Earliest(Chain(log, BucketOf(key)), key) == Earliest(log, key)
  {
    if log != [] {
      EarliestInChain(log[1..], key);
      var rest := Chain(log[1..], BucketOf(key));
      assert ([log[0]] + rest)[1..] == rest;
    }
  }

  /** An earlier entry hides later ones with the same key. */
  lemma {:induction false} EarliestAppend<V>(log: seq<(nat, V)>, more: seq<(nat, V)>, key: nat)
    ensures Earliest(log + more, key) == if Earliest(log, key).Some? then Earliest(log, key) else Earliest(more, key)
  {
    if log == [] {
      assert log + more == more;
    } else {
      assert (log + more)[1..] == log[1..] + more;
      EarliestAppend(log[1..], more, key);
    }
  }

  class HashMap<V> {
    const table: array<seq<(nat, V)>>
    ghost var log: seq<(nat, V)>   // every `set` so far, in order

    ghost predicate Valid()
      reads this, table
    {
      && table.Length == HASH_RANGE
      && (forall i :: 0 <= i < |log| ==> log[i].0 < WORD)
      && forall b :: 0 <= b < HASH_RANGE ==> table[b] == Chain(log, b)
    }

    constructor ()
      ensures Valid() && log == [] && fresh(table)
    {
      table := new seq<(nat, V)>[HASH_RANGE](_ => []);
      log := [];
    }

    /** `get` (includes/util/hashmap.h:57-66): the value of the earliest `set` of the key. */
    method Get(key: nat) returns (r: Option<V>)
      requires Valid() && key < WORD
      ensures r == Earliest(log, key)
    {
      var hashed := Hash(KeyString(key));
      var chain := table[hashed];
      EarliestInChain(log, key);
      var i := 0;
      while i < |chain| && chain[i].0 != key
        invariant i <= |chain| && Earliest(chain[i..], key) == Earliest(chain, key)
      {
        assert chain[i..][1..] == chain[i + 1..];
        i := i + 1;
      }
      r := if i < |chain| then Some(chain[i].1) else None;
    }

    /** `set` (includes/util/hashmap.h:68-79): append, never overwrite. */
    method Set(key: nat, value: V)
      requires Valid() && key < WORD
      modifies this`log, table
      ensures Valid() && log == old(log) + [(key, value)]
    {
      var hashed := Hash(KeyString(key));
      forall b | 0 <= b < HASH_RANGE
        ensures Chain(log + [(key, value)], b) == if b == hashed then Chain(log, b) + [(key, value)] else Chain(log, b)
      {
        ChainAppend(log, (key, value), b);
      }
      table[hashed] := table[hashed] + [(key, value)];
      log := log + [(key, value)];
    }
  }
}
