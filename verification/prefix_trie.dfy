/** The uncompressed binary prefix trie behind both `IPv4RadixTree` and
    `IPv6RadixTree`. The two classes run the same algorithm on keys of 32 and
    of 128 bits; here it is stated once over most-significant-bit-first keys
    of type `seq<bool>`.

    A `Node` holds the `left` (0 bit) and `right` (1 bit) children and the
    `isEndOfRange` mark; `Leaf` stands for a `null` child.

    The abstract specification is the set of stored prefixes, `Stored(t)`:
    the paths from the root to marked nodes. `Lookup` holds of a key exactly
    when some stored prefix is a prefix of the key (`LookupRefines`), and
    `Insert` adds its prefix to that set and nothing else (`Insert`'s
    contract); every other property of the tree follows from these two.
 */
module PrefixTrie {

  datatype Trie = Leaf | Node(zero: Trie, one: Trie, isEnd: bool)

  type Key = seq<bool>

  /** The tree a constructor makes: a root node with no children and no mark. */
  function Empty(): (t: Trie)
    ensures t.Node? && Stored(t) == {}
  {
    Node(Leaf, Leaf, false)
  }

  // ---------------------------------------------------------------------
  // Abstract specification

  /** The prefixes below a node, seen from its parent through the edge `b`. */
  ghost function Under(b: bool, s: set<Key>): set<Key> {
    set p | p in s :: [b] + p
  }

  /** The paths from the root to the marked nodes. */
  ghost function Stored(t: Trie): set<Key> {
    match t
    case Leaf => {}
    case Node(zero, one, isEnd) =>
      (if isEnd then {[]} else {}) + Under(false, Stored(zero)) + Under(true, Stored(one))
  }

  /** Some prefix in `s` is a prefix of `key`. */
  ghost predicate Covered(s: set<Key>, key: Key) {
    exists p :: p in s && p <= key
  }

  /** The paths from the root to the nodes that exist. */
  ghost function Paths(t: Trie): set<Key> {
    match t
    case Leaf => {}
    case Node(zero, one, _) => {[]} + Under(false, Paths(zero)) + Under(true, Paths(one))
  }

  /** Every prefix of `p`, from the empty one to `p` itself. */
  ghost function PrefixesOf(p: Key): set<Key> {
    set i | 0 <= i <= |p| :: p[..i]
  }

  // ---------------------------------------------------------------------
  // Operations

  /** `addRange`: walk the bits of `p`, creating each missing child, and mark
      the node reached. */
  function Insert(t: Trie, p: Key): (r: Trie)
    ensures r.Node?
    ensures Stored(r) == Stored(t) + {p}
    decreases |p|
  {
    var n := if t.Leaf? then Empty() else t;
    if |p| == 0 then
      n.(isEnd := true)
    else
      var rest := p[1..];
      assert p == [p[0]] + rest;
      if p[0] then
        var child := Insert(n.one, rest);
        UnderAdd(true, Stored(n.one), rest);
        n.(one := child)
      else
        var child := Insert(n.zero, rest);
        UnderAdd(false, Stored(n.zero), rest);
        n.(zero := child)
  }

  /** `contains`, as a recursive reference: true at the first marked node on
      the key's path, false at the first missing child or once the key is
      used up without meeting a mark. */
  predicate Lookup(t: Trie, key: Key) {
    match t
    case Leaf => false
    case Node(zero, one, isEnd) =>
      isEnd || (|key| > 0 && Lookup(if key[0] then one else zero, key[1..]))
  }

  /** `contains` as the source writes it: one loop over the key's bit
      positions. It agrees with `Lookup`, and it reads at most one bit per
      position, whatever the number of stored ranges. */
  method Contains(t: Trie, key: Key) returns (found: bool, inspected: nat)
    ensures found == Lookup(t, key)
    ensures inspected <= |key|
  {
    if t.Leaf? {
      return false, 0;
    }
    var node := t;
    var i := 0;
    while i < |key|
      invariant 0 <= i <= |key|
      invariant node.Node?
      invariant Lookup(t, key) == Lookup(node, key[i..])
      decreases |key| - i
    {
      if node.isEnd {
        return true, i;
      }
      assert key[i..][1..] == key[i + 1..];
      var next := if key[i] then node.one else node.zero;
      if next.Leaf? {
        return false, i + 1;
      }
      node := next;
      i := i + 1;
    }
    return node.isEnd, i;
  }

  // ---------------------------------------------------------------------
  // Helpers about `Under`

  lemma UnderAdd(b: bool, s: set<Key>, q: Key)
    ensures Under(b, s + {q}) == Under(b, s) + {[b] + q}
  {
  }

  lemma UnderMember(b: bool, s: set<Key>, p: Key)
    requires p in Under(b, s)
    ensures |p| > 0 && p[0] == b && p[1..] in s
  {
    var q :| q in s && p == [b] + q;
    assert p[1..] == q;
  }

  lemma UnderUnion(b: bool, s: set<Key>, u: set<Key>)
    ensures Under(b, s + u) == Under(b, s) + Under(b, u)
  {
  }

  // ---------------------------------------------------------------------
  // Refinement

  /** The tree answers `contains` exactly as its set of stored prefixes does. */
  lemma {:induction false} LookupRefines(t: Trie, key: Key)
    ensures Lookup(t, key) <==> Covered(Stored(t), key)
  {
    match t
    case Leaf =>
    case Node(zero, one, isEnd) =>
      if isEnd {
        assert [] in Stored(t) && [] <= key;
      } else if |key| == 0 {
        forall p | p in Stored(t)
          ensures !(p <= key)
        {
          if p in Under(false, Stored(zero)) {
            UnderMember(false, Stored(zero), p);
          } else {
            UnderMember(true, Stored(one), p);
          }
        }
      } else {
        var b := key[0];
        var child := if b then one else zero;
        var rest := key[1..];
        LookupRefines(child, rest);
        if Covered(Stored(child), rest) {
          var q :| q in Stored(child) && q <= rest;
          assert [b] + q in Under(b, Stored(child));
          assert [b] + q <= key;
        }
        if Covered(Stored(t), key) {
          var p :| p in Stored(t) && p <= key;
          if p in Under(false, Stored(zero)) {
            UnderMember(false, Stored(zero), p);
          } else {
            UnderMember(true, Stored(one), p);
          }
          assert p[1..] <= rest;
        }
      }
  }

  // ---------------------------------------------------------------------
  // Consequences for `addRange` followed by `contains`

  /** After inserting `p`, a key is contained iff it was before or `p` is a
      prefix of it. */
  lemma LookupInsert(t: Trie, p: Key, key: Key)
    ensures Lookup(Insert(t, p), key) <==> Lookup(t, key) || p <= key
  {
    LookupRefines(t, key);
    LookupRefines(Insert(t, p), key);
  }

  /** A fresh tree contains no key. */
  lemma EmptyContainsNothing(key: Key)
    ensures !Lookup(Empty(), key)
  {
    LookupRefines(Empty(), key);
  }

  /** Prefix length 0 marks the root, so every key is contained. */
  lemma InsertEmptyPrefixContainsAll(t: Trie, key: Key)
    ensures Lookup(Insert(t, []), key)
  {
    LookupInsert(t, [], key);
  }

  /** A full-length prefix inserted into a fresh tree contains that key only. */
  lemma InsertFullKeyExact(p: Key, key: Key)
    requires |p| == |key|
    ensures Lookup(Insert(Empty(), p), key) <==> p == key
  {
    LookupInsert(Empty(), p, key);
    EmptyContainsNothing(key);
  }

  /** A containment, once true, survives any later insertion: overlapping and
      nested ranges never shadow one another. */
  lemma InsertKeepsContained(t: Trie, p: Key, key: Key)
    requires Lookup(t, key)
    ensures Lookup(Insert(t, p), key)
  {
    LookupInsert(t, p, key);
  }

  // ---------------------------------------------------------------------
  // Shape

  /** Inserting a prefix that is already present leaves the tree exactly as
      it was: children are created only where missing and the mark is only
      ever set. */
  lemma {:induction false} InsertIdempotent(t: Trie, p: Key)
    ensures Insert(Insert(t, p), p) == Insert(t, p)
    decreases |p|
  {
    if |p| > 0 {
      var n := if t.Leaf? then Empty() else t;
      if p[0] {
        InsertIdempotent(n.one, p[1..]);
      } else {
        InsertIdempotent(n.zero, p[1..]);
      }
    }
  }

  /** The order of two insertions does not matter to the shape of the tree. */
  lemma {:induction false} InsertCommutes(t: Trie, p: Key, q: Key)
    ensures Insert(Insert(t, p), q) == Insert(Insert(t, q), p)
    decreases |p| + |q|
  {
    var n := if t.Leaf? then Empty() else t;
    if |p| > 0 && |q| > 0 && p[0] == q[0] {
      if p[0] {
        InsertCommutes(n.one, p[1..], q[1..]);
      } else {
        InsertCommutes(n.zero, p[1..], q[1..]);
      }
    }
  }

  lemma PrefixesOfCons(p: Key)
    requires |p| > 0
    ensures PrefixesOf(p) == {[]} + Under(p[0], PrefixesOf(p[1..]))
  {
    var rest := p[1..];
    forall x | x in PrefixesOf(p)
      ensures x in {[]} + Under(p[0], PrefixesOf(rest))
    {
      var i :| 0 <= i <= |p| && x == p[..i];
      if i > 0 {
        assert x == [p[0]] + rest[..i - 1];
      }
    }
    forall x | x in Under(p[0], PrefixesOf(rest))
      ensures x in PrefixesOf(p)
    {
      var y :| y in PrefixesOf(rest) && x == [p[0]] + y;
      var i :| 0 <= i <= |rest| && y == rest[..i];
      assert x == p[..i + 1];
    }
    assert [] == p[..0];
  }

  /** Nodes are created lazily: inserting `p` adds exactly the nodes on the
      path of `p` that were missing, and no others. */
  lemma {:induction false} InsertPaths(t: Trie, p: Key)
    ensures Paths(Insert(t, p)) == Paths(t) + PrefixesOf(p)
    decreases |p|
  {
    var n := if t.Leaf? then Empty() else t;
    assert Paths(n) == Paths(t) + {[]};
    if |p| == 0 {
      assert PrefixesOf(p) == {[]} by {
        assert p[..0] == [];
      }
    } else {
      PrefixesOfCons(p);
      var rest := p[1..];
      if p[0] {
        InsertPaths(n.one, rest);
        UnderUnion(true, Paths(n.one), PrefixesOf(rest));
      } else {
        InsertPaths(n.zero, rest);
        UnderUnion(false, Paths(n.zero), PrefixesOf(rest));
      }
    }
  }
}
