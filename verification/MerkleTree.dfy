/**
 The radix-16 Merkle prefix tree over the ids of the CRDT store.

 A tree is a table with one row per prefix that occurs among the stored ids. The
 reference definition is `SubtreeHash`, which reads a node's hash off the id set;
 `PathUpdate` is the incremental recomputation of one root-to-leaf path. SHA-256
 (FIPS 180-4, section 6.2) is a parameter: any total function from payloads to
 64 hexadecimal characters. It is never assumed to be injective.
 */
module MerkleTree {

  const ID_HEX_LENGTH: nat := 64
  const FANOUT: nat := 16
  const EMPTY_MARKER := "cks-crdt-merkle-empty-subtree"

  predicate IsNibble(c: char) {
    '0' <= c <= '9' || 'a' <= c <= 'f'
  }

  // The characters 0..9, a..f in order.
  function Nibble(i: nat): (c: char)
    requires i < FANOUT
    ensures IsNibble(c)
  {
    if i < 10 then '0' + i as char else 'a' + (i - 10) as char
  }

  predicate IsDigest(s: string) {
    |s| == ID_HEX_LENGTH && forall i :: 0 <= i < |s| ==> IsNibble(s[i])
  }

  type Digest = s: string | IsDigest(s) witness seq(ID_HEX_LENGTH, i => '0')
  type Sha = string -> Digest

  // A table row: prefix_path is the key of the map that holds it.
  datatype Row = Row(level: nat, hash: Digest)
  type Table = map<string, Row>

  function EmptySubtreeHash(sha: Sha): Digest {
    sha(EMPTY_MARKER)
  }

  function Join(parts: seq<Digest>): string {
    if parts == [] then "" else parts[0] + Join(parts[1..])
  }

  function NodePayload(prefix: string, children: seq<Digest>): string {
    prefix + Join(children)
  }

  function NodeHash(sha: Sha, prefix: string, children: seq<Digest>): Digest {
    sha(NodePayload(prefix, children))
  }

  function Lookup(sha: Sha, rows: Table, prefix: string): Digest {
    if prefix in rows then rows[prefix].hash else EmptySubtreeHash(sha)
  }

  function ChildOf(sha: Sha, rows: Table, prefix: string, i: nat): Digest
    requires i < FANOUT
  {
    var child := prefix + [Nibble(i)];
    if child in rows && rows[child].level == |prefix| + 1 then rows[child].hash else EmptySubtreeHash(sha)
  }

  // The child query filters on the level column before it looks the path up.
  function ChildrenOf(sha: Sha, rows: Table, prefix: string): (children: seq<Digest>) {
    seq(FANOUT, i requires 0 <= i < FANOUT => ChildOf(sha, rows, prefix, i))
  }

  // ---------------------------------------------------------------------
  // The reference definition
  // ---------------------------------------------------------------------

  ghost predicate Occurs(ids: set<Digest>, prefix: string) {
    exists x :: x in ids && prefix <= x
  }

  ghost function SubtreeHash(sha: Sha, ids: set<Digest>, prefix: string): Digest
    decreases ID_HEX_LENGTH - |prefix|
  {
    if |prefix| >= ID_HEX_LENGTH then
      if prefix in ids then prefix else EmptySubtreeHash(sha)
    else if Occurs(ids, prefix) then
      NodeHash(sha, prefix, ChildHashes(sha, ids, prefix))
    else
      EmptySubtreeHash(sha)
  }

  ghost function ChildHashes(sha: Sha, ids: set<Digest>, prefix: string): (children: seq<Digest>)
    requires |prefix| < ID_HEX_LENGTH
    ensures |children| == FANOUT
    ensures forall i :: 0 <= i < FANOUT ==> children[i] == SubtreeHash(sha, ids, prefix + [Nibble(i)])
    decreases ID_HEX_LENGTH - |prefix|, 0
  {
    seq(FANOUT, i requires 0 <= i < FANOUT => SubtreeHash(sha, ids, prefix + [Nibble(i)]))
  }

  /** A leaf is its id, a place without ids has the hash of the fixed marker, and so has the empty store. */
  lemma LeavesAndGaps(sha: Sha, ids: set<Digest>, id: Digest, prefix: string)
    ensures id in ids ==> SubtreeHash(sha, ids, id) == id
    ensures (forall x :: x in ids ==> !(prefix <= x)) ==>
              SubtreeHash(sha, ids, prefix) == sha("cks-crdt-merkle-empty-subtree")
    ensures SubtreeHash(sha, {}, "") == sha("cks-crdt-merkle-empty-subtree")
  {
  }

  // The table holds exactly the nodes of `ids`: a row per occurring prefix, nothing else.
  ghost predicate IsTree(sha: Sha, rows: Table, ids: set<Digest>) {
    forall p :: NodeMatches(sha, rows, ids, p)
  }

  ghost predicate NodeMatches(sha: Sha, rows: Table, ids: set<Digest>, p: string) {
    if Occurs(ids, p) then p in rows && rows[p] == Row(|p|, SubtreeHash(sha, ids, p)) else p !in rows
  }

  lemma TreeIsUnique(sha: Sha, a: Table, b: Table, ids: set<Digest>)
    requires IsTree(sha, a, ids) && IsTree(sha, b, ids)
    ensures a == b
  {
    forall p
      ensures p in a <==> p in b
      ensures p in a && p in b ==> a[p] == b[p]
    {
      assert NodeMatches(sha, a, ids, p) && NodeMatches(sha, b, ids, p);
    }
  }

  /** Reading a tree's table with the empty default is reading the reference tree, at every path. */
  lemma LookupIsSubtreeHash(sha: Sha, rows: Table, ids: set<Digest>, prefix: string)
    requires IsTree(sha, rows, ids)
    ensures Lookup(sha, rows, prefix) == SubtreeHash(sha, ids, prefix)
  {
    assert NodeMatches(sha, rows, ids, prefix);
    if prefix in ids { assert prefix <= prefix; }
  }

  ghost predicate SameIdsBelow(s: set<Digest>, t: set<Digest>, prefix: string) {
    forall x: Digest :: prefix <= x ==> (x in s <==> x in t)
  }

  /** A subtree only depends on the ids below it. */
  lemma {:induction false} SubtreeDependsOnIdsBelow(sha: Sha, s: set<Digest>, t: set<Digest>, prefix: string)
    requires SameIdsBelow(s, t, prefix)
    ensures SubtreeHash(sha, s, prefix) == SubtreeHash(sha, t, prefix)
    decreases ID_HEX_LENGTH - |prefix|
  {
    if |prefix| >= ID_HEX_LENGTH {
      if prefix in s || prefix in t { assert IsDigest(prefix) && prefix <= prefix; }
    } else {
      assert Occurs(s, prefix) <==> Occurs(t, prefix);
      forall i | 0 <= i < FANOUT
        ensures ChildHashes(sha, s, prefix)[i] == ChildHashes(sha, t, prefix)[i]
      {
        var child := prefix + [Nibble(i)];
        forall x: Digest | child <= x ensures x in s <==> x in t { assert prefix <= x; }
        SubtreeDependsOnIdsBelow(sha, s, t, child);
      }
      assert ChildHashes(sha, s, prefix) == ChildHashes(sha, t, prefix);
    }
  }

  // ---------------------------------------------------------------------
  // Incremental path recomputation
  // ---------------------------------------------------------------------

  // Rewrites one inner node from the rows below it.
  function Rehashed(sha: Sha, rows: Table, prefix: string): Table {
    rows[prefix := Row(|prefix|, NodeHash(sha, prefix, ChildrenOf(sha, rows, prefix)))]
  }

  // Rewrites the nodes id[..level-1], ..., id[..0], each from the rows below it.
  function Climb(sha: Sha, rows: Table, id: Digest, level: nat): Table
    requires level <= ID_HEX_LENGTH
    decreases level, |id|
  {
    if level == 0 then rows else Climb(sha, Rehashed(sha, rows, id[..level - 1]), id, level - 1)
  }

  function PathUpdate(sha: Sha, rows: Table, id: Digest): Table {
    Climb(sha, rows[id := Row(ID_HEX_LENGTH, id)], id, ID_HEX_LENGTH)
  }

  lemma {:induction false} ClimbFrame(sha: Sha, rows: Table, id: Digest, level: nat, p: string)
    requires level <= ID_HEX_LENGTH
    requires |p| >= level || !(p <= id)
    ensures p in Climb(sha, rows, id, level) <==> p in rows
    ensures p in rows ==> Climb(sha, rows, id, level)[p] == rows[p]
    decreases level
  {
    if level > 0 {
      var prefix := id[..level - 1];
      assert p != prefix;
      ClimbFrame(sha, Rehashed(sha, rows, prefix), id, level - 1, p);
    }
  }

  /** On any table at all, a path update leaves every node off the path as it was. */
  lemma PathUpdateTouchesOnlyThePath(sha: Sha, rows: Table, id: Digest, p: string)
    requires !(p <= id)
    ensures p in PathUpdate(sha, rows, id) <==> p in rows
    ensures p in rows ==> PathUpdate(sha, rows, id)[p] == rows[p]
  {
    ClimbFrame(sha, rows[id := Row(ID_HEX_LENGTH, id)], id, ID_HEX_LENGTH, p);
  }

  // Halfway up: the tree of `t` from `level` down to the leaf, still the tree of `s` above.
  ghost predicate Halfway(sha: Sha, rows: Table, s: set<Digest>, t: set<Digest>, level: nat) {
    && (forall p :: |p| >= level ==> NodeMatches(sha, rows, t, p))
    && (forall p :: |p| < level ==> NodeMatches(sha, rows, s, p))
  }

  lemma ChildrenBelow(sha: Sha, rows: Table, s: set<Digest>, t: set<Digest>, prefix: string)
    requires |prefix| < ID_HEX_LENGTH && Halfway(sha, rows, s, t, |prefix| + 1)
    ensures ChildrenOf(sha, rows, prefix) == ChildHashes(sha, t, prefix)
  {
    forall i | 0 <= i < FANOUT ensures ChildrenOf(sha, rows, prefix)[i] == ChildHashes(sha, t, prefix)[i]
    {
      var child := prefix + [Nibble(i)];
      assert NodeMatches(sha, rows, t, child);
      if child in t { assert child <= child; }
    }
  }

  lemma OffPathNode(sha: Sha, rows: Table, s: set<Digest>, id: Digest, p: string)
    requires !(p <= id) && NodeMatches(sha, rows, s, p)
    ensures NodeMatches(sha, rows, s + {id}, p)
  {
    assert Occurs(s, p) <==> Occurs(s + {id}, p);
    SubtreeDependsOnIdsBelow(sha, s, s + {id}, p);
  }

  // Whether a node is right depends on its own row only.
  lemma NodeFrame(sha: Sha, rows: Table, next: Table, ids: set<Digest>, p: string)
    requires NodeMatches(sha, rows, ids, p)
    requires (p in rows <==> p in next) && (p in rows && p in next ==> rows[p] == next[p])
    ensures NodeMatches(sha, next, ids, p)
  {
  }

  lemma OnPathNode(sha: Sha, rows: Table, s: set<Digest>, id: Digest, level: nat)
    requires level < ID_HEX_LENGTH && Halfway(sha, rows, s, s + {id}, level + 1)
    ensures NodeMatches(sha, Rehashed(sha, rows, id[..level]), s + {id}, id[..level])
  {
    ChildrenBelow(sha, rows, s, s + {id}, id[..level]);
    assert id in s + {id} && id[..level] <= id;
  }

  lemma HalfwayStep(sha: Sha, rows: Table, s: set<Digest>, id: Digest, level: nat)
    requires level < ID_HEX_LENGTH && Halfway(sha, rows, s, s + {id}, level + 1)
    ensures Halfway(sha, Rehashed(sha, rows, id[..level]), s, s + {id}, level)
  {
    var prefix, t := id[..level], s + {id};
    var next := Rehashed(sha, rows, prefix);
    OnPathNode(sha, rows, s, id, level);
    forall p | |p| >= level ensures NodeMatches(sha, next, t, p) {
      if p != prefix {
        if |p| == level { OffPathNode(sha, rows, s, id, p); }
        NodeFrame(sha, rows, next, t, p);
      }
    }
    forall p | |p| < level ensures NodeMatches(sha, next, s, p) {
      NodeFrame(sha, rows, next, s, p);
    }
  }

  lemma {:induction false} ClimbFromHalfway(sha: Sha, rows: Table, s: set<Digest>, id: Digest, level: nat)
    requires level <= ID_HEX_LENGTH && Halfway(sha, rows, s, s + {id}, level)
    ensures IsTree(sha, Climb(sha, rows, id, level), s + {id})
    decreases level
  {
    if level > 0 {
      HalfwayStep(sha, rows, s, id, level - 1);
      ClimbFromHalfway(sha, Rehashed(sha, rows, id[..level - 1]), s, id, level - 1);
    }
  }

  lemma LeafIsHalfway(sha: Sha, rows: Table, s: set<Digest>, id: Digest)
    requires IsTree(sha, rows, s)
    ensures Halfway(sha, rows[id := Row(ID_HEX_LENGTH, id)], s, s + {id}, ID_HEX_LENGTH)
  {
    var t, next := s + {id}, rows[id := Row(ID_HEX_LENGTH, id)];
    forall p | |p| >= ID_HEX_LENGTH ensures NodeMatches(sha, next, t, p) {
      if p == id {
        assert id in t && id <= id;
      } else {
        assert NodeMatches(sha, rows, s, p);
        OffPathNode(sha, rows, s, id, p);
      }
    }
    forall p | |p| < ID_HEX_LENGTH ensures NodeMatches(sha, next, s, p) {
      assert NodeMatches(sha, rows, s, p);
    }
  }

  /** The 65-node path update turns the tree of `ids` into the tree of `ids + {id}`, node for node. */
  lemma PathUpdateIsRebuild(sha: Sha, rows: Table, ids: set<Digest>, id: Digest)
    requires IsTree(sha, rows, ids)
    ensures IsTree(sha, PathUpdate(sha, rows, id), ids + {id})
  {
    LeafIsHalfway(sha, rows, ids, id);
    ClimbFromHalfway(sha, rows[id := Row(ID_HEX_LENGTH, id)], ids, id, ID_HEX_LENGTH);
  }

  // Inserting the ids one after the other, in the given order.
  function PathUpdates(sha: Sha, rows: Table, ids: seq<Digest>): Table
    decreases |ids|
  {
    if ids == [] then rows else PathUpdates(sha, PathUpdate(sha, rows, ids[0]), ids[1..])
  }

  /** Any sequence of inserts, repeats included, leaves the tree rebuilt from the set of ids. */
  lemma {:induction false} InsertsAreRebuild(sha: Sha, rows: Table, ids: set<Digest>, more: seq<Digest>)
    requires IsTree(sha, rows, ids)
    ensures IsTree(sha, PathUpdates(sha, rows, more), ids + set x | x in more)
    decreases |more|
  {
    if more == [] {
      assert ids + (set x | x in more) == ids;
    } else {
      PathUpdateIsRebuild(sha, rows, ids, more[0]);
      InsertsAreRebuild(sha, PathUpdate(sha, rows, more[0]), ids + {more[0]}, more[1..]);
      assert ids + {more[0]} + (set x | x in more[1..]) == ids + (set x | x in more);
    }
  }

  /** Running the path update of a stored id again changes nothing. */
  lemma PathUpdateIdempotent(sha: Sha, rows: Table, ids: set<Digest>, id: Digest)
    requires IsTree(sha, rows, ids) && id in ids
    ensures PathUpdate(sha, rows, id) == rows
  {
    PathUpdateIsRebuild(sha, rows, ids, id);
    assert ids + {id} == ids;
    TreeIsUnique(sha, PathUpdate(sha, rows, id), rows, ids);
  }

  // ---------------------------------------------------------------------
  // What a root hash binds
  // ---------------------------------------------------------------------

  lemma {:induction false} JoinLength(parts: seq<Digest>)
    ensures |Join(parts)| == ID_HEX_LENGTH * |parts|
  {
    if parts != [] { JoinLength(parts[1..]); }
  }

  lemma {:induction false} JoinAt(parts: seq<Digest>, i: nat)
    requires i < |parts|
    ensures |Join(parts)| == ID_HEX_LENGTH * |parts|
    ensures Join(parts)[ID_HEX_LENGTH * i..ID_HEX_LENGTH * (i + 1)] == parts[i]
  {
    JoinLength(parts);
    if i > 0 {
      JoinAt(parts[1..], i - 1);
      var at := ID_HEX_LENGTH * (i - 1);
      assert Join(parts)[ID_HEX_LENGTH..] == Join(parts[1..]);
      assert Join(parts)[ID_HEX_LENGTH + at..ID_HEX_LENGTH + at + ID_HEX_LENGTH] ==
             Join(parts[1..])[at..at + ID_HEX_LENGTH];
    }
  }

  /** What is hashed for a node: its prefix, then the child hashes, 64 characters each, in order of their nibbles. */
  lemma PayloadLayout(prefix: string, children: seq<Digest>, i: nat)
    requires i < |children|
    ensures var payload := NodePayload(prefix, children);
            && |payload| == |prefix| + 64 * |children| && payload[..|prefix|] == prefix
            && payload[|prefix| + 64 * i..|prefix| + 64 * (i + 1)] == children[i]
  {
    JoinAt(children, i);
    assert NodePayload(prefix, children)[|prefix|..] == Join(children);
  }

  lemma NibblesInOrder(i: nat, j: nat)
    requires i < j < 16
    ensures '0' <= Nibble(i) < Nibble(j) <= 'f' && Nibble(0) == '0' && Nibble(9) == '9' && Nibble(10) == 'a'
  {
  }

  lemma {:induction false} JoinInjective(a: seq<Digest>, b: seq<Digest>)
    requires |a| == |b| && Join(a) == Join(b)
    ensures a == b
  {
    if a != [] {
      assert a[0] == Join(a)[..ID_HEX_LENGTH] == Join(b)[..ID_HEX_LENGTH] == b[0];
      assert Join(a[1..]) == Join(a)[ID_HEX_LENGTH..] == Join(b)[ID_HEX_LENGTH..] == Join(b[1..]);
      JoinInjective(a[1..], b[1..]);
    }
  }

  /** The hashed payload decodes in one way: sixteen fixed-length hashes behind a prefix. */
  lemma PayloadDecodes(p: string, a: seq<Digest>, q: string, b: seq<Digest>)
    requires |a| == |b|
    requires NodePayload(p, a) == NodePayload(q, b)
    ensures p == q && a == b
  {
    JoinLength(a);
    JoinLength(b);
    assert p == NodePayload(p, a)[..|p|] == NodePayload(q, b)[..|p|] == q;
    assert Join(a) == NodePayload(p, a)[|p|..] == NodePayload(q, b)[|p|..] == Join(b);
    JoinInjective(a, b);
  }

  // Every string that is hashed while the tree of `ids` is built.
  ghost predicate IsPayload(sha: Sha, ids: set<Digest>, payload: string) {
    payload == EMPTY_MARKER ||
    exists p :: |p| < ID_HEX_LENGTH && Occurs(ids, p) && payload == NodePayload(p, ChildHashes(sha, ids, p))
  }

  // Two different payloads of the two trees with one digest.
  ghost predicate Collision(sha: Sha, s: set<Digest>, t: set<Digest>, a: string, b: string) {
    IsPayload(sha, s, a) && IsPayload(sha, t, b) && a != b && sha(a) == sha(b)
  }

  ghost predicate Collide(sha: Sha, s: set<Digest>, t: set<Digest>) {
    exists a, b :: Collision(sha, s, t, a, b)
  }

  ghost function PayloadAt(sha: Sha, ids: set<Digest>, prefix: string): (payload: string)
    requires |prefix| < ID_HEX_LENGTH
    ensures IsPayload(sha, ids, payload) && sha(payload) == SubtreeHash(sha, ids, prefix)
    ensures payload == EMPTY_MARKER || payload == NodePayload(prefix, ChildHashes(sha, ids, prefix))
    ensures payload != EMPTY_MARKER ==> Occurs(ids, prefix)
  {
    if Occurs(ids, prefix) then NodePayload(prefix, ChildHashes(sha, ids, prefix)) else EMPTY_MARKER
  }

  lemma NodePayloadIsNotTheMarker(sha: Sha, ids: set<Digest>, prefix: string)
    requires |prefix| < ID_HEX_LENGTH
    ensures NodePayload(prefix, ChildHashes(sha, ids, prefix)) != EMPTY_MARKER
  {
    JoinLength(ChildHashes(sha, ids, prefix));
  }

  lemma NextNibble(x: Digest, prefix: string) returns (i: nat)
    requires prefix <= x && |prefix| < ID_HEX_LENGTH
    ensures i < FANOUT && prefix + [Nibble(i)] <= x
  {
    var c := x[|prefix|];
    i := if c <= '9' then (c - '0') as nat else (c - 'a') as nat + 10;
  }

  lemma FullPrefixIsTheId(prefix: string, x: Digest)
    requires prefix <= x && |prefix| >= ID_HEX_LENGTH
    ensures prefix == x
  {
    assert prefix == x[..|prefix|];
  }

  lemma SamePayloadSameChildren(sha: Sha, s: set<Digest>, t: set<Digest>, prefix: string)
    requires |prefix| < ID_HEX_LENGTH && Occurs(s, prefix)
    requires PayloadAt(sha, s, prefix) == PayloadAt(sha, t, prefix)
    ensures Occurs(t, prefix) && ChildHashes(sha, s, prefix) == ChildHashes(sha, t, prefix)
  {
    NodePayloadIsNotTheMarker(sha, s, prefix);
    PayloadDecodes(prefix, ChildHashes(sha, s, prefix), prefix, ChildHashes(sha, t, prefix));
  }

  // Equal hashes, but an id that only one side has: unless it is the marker id, two payloads collide.
  lemma {:induction false} SubtreeBinds(sha: Sha, s: set<Digest>, t: set<Digest>, prefix: string, x: Digest)
    requires SubtreeHash(sha, s, prefix) == SubtreeHash(sha, t, prefix)
    requires prefix <= x && x in s && x !in t && x != EmptySubtreeHash(sha)
    ensures Collide(sha, s, t)
    decreases ID_HEX_LENGTH - |prefix|
  {
    if |prefix| >= ID_HEX_LENGTH {
      FullPrefixIsTheId(prefix, x);
      assert false;
    } else {
      var a, b := PayloadAt(sha, s, prefix), PayloadAt(sha, t, prefix);
      if a != b {
        assert Collision(sha, s, t, a, b);
      } else {
        assert Occurs(s, prefix);
        SamePayloadSameChildren(sha, s, t, prefix);
        var i := NextNibble(x, prefix);
        assert ChildHashes(sha, s, prefix)[i] == ChildHashes(sha, t, prefix)[i];
        SubtreeBinds(sha, s, t, prefix + [Nibble(i)], x);
      }
    }
  }

  // Another id of the set shares the marker hash's parent node.
  ghost predicate HasSibling(sha: Sha, ids: set<Digest>) {
    exists y :: y in ids && IsSibling(sha, y)
  }

  predicate IsSibling(sha: Sha, y: Digest) {
    y != EmptySubtreeHash(sha) && y[..ID_HEX_LENGTH - 1] == EmptySubtreeHash(sha)[..ID_HEX_LENGTH - 1]
  }

  lemma SiblingSharesPrefixes(sha: Sha, y: Digest, prefix: string)
    requires IsSibling(sha, y) && |prefix| < ID_HEX_LENGTH
    ensures prefix <= y <==> prefix <= EmptySubtreeHash(sha)
  {
    var e := EmptySubtreeHash(sha);
    assert y[..|prefix|] == y[..ID_HEX_LENGTH - 1][..|prefix|];
    assert e[..|prefix|] == e[..ID_HEX_LENGTH - 1][..|prefix|];
  }

  // Next to a sibling the marker id changes no node of the tree, at any path.
  lemma {:induction false} MarkerAddsNothing(sha: Sha, ids: set<Digest>, prefix: string)
    requires HasSibling(sha, ids)
    ensures SubtreeHash(sha, ids, prefix) == SubtreeHash(sha, ids + {EmptySubtreeHash(sha)}, prefix)
    decreases ID_HEX_LENGTH - |prefix|
  {
    if |prefix| < ID_HEX_LENGTH {
      var more := ids + {EmptySubtreeHash(sha)};
      var y :| y in ids && IsSibling(sha, y);
      SiblingSharesPrefixes(sha, y, prefix);
      assert Occurs(ids, prefix) <==> Occurs(more, prefix);
      forall i | 0 <= i < FANOUT ensures ChildHashes(sha, ids, prefix)[i] == ChildHashes(sha, more, prefix)[i] {
        MarkerAddsNothing(sha, ids, prefix + [Nibble(i)]);
      }
      assert ChildHashes(sha, ids, prefix) == ChildHashes(sha, more, prefix);
    }
  }

  lemma SiblingFound(sha: Sha, ids: set<Digest>, prefix: string)
    requires prefix <= EmptySubtreeHash(sha) && |prefix| == ID_HEX_LENGTH - 1
    requires Occurs(ids, prefix) && EmptySubtreeHash(sha) !in ids
    ensures HasSibling(sha, ids)
  {
    var y :| y in ids && prefix <= y;
    assert prefix == EmptySubtreeHash(sha)[..ID_HEX_LENGTH - 1] == y[..ID_HEX_LENGTH - 1];
    assert IsSibling(sha, y);
  }

  // Without a sibling the marker id shows in every node above it, or two payloads collide.
  lemma {:induction false} MarkerShows(sha: Sha, s: set<Digest>, t: set<Digest>, prefix: string)
    requires SubtreeHash(sha, s, prefix) == SubtreeHash(sha, t, prefix)
    requires prefix <= EmptySubtreeHash(sha) && |prefix| < ID_HEX_LENGTH
    requires EmptySubtreeHash(sha) in s && EmptySubtreeHash(sha) !in t
    ensures Collide(sha, s, t) || HasSibling(sha, t)
    decreases ID_HEX_LENGTH - |prefix|
  {
    var e := EmptySubtreeHash(sha);
    var a, b := PayloadAt(sha, s, prefix), PayloadAt(sha, t, prefix);
    assert Occurs(s, prefix);
    if a != b {
      assert Collision(sha, s, t, a, b);
      return;
    }
    SamePayloadSameChildren(sha, s, t, prefix);
    if |prefix| == ID_HEX_LENGTH - 1 {
      SiblingFound(sha, t, prefix);
    } else {
      var i := NextNibble(e, prefix);
      assert ChildHashes(sha, s, prefix)[i] == ChildHashes(sha, t, prefix)[i];
      MarkerShows(sha, s, t, prefix + [Nibble(i)]);
    }
  }

  // The one way two different sets can look alike below a prefix: they differ in the marker id only, and it
  // is the prefix itself or has a sibling on both sides.
  ghost predicate DifferInvisibly(sha: Sha, s: set<Digest>, t: set<Digest>, prefix: string) {
    && SameIdsBelow(s + {EmptySubtreeHash(sha)}, t + {EmptySubtreeHash(sha)}, prefix)
    && (|prefix| >= ID_HEX_LENGTH || (HasSibling(sha, s) && HasSibling(sha, t)))
  }

  lemma AllButTheMarkerAgree(sha: Sha, s: set<Digest>, t: set<Digest>, prefix: string)
    requires SubtreeHash(sha, s, prefix) == SubtreeHash(sha, t, prefix)
    requires !Collide(sha, s, t) && !Collide(sha, t, s)
    ensures SameIdsBelow(s + {EmptySubtreeHash(sha)}, t + {EmptySubtreeHash(sha)}, prefix)
  {
    var e := EmptySubtreeHash(sha);
    forall x: Digest | prefix <= x ensures x in s + {e} <==> x in t + {e} {
      if x != e && x in s && x !in t { SubtreeBinds(sha, s, t, prefix, x); }
      if x != e && x in t && x !in s { SubtreeBinds(sha, t, s, prefix, x); }
    }
  }

  lemma EqualHashesMean(sha: Sha, s: set<Digest>, t: set<Digest>, prefix: string)
    requires SubtreeHash(sha, s, prefix) == SubtreeHash(sha, t, prefix)
    requires !Collide(sha, s, t) && !Collide(sha, t, s)
    ensures SameIdsBelow(s, t, prefix) || DifferInvisibly(sha, s, t, prefix)
  {
    var e := EmptySubtreeHash(sha);
    AllButTheMarkerAgree(sha, s, t, prefix);
    if !SameIdsBelow(s, t, prefix) && |prefix| < ID_HEX_LENGTH {
      var x: Digest :| prefix <= x && (x in s <==> x !in t);
      assert x == e by { assert x in s + {e} <==> x in t + {e}; }
      if e in s { MarkerShows(sha, s, t, prefix); } else { MarkerShows(sha, t, s, prefix); }
      SiblingsAgree(sha, s, t, prefix);
    }
  }

  lemma SiblingsAgree(sha: Sha, s: set<Digest>, t: set<Digest>, prefix: string)
    requires prefix <= EmptySubtreeHash(sha) && |prefix| < ID_HEX_LENGTH
    requires SameIdsBelow(s + {EmptySubtreeHash(sha)}, t + {EmptySubtreeHash(sha)}, prefix)
    ensures HasSibling(sha, s) <==> HasSibling(sha, t)
  {
    forall y: Digest | IsSibling(sha, y) ensures y in s <==> y in t {
      SiblingSharesPrefixes(sha, y, prefix);
      assert y in s + {EmptySubtreeHash(sha)} <==> y in t + {EmptySubtreeHash(sha)};
    }
  }

  lemma InvisibleDifferenceHides(sha: Sha, s: set<Digest>, t: set<Digest>, prefix: string)
    requires DifferInvisibly(sha, s, t, prefix)
    ensures SubtreeHash(sha, s, prefix) == SubtreeHash(sha, t, prefix)
  {
    var e := EmptySubtreeHash(sha);
    if |prefix| >= ID_HEX_LENGTH {
      if IsDigest(prefix) {
        assert prefix <= prefix;
        assert prefix in s + {e} <==> prefix in t + {e};
      }
    } else {
      MarkerAddsNothing(sha, s, prefix);
      MarkerAddsNothing(sha, t, prefix);
      SubtreeDependsOnIdsBelow(sha, s + {e}, t + {e}, prefix);
    }
  }

  /**
   Equal hashes at a prefix, as gossip compares them. Unless SHA-256 collides on payloads of the two trees, they
   mean the same ids below the prefix, up to a marker id that is the prefix itself or has a sibling. Both ways.
   */
  lemma SubtreeHashBindsIff(sha: Sha, s: set<Digest>, t: set<Digest>, prefix: string)
    requires !Collide(sha, s, t) && !Collide(sha, t, s)
    ensures SubtreeHash(sha, s, prefix) == SubtreeHash(sha, t, prefix) <==>
            SameIdsBelow(s, t, prefix) || DifferInvisibly(sha, s, t, prefix)
  {
    if SubtreeHash(sha, s, prefix) == SubtreeHash(sha, t, prefix) {
      EqualHashesMean(sha, s, t, prefix);
    } else if SameIdsBelow(s, t, prefix) {
      SubtreeDependsOnIdsBelow(sha, s, t, prefix);
    } else if DifferInvisibly(sha, s, t, prefix) {
      InvisibleDifferenceHides(sha, s, t, prefix);
    }
  }

  lemma AllIdsBelowTheRoot(s: set<Digest>, t: set<Digest>)
    ensures SameIdsBelow(s, t, "") <==> s == t
  {
    if SameIdsBelow(s, t, "") {
      forall x ensures x in s <==> x in t {
        if x in s || x in t { assert "" <= x; }
      }
    }
  }

  /**
   Equal root hashes, unless SHA-256 collides: exactly when the sets are equal, or differ in the marker id alone
   while it has a sibling in both.
   */
  lemma RootHashBindsIff(sha: Sha, s: set<Digest>, t: set<Digest>)
    requires !Collide(sha, s, t) && !Collide(sha, t, s)
    ensures var e := EmptySubtreeHash(sha);
            SubtreeHash(sha, s, "") == SubtreeHash(sha, t, "") <==>
            s == t || (s + {e} == t + {e} && HasSibling(sha, s) && HasSibling(sha, t))
  {
    SubtreeHashBindsIff(sha, s, t, "");
    AllIdsBelowTheRoot(s, t);
    AllIdsBelowTheRoot(s + {EmptySubtreeHash(sha)}, t + {EmptySubtreeHash(sha)});
  }

  /** A set and the same set with the marker id have one root hash exactly next to a sibling, or on a collision. */
  lemma MarkerIdIsInvisible(sha: Sha, ids: set<Digest>)
    requires EmptySubtreeHash(sha) !in ids
    ensures var more := ids + {EmptySubtreeHash(sha)};
            && (HasSibling(sha, ids) ==> SubtreeHash(sha, ids, "") == SubtreeHash(sha, more, ""))
            && (SubtreeHash(sha, ids, "") == SubtreeHash(sha, more, "") ==>
                  HasSibling(sha, ids) || Collide(sha, more, ids))
  {
    var more := ids + {EmptySubtreeHash(sha)};
    if HasSibling(sha, ids) { MarkerAddsNothing(sha, ids, ""); }
    if SubtreeHash(sha, ids, "") == SubtreeHash(sha, more, "") {
      assert "" <= EmptySubtreeHash(sha);
      MarkerShows(sha, more, ids, "");
    }
  }
}
