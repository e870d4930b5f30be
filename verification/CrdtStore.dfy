/**
 The grow-only set of knowledge objects, in its two synchronous backends: the one that keeps
 a table of tree nodes up to date on every insert, and the one that rebuilds all nodes on read.
 */
module CrdtStore {
  import opened Basics
  import opened MerkleTree
  import opened Knowledge

  datatype Error = TypeError | ObjectIdentityMismatch | ValueError
  type Result<T> = Basics.Result<T, Error>

  // What the core's leaf hash covers.
  datatype Content = Content(id: string, kind: string, name: string, structure: Structure)
  type LeafHash = Content -> Digest

  // What a caller may hand to the store: a live object of the core, a dict record with the id it claims (its
  // content is None when identity or structure are missing or malformed), or anything else.
  datatype Payload =
    | LiveObject(content: Content)
    | DictRecord(claimedId: string, record: Option<Content>)
    | Unrecognised

  type Objects = map<Digest, Content>

  function ContentOf(p: Payload): Option<Content> {
    match p
    case LiveObject(content) => Some(content)
    case DictRecord(_, record) => record
    case Unrecognised => None
  }

  /**
   A claimed id is never trusted: every accepted payload gets the hash of its own content, and each refusal says
   why.
   */
  function ObjectIdFor(leafHash: LeafHash, p: Payload): (r: Result<Digest>)
    ensures r.Ok? <==> ContentOf(p).Some? && (p.DictRecord? ==> p.claimedId == leafHash(ContentOf(p).value))
    ensures r.Ok? ==> r.value == leafHash(ContentOf(p).value)
    ensures r == Err(TypeError) <==> ContentOf(p).None?
    ensures r.Ok? || r == Err(TypeError) || r == Err(ObjectIdentityMismatch)
  {
    match p
    case LiveObject(content) => Ok(leafHash(content))
    case DictRecord(claimedId, record) =>
      if record.None? then Err(TypeError)
      else if leafHash(record.value) != claimedId then Err(ObjectIdentityMismatch)
      else Ok(leafHash(record.value))
    case Unrecognised => Err(TypeError)
  }

  function Added(leafHash: LeafHash, objects: Objects, p: Payload): Objects {
    var id := ObjectIdFor(leafHash, p);
    if id.Err? || id.value in objects then objects else objects[id.value := ContentOf(p).value]
  }

  function Merged(leafHash: LeafHash, objects: Objects, batch: seq<Payload>): Objects
    decreases |batch|
  {
    if batch == [] then objects else Merged(leafHash, Added(leafHash, objects, batch[0]), batch[1..])
  }

  ghost function ValidIds(leafHash: LeafHash, batch: seq<Payload>): set<Digest> {
    set p | p in batch && ObjectIdFor(leafHash, p).Ok? :: ObjectIdFor(leafHash, p).value
  }

  /** One bad object costs no other: a batch adds exactly the ids of its valid members and overwrites nothing. */
  lemma {:induction false} MergedKeys(leafHash: LeafHash, objects: Objects, batch: seq<Payload>)
    ensures Merged(leafHash, objects, batch).Keys == objects.Keys + ValidIds(leafHash, batch)
    ensures forall id :: id in objects ==> Merged(leafHash, objects, batch)[id] == objects[id]
    decreases |batch|
  {
    if batch == [] {
      assert ValidIds(leafHash, batch) == {};
    } else {
      MergedKeys(leafHash, Added(leafHash, objects, batch[0]), batch[1..]);
      assert forall p :: p in batch <==> p == batch[0] || p in batch[1..];
      assert Added(leafHash, objects, batch[0]).Keys ==
        objects.Keys + if ObjectIdFor(leafHash, batch[0]).Ok? then {ObjectIdFor(leafHash, batch[0]).value} else {};
    }
  }

  lemma {:induction false} MergedConcat(leafHash: LeafHash, objects: Objects, a: seq<Payload>, b: seq<Payload>)
    ensures Merged(leafHash, Merged(leafHash, objects, a), b) == Merged(leafHash, objects, a + b)
    decreases |a|
  {
    if a == [] {
      assert a + b == b;
    } else {
      MergedConcat(leafHash, Added(leafHash, objects, a[0]), a[1..], b);
      assert (a + b)[1..] == a[1..] + b;
    }
  }

  // Every object is stored under the hash of its own content.
  ghost predicate ContentAddressed(leafHash: LeafHash, objects: Objects) {
    forall id :: id in objects ==> leafHash(objects[id]) == id
  }

  lemma {:induction false} MergedIsContentAddressed(leafHash: LeafHash, objects: Objects, batch: seq<Payload>)
    requires ContentAddressed(leafHash, objects)
    ensures ContentAddressed(leafHash, Merged(leafHash, objects, batch))
    decreases |batch|
  {
    if batch != [] {
      MergedIsContentAddressed(leafHash, Added(leafHash, objects, batch[0]), batch[1..]);
    }
  }

  // Two different contents with one leaf hash.
  ghost predicate LeavesCollide(leafHash: LeafHash, a: Content, b: Content) {
    a != b && leafHash(a) == leafHash(b)
  }

  /**
   Two replicas that received the same objects, in any order and batching, with any repeats, show one root hash, and
   hold the same contents unless the leaf hash collides on two of them.
   */
  lemma DeliveryOrderDoesNotMatter(sha: Sha, leafHash: LeafHash, a: seq<Payload>, b: seq<Payload>)
    requires forall p :: p in a <==> p in b
    ensures var left, right := Merged(leafHash, map[], a), Merged(leafHash, map[], b);
            && left.Keys == right.Keys
            && SubtreeHash(sha, left.Keys, "") == SubtreeHash(sha, right.Keys, "")
            && (left == right || exists id :: id in left && LeavesCollide(leafHash, left[id], right[id]))
  {
    MergedKeys(leafHash, map[], a);
    MergedKeys(leafHash, map[], b);
    assert ValidIds(leafHash, a) == ValidIds(leafHash, b);
    MergedIsContentAddressed(leafHash, map[], a);
    MergedIsContentAddressed(leafHash, map[], b);
    var left, right := Merged(leafHash, map[], a), Merged(leafHash, map[], b);
    if left != right {
      var id :| id in left && left[id] != right[id];
      assert LeavesCollide(leafHash, left[id], right[id]);
    }
  }

  // ---------------------------------------------------------------------
  // Backend 1: node table maintained path by path
  // ---------------------------------------------------------------------

  function ToLower(c: char): char {
    if 'A' <= c <= 'Z' then 'a' + (c - 'A') else c
  }

  function Lower(s: string): string {
    seq(|s|, i requires 0 <= i < |s| => ToLower(s[i]))
  }

  // The same character, or the capital of a lower-case letter.
  predicate SameLetter(c: char, lower: char) {
    c == lower || ('a' <= lower <= 'z' && 'A' <= c <= 'Z' && c - 'A' == lower - 'a')
  }

  /** An id is stored in lower case: exactly its spellings in any mixture of cases lead to it. */
  lemma LowerIff(s: string, id: Digest)
    ensures Lower(s) == id <==> |s| == |id| && forall i :: 0 <= i < |id| ==> SameLetter(s[i], id[i])
  {
  }

  class SqliteMerkleTree {
    const sha: Sha
    var rows: Table

    constructor (sha: Sha)
      ensures this.sha == sha && rows == map[]
    {
      this.sha := sha;
      rows := map[];
    }

    method GetRootHash() returns (hash: Digest)
      ensures hash == Lookup(sha, rows, "")
    {
      hash := if "" in rows then rows[""].hash else EmptySubtreeHash(sha);
    }

    method GetChildrenHashes(prefix: string) returns (hashes: seq<Digest>)
      ensures hashes == ChildrenOf(sha, rows, prefix)
      ensures |hashes| == 16
      ensures forall i, child :: 0 <= i < 16 && child == prefix + [Nibble(i)] ==>
                if child in rows && rows[child].level == |child| then hashes[i] == rows[child].hash
                else hashes[i] == sha(EMPTY_MARKER)
    {
      var found := map p | p in rows && rows[p].level == |prefix| + 1 :: rows[p].hash;
      hashes := [];
      for i := 0 to FANOUT
        invariant |hashes| == i
        invariant forall k :: 0 <= k < i ==> hashes[k] == ChildOf(sha, rows, prefix, k)
      {
        var child := prefix + [Nibble(i)];
        hashes := hashes + [if child in found then found[child] else EmptySubtreeHash(sha)];
      }
    }

    method Upsert(prefix: string, level: nat, hash: Digest)
      modifies this
      ensures rows == old(rows)[prefix := Row(if prefix in old(rows) then old(rows)[prefix].level else level, hash)]
    {
      rows := rows[prefix := Row(if prefix in rows then rows[prefix].level else level, hash)];
    }

    // Every row's level column is its path's length; upserts never change it.
    ghost predicate LevelsMatch()
      reads this
    {
      forall p :: p in rows ==> rows[p].level == |p|
    }

    method UpdateMerklePath(objectId: string) returns (r: Result<()>)
      requires LevelsMatch()
      modifies this
      ensures LevelsMatch()
      ensures r == if IsDigest(Lower(objectId)) then Ok(()) else Err(ValueError)
      ensures rows == if IsDigest(Lower(objectId)) then PathUpdate(sha, old(rows), Lower(objectId)) else old(rows)
    {
      if !IsDigest(Lower(objectId)) {
        return Err(ValueError);
      }
      var id: Digest := Lower(objectId);
      Upsert(id, ID_HEX_LENGTH, id);
      var level := ID_HEX_LENGTH;
      while level > 0
        invariant 0 <= level <= ID_HEX_LENGTH
        invariant LevelsMatch()
        invariant Climb(sha, rows, id, level) == PathUpdate(sha, old(rows), id)
      {
        level := level - 1;
        var prefix := id[..level];
        var children := GetChildrenHashes(prefix);
        Upsert(prefix, level, NodeHash(sha, prefix, children));
      }
      return Ok(());
    }
  }

  class SqliteCrdtStore {
    const leafHash: LeafHash
    const merkle: SqliteMerkleTree
    var objects: Objects

    ghost predicate Valid()
      reads this, merkle
    {
      && merkle.LevelsMatch() && IsTree(merkle.sha, merkle.rows, objects.Keys)
      && ContentAddressed(leafHash, objects)
    }

    constructor (sha: Sha, leafHash: LeafHash)
      ensures Valid() && fresh(merkle) && merkle.sha == sha && this.leafHash == leafHash && objects == map[]
    {
      this.leafHash := leafHash;
      objects := map[];
      merkle := new SqliteMerkleTree(sha);
    }

    method AddObject(p: Payload) returns (r: Result<bool>)
      requires Valid()
      modifies this, merkle
      ensures Valid() && objects == Added(leafHash, old(objects), p)
      ensures var id := ObjectIdFor(leafHash, p);
              r == if id.Err? then Err(id.error) else Ok(id.value !in old(objects))
    {
      var id := ObjectIdFor(leafHash, p);
      if id.Err? { return Err(id.error); }
      if id.value in objects { return Ok(false); }
      objects := objects[id.value := ContentOf(p).value];
      LowerDigest(id.value);
      PathUpdateIsRebuild(merkle.sha, merkle.rows, old(objects).Keys, id.value);
      assert objects.Keys == old(objects).Keys + {id.value};
      var _ := merkle.UpdateMerklePath(id.value);
      return Ok(true);
    }

    method MergeObjects(batch: seq<Payload>) returns (count: nat)
      requires Valid()
      modifies this, merkle
      ensures Valid() && objects == Merged(leafHash, old(objects), batch)
      ensures count == |objects| - |old(objects)|
    {
      count := 0;
      for i := 0 to |batch|
        invariant Valid() && count == |objects| - |old(objects)|
        invariant Merged(leafHash, objects, batch[i..]) == Merged(leafHash, old(objects), batch)
      {
        assert batch[i..][1..] == batch[i + 1..];
        ghost var before := objects;
        var added := AddObject(batch[i]);
        if added.Ok? && added.value {
          count := count + 1;
          assert objects.Keys == before.Keys + {ObjectIdFor(leafHash, batch[i]).value};
          assert |objects.Keys| == |before.Keys| + 1;
        }
      }
    }

    /** The stored root row is the hash of the whole object set. */
    method GetRootHash() returns (hash: Digest)
      requires Valid()
      ensures hash == SubtreeHash(merkle.sha, objects.Keys, "")
    {
      LookupIsSubtreeHash(merkle.sha, merkle.rows, objects.Keys, "");
      hash := merkle.GetRootHash();
    }
  }

  lemma LowerDigest(id: Digest)
    ensures Lower(id) == id
  {
    forall i | 0 <= i < |id| ensures Lower(id)[i] == id[i] {
      assert IsNibble(id[i]);
    }
  }

  // ---------------------------------------------------------------------
  // Backend 2: nodes rebuilt from scratch
  // ---------------------------------------------------------------------

  type Nodes = map<string, Digest>

  // One node of the rebuilt map; `built` tells whether the rebuild has got that far down.
  ghost predicate NodeIs(sha: Sha, nodes: Nodes, ids: set<Digest>, built: bool, p: string) {
    if built && Occurs(ids, p) then p in nodes && nodes[p] == SubtreeHash(sha, ids, p) else p !in nodes
  }

  ghost predicate BuiltDownTo(sha: Sha, nodes: Nodes, ids: set<Digest>, level: nat) {
    forall p :: NodeIs(sha, nodes, ids, |p| >= level, p)
  }

  // At the level being filled, exactly the prefixes not pending have a node.
  ghost predicate FillingLevel(sha: Sha, nodes: Nodes, ids: set<Digest>, level: nat, pending: set<string>) {
    forall p :: NodeIs(sha, nodes, ids, |p| > level || (|p| == level && p !in pending), p)
  }

  // A finished rebuild: the nodes of `ids`, and a root even for the empty set.
  ghost predicate IsRebuilt(sha: Sha, nodes: Nodes, ids: set<Digest>) {
    if ids == {} then nodes == map["" := EmptySubtreeHash(sha)] else BuiltDownTo(sha, nodes, ids, 0)
  }

  function NodeOf(sha: Sha, nodes: Nodes, prefix: string): Digest {
    if prefix in nodes then nodes[prefix] else EmptySubtreeHash(sha)
  }

  function NodeChildren(sha: Sha, nodes: Nodes, prefix: string): seq<Digest> {
    seq(FANOUT, i requires 0 <= i < FANOUT => NodeOf(sha, nodes, prefix + [Nibble(i)]))
  }

  lemma RebuiltChildren(sha: Sha, nodes: Nodes, ids: set<Digest>, level: nat, pending: set<string>, prefix: string)
    requires level == |prefix| < ID_HEX_LENGTH && FillingLevel(sha, nodes, ids, level, pending)
    ensures NodeChildren(sha, nodes, prefix) == ChildHashes(sha, ids, prefix)
  {
    forall i: nat | i < FANOUT
      ensures NodeChildren(sha, nodes, prefix)[i] == ChildHashes(sha, ids, prefix)[i]
    {
      var child := prefix + [Nibble(i)];
      assert NodeIs(sha, nodes, ids, |child| > level || (|child| == level && child !in pending), child);
      if child in ids { assert child <= child; }
    }
  }

  lemma FillOne(sha: Sha, nodes: Nodes, ids: set<Digest>, level: nat, pending: set<string>, prefix: string,
                hash: Digest)
    requires FillingLevel(sha, nodes, ids, level, pending)
    requires |prefix| == level && Occurs(ids, prefix) && hash == SubtreeHash(sha, ids, prefix)
    ensures FillingLevel(sha, nodes[prefix := hash], ids, level, pending - {prefix})
  {
    forall p
      ensures NodeIs(sha, nodes[prefix := hash], ids, |p| > level || (|p| == level && p !in pending - {prefix}), p)
    {
      assert NodeIs(sha, nodes, ids, |p| > level || (|p| == level && p !in pending), p);
    }
  }

  function PrefixesAt(ids: set<Digest>, level: nat): (prefixes: set<string>)
    requires level <= ID_HEX_LENGTH
    ensures forall p :: p in prefixes <==> |p| == level && Occurs(ids, p)
  {
    assert forall p :: |p| == level && Occurs(ids, p) ==> exists id :: id in ids && p == id[..level];
    set id | id in ids :: id[..level]
  }

  lemma NothingToBuild(sha: Sha, nodes: Nodes)
    requires BuiltDownTo(sha, nodes, {}, 0)
    ensures nodes == map[]
  {
    forall p ensures p !in nodes { assert NodeIs(sha, nodes, {}, |p| >= 0, p); }
  }

  lemma RebuildFinishes(sha: Sha, nodes: Nodes, ids: set<Digest>)
    requires BuiltDownTo(sha, nodes, ids, 0)
    ensures IsRebuilt(sha, if |ids| == 0 then nodes["" := EmptySubtreeHash(sha)] else nodes, ids)
  {
    if ids == {} { NothingToBuild(sha, nodes); }
  }

  lemma StartLevel(sha: Sha, nodes: Nodes, ids: set<Digest>, level: nat, prefixes: set<string>)
    requires BuiltDownTo(sha, nodes, ids, level + 1)
    requires forall p :: |p| == level && Occurs(ids, p) ==> p in prefixes
    ensures FillingLevel(sha, nodes, ids, level, prefixes)
  {
    forall p ensures NodeIs(sha, nodes, ids, |p| > level || (|p| == level && p !in prefixes), p) {
      assert NodeIs(sha, nodes, ids, |p| >= level + 1, p);
    }
  }

  lemma FinishLevel(sha: Sha, nodes: Nodes, ids: set<Digest>, level: nat)
    requires FillingLevel(sha, nodes, ids, level, {})
    ensures BuiltDownTo(sha, nodes, ids, level)
  {
    forall p ensures NodeIs(sha, nodes, ids, |p| >= level, p) {
      assert NodeIs(sha, nodes, ids, |p| > level || (|p| == level && p !in {}), p);
    }
  }

  lemma LeavesBuilt(sha: Sha, nodes: Nodes, ids: set<Digest>)
    requires nodes.Keys == ids && forall id :: id in ids ==> nodes[id] == id
    ensures BuiltDownTo(sha, nodes, ids, ID_HEX_LENGTH)
  {
    forall p ensures NodeIs(sha, nodes, ids, |p| >= ID_HEX_LENGTH, p) {
      if p in ids {
        assert p <= p;
      } else if |p| >= ID_HEX_LENGTH && Occurs(ids, p) {
        var x :| x in ids && p <= x;
        FullPrefixIsTheId(p, x);
        assert false;
      }
    }
  }

  /** The two backends agree at every path: a rebuilt node map reads as the incrementally kept table. */
  lemma BackendsAgree(sha: Sha, nodes: Nodes, rows: Table, ids: set<Digest>, prefix: string)
    requires IsRebuilt(sha, nodes, ids) && IsTree(sha, rows, ids)
    ensures NodeOf(sha, nodes, prefix) == Lookup(sha, rows, prefix)
  {
    LookupIsSubtreeHash(sha, rows, ids, prefix);
    if ids != {} {
      assert NodeIs(sha, nodes, ids, |prefix| >= 0, prefix);
      if prefix in ids { assert prefix <= prefix; }
    }
  }

  class InMemoryCrdtStore {
    const sha: Sha
    const leafHash: LeafHash
    var objects: Objects
    var treeDirty: bool
    var nodes: Nodes

    ghost predicate Valid()
      reads this
    {
      ContentAddressed(leafHash, objects) && (!treeDirty ==> IsRebuilt(sha, nodes, objects.Keys))
    }

    constructor (sha: Sha, leafHash: LeafHash)
      ensures Valid() && this.sha == sha && this.leafHash == leafHash && objects == map[]
    {
      this.sha, this.leafHash := sha, leafHash;
      objects := map[];
      treeDirty := true;
      nodes := map[];
    }

    method AddObject(p: Payload) returns (r: Result<bool>)
      requires Valid()
      modifies this
      ensures Valid() && objects == Added(leafHash, old(objects), p)
      ensures var id := ObjectIdFor(leafHash, p);
              r == if id.Err? then Err(id.error) else Ok(id.value !in old(objects))
      ensures treeDirty == (old(treeDirty) || r == Ok(true)) && nodes == old(nodes)
    {
      var id := ObjectIdFor(leafHash, p);
      if id.Err? { return Err(id.error); }
      if id.value in objects { return Ok(false); }
      objects := objects[id.value := ContentOf(p).value];
      treeDirty := true;
      return Ok(true);
    }

    method RebuildTree()
      modifies this`nodes, this`treeDirty
      ensures !treeDirty && IsRebuilt(sha, nodes, objects.Keys)
    {
      var built: Nodes := BuildLevels(objects.Keys);
      RebuildFinishes(sha, built, objects.Keys);
      if |objects| == 0 {
        built := built["" := EmptySubtreeHash(sha)];
      }
      nodes := built;
      treeDirty := false;
    }

    method BuildLevels(ids: set<Digest>) returns (built: Nodes)
      ensures BuiltDownTo(sha, built, ids, 0)
    {
      built := Leaves(ids);
      LeavesBuilt(sha, built, ids);
      var level := ID_HEX_LENGTH;
      while level > 0
        invariant 0 <= level <= ID_HEX_LENGTH
        invariant BuiltDownTo(sha, built, ids, level)
      {
        level := level - 1;
        built := FillLevel(built, ids, level);
      }
    }

    method Leaves(ids: set<Digest>) returns (leaves: Nodes)
      ensures leaves.Keys == ids && forall id :: id in ids ==> leaves[id] == id
    {
      leaves := map[];
      var left := ids;
      while left != {}
        invariant left <= ids && leaves.Keys == ids - left
        invariant forall id :: id in leaves ==> leaves[id] == id
        decreases |left|
      {
        var id :| id in left;
        leaves := leaves[id := id];
        left := left - {id};
      }
    }

    method FillLevel(start: Nodes, ids: set<Digest>, level: nat) returns (filled: Nodes)
      requires level < ID_HEX_LENGTH && BuiltDownTo(sha, start, ids, level + 1)
      ensures BuiltDownTo(sha, filled, ids, level)
    {
      filled := start;
      var pending := PrefixesAt(ids, level);
      StartLevel(sha, filled, ids, level, pending);
      while pending != {}
        invariant FillingLevel(sha, filled, ids, level, pending)
        invariant pending <= PrefixesAt(ids, level)
        decreases |pending|
      {
        var prefix :| prefix in pending;
        RebuiltChildren(sha, filled, ids, level, pending, prefix);
        var hash := NodeHash(sha, prefix, NodeChildren(sha, filled, prefix));
        FillOne(sha, filled, ids, level, pending, prefix, hash);
        filled := filled[prefix := hash];
        pending := pending - {prefix};
      }
      FinishLevel(sha, filled, ids, level);
    }

    method GetRootHash() returns (hash: Digest)
      requires Valid()
      modifies this`nodes, this`treeDirty
      ensures Valid() && hash == SubtreeHash(sha, objects.Keys, "")
    {
      if treeDirty { RebuildTree(); }
      hash := if "" in nodes then nodes[""] else EmptySubtreeHash(sha);
      if objects.Keys != {} {
        assert NodeIs(sha, nodes, objects.Keys, |""| >= 0, "");
      }
    }
  }
}
