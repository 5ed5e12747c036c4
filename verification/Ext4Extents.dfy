/** ext4 extent trees: on-disk nodes, the depth-bounded walk and what it collects. */
module Ext4Extents {
  import opened Machine
  import opened Evidence
  import opened Sorting

  datatype Ext4Extent = Ext4Extent(logicalBlock: U32, physicalBlock: U64, length: nat, initialized: bool)

  datatype NodeHeader = NodeHeader(entries: nat, depth: nat)

  /** The high bit of the raw length marks an extent as unwritten; the raw length 0x8000 is unwritten and empty. */
  function ParseExtent(data: seq<Byte>, at: nat): Ext4Extent
    requires at + 12 <= |data|
  {
    var rawLength := U16At(data, at + 4);
    Ext4Extent(
      U32At(data, at),
      U16At(data, at + 6) * 0x1_0000_0000 + U32At(data, at + 8),
      rawLength % 0x8000,
      rawLength < 0x8000)
  }

  function ParseHeader(data: seq<Byte>): Option<NodeHeader> {
    if |data| < 12 || U16At(data, 0) != 0xF30A || U16At(data, 2) > U16At(data, 4) then None
    else Some(NodeHeader(U16At(data, 2), U16At(data, 6)))
  }

  /** The block an index entry points to. */
  function ChildBlock(data: seq<Byte>, at: nat): U64
    requires at + 12 <= |data|
  {
    U16At(data, at + 8) * 0x1_0000_0000 + U32At(data, at + 4)
  }

  datatype BlockReader = BlockReader(img: Image, partitionOffset: U64, blockSize: U32) {

    function BlockOffset(block: U64): Result<U64> {
      if blockSize == 0 then Err(InvalidFormat)
      else
        match CheckedMul(block, blockSize)
        case None => Err(InvalidFormat)
        case Some(relative) =>
          match CheckedAdd(partitionOffset, relative)
          case None => Err(InvalidFormat)
          case Some(offset) => Ok(offset)
    }

    function ReadBlock(block: U64): Result<seq<Byte>> {
      var offset :- BlockOffset(block);
      ReadAt(img, offset, blockSize)
    }
  }

  // ----- what a node holds -----

  /** Extents k to n-1 of a leaf. */
  function LeafExtents(data: seq<Byte>, k: nat, n: nat): Result<seq<Ext4Extent>>
    requires k <= n
    decreases n - k
  {
    if k == n then Ok([])
    else if 12 + 12 * k + 12 > |data| then Err(InvalidFormat)
    else Prepend([ParseExtent(data, 12 + 12 * k)], LeafExtents(data, k + 1, n))
  }

  /** The extents below a node, at most `depth` index levels down. Nodes without a valid header are empty. */
  function NodeExtents(reader: BlockReader, data: seq<Byte>, depth: nat): Result<seq<Ext4Extent>>
    decreases depth, 0x1_0000
  {
    match ParseHeader(data)
    case None => Ok([])
    case Some(header) =>
      if header.depth == 0 then LeafExtents(data, 0, header.entries)
      else if depth == 0 then Ok([])
      else ChildExtents(reader, data, depth, 0, header.entries)
  }

  /** The extents below children k to n-1 of an index node. */
  function ChildExtents(reader: BlockReader, data: seq<Byte>, depth: nat, k: nat, n: nat): Result<seq<Ext4Extent>>
    requires depth > 0 && k <= n < 0x1_0000
    decreases depth, n - k
  {
    if k == n then Ok([])
    else if 12 + 12 * k + 12 > |data| then Err(InvalidFormat)
    else
      var child :- reader.ReadBlock(ChildBlock(data, 12 + 12 * k));
      var extents :- NodeExtents(reader, child, depth - 1);
      Prepend(extents, ChildExtents(reader, data, depth, k + 1, n))
  }

  // ----- the walk -----

  method ReadLeafEntries(data: seq<Byte>, header: NodeHeader, extents: seq<Ext4Extent>)
    returns (r: Result<seq<Ext4Extent>>)
    ensures r == Prepend(extents, LeafExtents(data, 0, header.entries))
  {
    var found: seq<Ext4Extent> := [];
    var offset := 12;
    PrependNothing(LeafExtents(data, 0, header.entries));
    for k := 0 to header.entries
      invariant offset == 12 + 12 * k
      invariant LeafExtents(data, 0, header.entries) == Prepend(found, LeafExtents(data, k, header.entries))
    {
      if offset + 12 > |data| {
        return Err(InvalidFormat);
      }
      var extent := ParseExtent(data, offset);
      PrependTwice(found, [extent], LeafExtents(data, k + 1, header.entries));
      found := found + [extent];
      offset := offset + 12;
    }
    assert found + [] == found;
    r := Ok(extents + found);
  }

  method ResolveNode(reader: BlockReader, data: seq<Byte>, depth: nat, extents: seq<Ext4Extent>)
    returns (r: Result<seq<Ext4Extent>>)
    ensures r == Prepend(extents, NodeExtents(reader, data, depth))
    decreases depth
  {
    var parsed := ParseHeader(data);
    if parsed.None? {
      assert extents + [] == extents;
      return Ok(extents);
    }
    var header := parsed.value;
    if header.depth == 0 {
      r := ReadLeafEntries(data, header, extents);
      return;
    }
    if depth == 0 {
      assert extents + [] == extents;
      return Ok(extents);
    }
    var found := extents;
    var offset := 12;
    for k := 0 to header.entries
      invariant offset == 12 + 12 * k
      invariant Prepend(extents, ChildExtents(reader, data, depth, 0, header.entries))
             == Prepend(found, ChildExtents(reader, data, depth, k, header.entries))
    {
      ChildFails(reader, data, depth, k, header.entries);
      if offset + 12 > |data| {
        return Err(InvalidFormat);
      }
      var child := reader.ReadBlock(ChildBlock(data, offset));
      if child.Err? {
        return Err(child.error);
      }
      offset := offset + 12;
      var below := ResolveNode(reader, child.value, depth - 1, found);
      if below.Err? {
        return Err(below.error);
      }
      ChildStep(reader, data, child.value, depth, k, header.entries, found);
      found := below.value;
    }
    assert found + [] == found;
    r := Ok(found);
  }

  /** The first child that cannot be read or walked ends the walk with its error. */
  lemma ChildFails(reader: BlockReader, data: seq<Byte>, depth: nat, k: nat, n: nat)
    requires depth > 0 && k < n < 0x1_0000
    ensures var r := ChildExtents(reader, data, depth, k, n);
      if 12 + 12 * k + 12 > |data| then r == Err(InvalidFormat)
      else
        var child := reader.ReadBlock(ChildBlock(data, 12 + 12 * k));
        if child.Err? then r == Err(child.error)
        else
          var below := NodeExtents(reader, child.value, depth - 1);
          below.Err? ==> r == Err(below.error)
  {}

  lemma ChildStep(reader: BlockReader, data: seq<Byte>, child: seq<Byte>, depth: nat, k: nat, n: nat,
                  found: seq<Ext4Extent>)
    requires depth > 0 && k < n < 0x1_0000 && 12 + 12 * k + 12 <= |data|
    requires reader.ReadBlock(ChildBlock(data, 12 + 12 * k)) == Ok(child) && NodeExtents(reader, child, depth - 1).Ok?
    ensures Prepend(found, ChildExtents(reader, data, depth, k, n))
         == Prepend(found + NodeExtents(reader, child, depth - 1).value, ChildExtents(reader, data, depth, k + 1, n))
  {
    PrependTwice(found, NodeExtents(reader, child, depth - 1).value, ChildExtents(reader, data, depth, k + 1, n));
  }

  const MAX_DEPTH: nat := 5

  function Key(extent: Ext4Extent): int {
    extent.logicalBlock
  }

  /** The extents of an inode, sorted by logical block; none when the root is not an extent node. */
  function InodeExtents(reader: BlockReader, root: seq<Byte>): Result<seq<Ext4Extent>> {
    match ParseHeader(root)
    case None => Ok([])
    case Some(header) =>
      var extents :- NodeExtents(reader, root, Min(header.depth, MAX_DEPTH));
      Ok(Sort(extents, ByKey(Key)))
  }

  method ResolveExtents(reader: BlockReader, root: seq<Byte>) returns (r: Result<seq<Ext4Extent>>)
    ensures r == InodeExtents(reader, root)
  {
    var header := ParseHeader(root);
    if header.None? {
      return Ok([]);
    }
    PrependNothing(NodeExtents(reader, root, Min(header.value.depth, MAX_DEPTH)));
    var extents := ResolveNode(reader, root, Min(header.value.depth, MAX_DEPTH), []);
    if extents.Err? {
      return Err(extents.error);
    }
    r := Ok(Sort(extents.value, ByKey(Key)));
  }

  // ----- trees -----

  /** The ranges of the on-disk format. */
  predicate OnDisk(extent: Ext4Extent) {
    extent.physicalBlock < 0x1_0000_0000_0000 && extent.length < 0x8000
  }

  /** An index node records its depth and, for each subtree, the block that holds it. */
  datatype ExtentTree = Leaf(extents: seq<Ext4Extent>) | Index(depth: nat, blocks: seq<U64>, children: seq<ExtentTree>)
  {
    function Depth(): nat {
      if Leaf? then 0 else depth
    }
  }

  /** The twelve bytes of an extent: logical block, length with the unwritten mark in its high bit, and the physical
      block with its sixteen high bits first. */
  ghost predicate IsExtent(data: seq<Byte>, at: nat, extent: Ext4Extent) {
    && OnDisk(extent) && Stores(data, at, extent.logicalBlock, 4)
    && Stores(data, at + 4, extent.length + if extent.initialized then 0 else 0x8000, 2)
    && Stores(data, at + 6, extent.physicalBlock / 0x1_0000_0000, 2)
    && Stores(data, at + 8, extent.physicalBlock % 0x1_0000_0000, 4)
  }

  /** The twelve bytes of an index entry: a logical block, then the low and the high part of the child's block. */
  ghost predicate IsIndex(data: seq<Byte>, at: nat, block: U64) {
    && at + 12 <= |data| && block < 0x1_0000_0000_0000
    && Stores(data, at + 4, block % 0x1_0000_0000, 4) && Stores(data, at + 8, block / 0x1_0000_0000, 2)
  }

  /** The node starts with the magic number, the number of entries, room for at least as many, and its depth. */
  ghost predicate IsNode(data: seq<Byte>, entries: nat, depth: nat) {
    && 12 + 12 * entries <= |data| && Stores(data, 0, 0xF30A, 2) && entries < 0x1_0000 && Stores(data, 2, entries, 2)
    && entries <= U16At(data, 4) && depth < 0x1_0000 && Stores(data, 6, depth, 2)
  }

  /** The node spells out the tree, its subtrees being spelled out in the blocks of the image that it refers to. */
  ghost predicate Encodes(reader: BlockReader, data: seq<Byte>, tree: ExtentTree)
    decreases tree, 0
  {
    match tree
    case Leaf(extents) =>
      && IsNode(data, |extents|, 0)
      && forall k: nat | k < |extents| :: IsExtent(data, 12 + 12 * k, extents[k])
    case Index(depth, blocks, children) =>
      && IsNode(data, |children|, depth) && depth > 0 && |blocks| == |children|
      && forall k: nat | k < |children| ::
           IsIndex(data, 12 + 12 * k, blocks[k]) && BlockEncodes(reader, blocks[k], children[k])
  }

  /** The bytes of the block in the image spell out the subtree. */
  ghost predicate BlockEncodes(reader: BlockReader, block: U64, tree: ExtentTree)
    decreases tree, 1
  {
    var at := reader.partitionOffset + block * reader.blockSize;
    && reader.blockSize > 0 && 0 <= at && at + reader.blockSize <= |reader.img|
    && Encodes(reader, reader.img[at..at + reader.blockSize], tree)
  }

  lemma NodeParses(data: seq<Byte>, entries: nat, depth: nat)
    requires IsNode(data, entries, depth)
    ensures ParseHeader(data) == Some(NodeHeader(entries, depth))
  {
    StoredU16(data, 0, 0xF30A);
    StoredU16(data, 2, entries);
    StoredU16(data, 6, depth);
  }

  lemma ExtentParses(data: seq<Byte>, at: nat, extent: Ext4Extent)
    requires IsExtent(data, at, extent)
    ensures ParseExtent(data, at) == extent
  {
    StoredU32(data, at, extent.logicalBlock);
    StoredU16(data, at + 4, extent.length + if extent.initialized then 0 else 0x8000);
    StoredU16(data, at + 6, extent.physicalBlock / 0x1_0000_0000);
    StoredU32(data, at + 8, extent.physicalBlock % 0x1_0000_0000);
  }

  lemma IndexParses(data: seq<Byte>, at: nat, block: U64)
    requires IsIndex(data, at, block)
    ensures ChildBlock(data, at) == block
  {
    StoredU32(data, at + 4, block % 0x1_0000_0000);
    StoredU16(data, at + 8, block / 0x1_0000_0000);
  }

  lemma {:induction false} LeafParses(data: seq<Byte>, extents: seq<Ext4Extent>, k: nat)
    requires k <= |extents| && 12 + 12 * |extents| <= |data|
    requires forall j: nat | j < |extents| :: IsExtent(data, 12 + 12 * j, extents[j])
    ensures LeafExtents(data, k, |extents|) == Ok(extents[k..])
    decreases |extents| - k
  {
    if k < |extents| {
      ExtentParses(data, 12 + 12 * k, extents[k]);
      LeafParses(data, extents, k + 1);
      assert extents[k..] == [extents[k]] + extents[k + 1..];
    }
  }

  /** All extents of the tree, in order. */
  function InOrder(tree: ExtentTree): seq<Ext4Extent>
    decreases tree, 0
  {
    match tree
    case Leaf(extents) => extents
    case Index(_, _, children) => InOrderOf(children)
  }

  function InOrderOf(trees: seq<ExtentTree>): seq<Ext4Extent>
    decreases trees, 1
  {
    if trees == [] then [] else InOrder(trees[0]) + InOrderOf(trees[1..])
  }

  /** The extents reached within `depth` index levels, in order. */
  function Within(tree: ExtentTree, depth: nat): seq<Ext4Extent>
    decreases tree, 0
  {
    match tree
    case Leaf(extents) => extents
    case Index(_, _, children) => if depth == 0 then [] else WithinOf(children, depth - 1)
  }

  function WithinOf(trees: seq<ExtentTree>, depth: nat): seq<Ext4Extent>
    decreases trees, 1
  {
    if trees == [] then [] else Within(trees[0], depth) + WithinOf(trees[1..], depth)
  }

  /** No extent lies more than `depth` index levels down. */
  ghost predicate NothingDeeper(tree: ExtentTree, depth: nat)
    decreases tree
  {
    match tree
    case Leaf(_) => true
    case Index(_, _, children) =>
      if depth == 0 then InOrder(tree) == []
      else forall k | 0 <= k < |children| :: NothingDeeper(children[k], depth - 1)
  }

  /** A tree with at most `depth` index levels. */
  ghost predicate AtMost(tree: ExtentTree, depth: nat)
    decreases tree
  {
    match tree
    case Leaf(_) => true
    case Index(_, _, children) => depth > 0 && forall k | 0 <= k < |children| :: AtMost(children[k], depth - 1)
  }

  lemma {:induction false} AtMostHidesNothing(tree: ExtentTree, depth: nat)
    requires AtMost(tree, depth)
    ensures NothingDeeper(tree, depth)
    decreases tree
  {
    if tree.Index? {
      forall k | 0 <= k < |tree.children| ensures NothingDeeper(tree.children[k], depth - 1) {
        AtMostHidesNothing(tree.children[k], depth - 1);
      }
    }
  }

  /** A walk of an encoded tree collects, in order, what lies within its depth. */
  lemma {:induction false} WalkCollects(reader: BlockReader, data: seq<Byte>, tree: ExtentTree, depth: nat)
    requires Encodes(reader, data, tree)
    ensures NodeExtents(reader, data, depth) == Ok(Within(tree, depth))
    decreases tree, 1, 0
  {
    if tree.Leaf? {
      NodeParses(data, |tree.extents|, 0);
      LeafParses(data, tree.extents, 0);
      assert tree.extents[0..] == tree.extents;
    } else {
      NodeParses(data, |tree.children|, tree.depth);
      if depth > 0 {
        ChildrenRead(reader, data, tree);
        WalkCollectsChildren(reader, data, tree, depth, 0);
        assert tree.children[0..] == tree.children;
      }
    }
  }

  /** The block of index entry k can be read and spells out the subtree. */
  ghost predicate ChildReads(reader: BlockReader, data: seq<Byte>, k: nat, tree: ExtentTree) {
    12 + 12 * k + 12 <= |data|
    && var child := reader.ReadBlock(ChildBlock(data, 12 + 12 * k)); child.Ok? && Encodes(reader, child.value, tree)
  }

  lemma ChildrenRead(reader: BlockReader, data: seq<Byte>, tree: ExtentTree)
    requires tree.Index? && Encodes(reader, data, tree)
    ensures |tree.children| < 0x1_0000
    ensures forall k: nat | k < |tree.children| :: ChildReads(reader, data, k, tree.children[k])
  {
    forall k: nat | k < |tree.children| ensures ChildReads(reader, data, k, tree.children[k]) {
      assert IsIndex(data, 12 + 12 * k, tree.blocks[k]) && BlockEncodes(reader, tree.blocks[k], tree.children[k]);
      IndexParses(data, 12 + 12 * k, tree.blocks[k]);
      var child := BlockBytes(reader, tree.blocks[k], tree.children[k]);
    }
  }

  lemma ReadChild(reader: BlockReader, data: seq<Byte>, k: nat, tree: ExtentTree) returns (child: seq<Byte>)
    requires ChildReads(reader, data, k, tree)
    ensures reader.ReadBlock(ChildBlock(data, 12 + 12 * k)) == Ok(child) && Encodes(reader, child, tree)
  {
    child := reader.ReadBlock(ChildBlock(data, 12 + 12 * k)).value;
  }

  lemma {:induction false} WalkCollectsChildren(reader: BlockReader, data: seq<Byte>, tree: ExtentTree, depth: nat,
                                                k: nat)
    requires tree.Index? && depth > 0 && k <= |tree.children| < 0x1_0000
    requires forall j: nat | j < |tree.children| :: ChildReads(reader, data, j, tree.children[j])
    ensures ChildExtents(reader, data, depth, k, |tree.children|) == Ok(WithinOf(tree.children[k..], depth - 1))
    decreases tree, 0, |tree.children| - k
  {
    if k < |tree.children| {
      var child := ReadChild(reader, data, k, tree.children[k]);
      WalkCollects(reader, child, tree.children[k], depth - 1);
      WalkCollectsChildren(reader, data, tree, depth, k + 1);
      OneMoreChild(reader, data, child, tree, depth, k);
    }
  }

  lemma OneMoreChild(reader: BlockReader, data: seq<Byte>, child: seq<Byte>, tree: ExtentTree, depth: nat, k: nat)
    requires tree.Index? && depth > 0 && k < |tree.children| < 0x1_0000 && 12 + 12 * k + 12 <= |data|
    requires reader.ReadBlock(ChildBlock(data, 12 + 12 * k)) == Ok(child)
    requires NodeExtents(reader, child, depth - 1) == Ok(Within(tree.children[k], depth - 1))
    requires ChildExtents(reader, data, depth, k + 1, |tree.children|)
          == Ok(WithinOf(tree.children[k + 1..], depth - 1))
    ensures ChildExtents(reader, data, depth, k, |tree.children|) == Ok(WithinOf(tree.children[k..], depth - 1))
  {
    assert tree.children[k..][1..] == tree.children[k + 1..];
  }

  lemma BlockBytes(reader: BlockReader, block: U64, tree: ExtentTree) returns (child: seq<Byte>)
    requires BlockEncodes(reader, block, tree)
    ensures reader.ReadBlock(block) == Ok(child) && Encodes(reader, child, tree)
  {
    var at := reader.partitionOffset + block * reader.blockSize;
    MulNonNegative(block, reader.blockSize);
    child := reader.img[at..at + reader.blockSize];
  }

  lemma RootParses(reader: BlockReader, root: seq<Byte>, tree: ExtentTree)
    requires Encodes(reader, root, tree)
    ensures ParseHeader(root).Some? && ParseHeader(root).value.depth == tree.Depth()
  {
    NodeParses(root, if tree.Leaf? then |tree.extents| else |tree.children|, tree.Depth());
  }

  /** Ordered by logical block. */
  ghost predicate KeyOrdered(extents: seq<Ext4Extent>) {
    forall i, j | 0 <= i < j < |extents| :: extents[i].logicalBlock <= extents[j].logicalBlock
  }

  /** The walk is complete exactly when nothing lies deeper than it goes. */
  lemma {:induction false} CompleteWithinDepth(tree: ExtentTree, depth: nat)
    ensures |Within(tree, depth)| <= |InOrder(tree)|
    ensures |Within(tree, depth)| == |InOrder(tree)| <==> NothingDeeper(tree, depth)
    ensures NothingDeeper(tree, depth) ==> Within(tree, depth) == InOrder(tree)
    decreases tree, 0
  {
    if tree.Index? && depth > 0 {
      CompleteAmong(tree.children, depth - 1);
    }
  }

  lemma {:induction false} CompleteAmong(trees: seq<ExtentTree>, depth: nat)
    ensures |WithinOf(trees, depth)| <= |InOrderOf(trees)|
    ensures |WithinOf(trees, depth)| == |InOrderOf(trees)|
      <==> forall k | 0 <= k < |trees| :: NothingDeeper(trees[k], depth)
    ensures (forall k | 0 <= k < |trees| :: NothingDeeper(trees[k], depth))
      ==> WithinOf(trees, depth) == InOrderOf(trees)
    decreases trees, 1
  {
    if trees != [] {
      CompleteWithinDepth(trees[0], depth);
      CompleteAmong(trees[1..], depth);
      assert (forall k | 0 <= k < |trees| :: NothingDeeper(trees[k], depth))
        <==> (NothingDeeper(trees[0], depth)
              && forall k | 0 <= k < |trees[1..]| :: NothingDeeper(trees[1..][k], depth)) by {
        assert forall k | 0 < k < |trees| :: trees[k] == trees[1..][k - 1];
      }
    }
  }

  /** On any image: what is resolved is a stable sort, hence a permutation, of what the bounded walk finds. */
  lemma ResolvedIsASortedPermutation(reader: BlockReader, root: seq<Byte>)
    requires InodeExtents(reader, root).Ok? && ParseHeader(root).Some?
    ensures var found := NodeExtents(reader, root, Min(ParseHeader(root).value.depth, MAX_DEPTH));
            var resolved := InodeExtents(reader, root).value;
      && found.Ok? && multiset(resolved) == multiset(found.value) && IsStableSort(resolved, found.value, ByKey(Key))
      && KeyOrdered(resolved)
  {
    ByKeyIsPreorder(Key);
    SortIsStable(NodeExtents(reader, root, Min(ParseHeader(root).value.depth, MAX_DEPTH)).value, ByKey(Key));
    SortedIsKeyOrdered(InodeExtents(reader, root).value);
  }

  lemma SortedIsKeyOrdered(extents: seq<Ext4Extent>)
    ensures Sorted(extents, ByKey(Key)) <==> KeyOrdered(extents)
  {
    if Sorted(extents, ByKey(Key)) {
      forall i, j | 0 <= i < j < |extents| ensures extents[i].logicalBlock <= extents[j].logicalBlock {
        KeyOrder(extents[i], extents[j]);
      }
    }
    if KeyOrdered(extents) {
      forall i, j | 0 <= i < j < |extents| ensures ByKey(Key)(extents[i], extents[j]) {
        KeyOrder(extents[i], extents[j]);
      }
    }
  }

  lemma KeyOrder(x: Ext4Extent, y: Ext4Extent)
    ensures ByKey(Key)(x, y) <==> x.logicalBlock <= y.logicalBlock
  {
    var key := Key;
    assert key(x) == x.logicalBlock && key(y) == y.logicalBlock;
  }

  /** On a tree spelled out in the image: every extent is resolved exactly when none lies deeper than the smaller of the
      recorded depth and five levels; if the tree is also in key order, the result is its unbounded in-order list. */
  lemma ResolvesTheTree(reader: BlockReader, root: seq<Byte>, tree: ExtentTree)
    requires Encodes(reader, root, tree)
    ensures InodeExtents(reader, root).Ok?
    ensures var depth := Min(tree.Depth(), 5);
            var resolved := InodeExtents(reader, root).value;
      && (multiset(resolved) == multiset(InOrder(tree)) <==> NothingDeeper(tree, depth))
      && (NothingDeeper(tree, depth) && KeyOrdered(InOrder(tree)) ==> resolved == InOrder(tree))
  {
    RootParses(reader, root, tree);
    SortedIsKeyOrdered(InOrder(tree));
    WalkOrders(reader, root, tree, Min(tree.Depth(), 5));
  }

  lemma WalkOrders(reader: BlockReader, root: seq<Byte>, tree: ExtentTree, depth: nat)
    requires Encodes(reader, root, tree)
    ensures NodeExtents(reader, root, depth).Ok?
    ensures var resolved := Sort(NodeExtents(reader, root, depth).value, ByKey(Key));
      && (multiset(resolved) == multiset(InOrder(tree)) <==> NothingDeeper(tree, depth))
      && (NothingDeeper(tree, depth) && Sorted(InOrder(tree), ByKey(Key)) ==> resolved == InOrder(tree))
  {
    WalkCollects(reader, root, tree, depth);
    CompleteWithinDepth(tree, depth);
    var found := Within(tree, depth);
    ByKeyIsPreorder(Key);
    SortIsStable(found, ByKey(Key));
    var resolved := Sort(found, ByKey(Key));
    assert |resolved| == |multiset(resolved)| == |multiset(found)| == |found|;
    assert |multiset(InOrder(tree))| == |InOrder(tree)|;
    if NothingDeeper(tree, depth) && Sorted(InOrder(tree), ByKey(Key)) {
      SortedIsFixed(found, ByKey(Key));
    }
  }

  /** A tree with at most as many index levels as its root declares, and at most five, is resolved completely. */
  lemma ShallowTreesAreResolved(reader: BlockReader, root: seq<Byte>, tree: ExtentTree)
    requires Encodes(reader, root, tree) && AtMost(tree, Min(tree.Depth(), 5))
    ensures InodeExtents(reader, root).Ok?
    ensures multiset(InodeExtents(reader, root).value) == multiset(InOrder(tree))
    ensures KeyOrdered(InOrder(tree)) ==> InodeExtents(reader, root).value == InOrder(tree)
  {
    AtMostHidesNothing(tree, Min(tree.Depth(), 5));
    ResolvesTheTree(reader, root, tree);
  }

  // ----- decoded ranges -----

  ghost predicate AllOnDisk(extents: seq<Ext4Extent>) {
    forall i | 0 <= i < |extents| :: OnDisk(extents[i])
  }

  lemma ParsedExtentIsOnDisk(data: seq<Byte>, at: nat)
    requires at + 12 <= |data|
    ensures OnDisk(ParseExtent(data, at))
  {}

  lemma {:induction false} LeafIsOnDisk(data: seq<Byte>, k: nat, n: nat)
    requires k <= n && LeafExtents(data, k, n).Ok?
    ensures AllOnDisk(LeafExtents(data, k, n).value)
    decreases n - k
  {
    if k < n {
      ParsedExtentIsOnDisk(data, 12 + 12 * k);
      LeafIsOnDisk(data, k + 1, n);
    }
  }

  lemma {:induction false} NodeIsOnDisk(reader: BlockReader, data: seq<Byte>, depth: nat)
    requires NodeExtents(reader, data, depth).Ok?
    ensures AllOnDisk(NodeExtents(reader, data, depth).value)
    decreases depth, 0x2_0000
  {
    match ParseHeader(data)
    case None =>
    case Some(header) =>
      if header.depth == 0 {
        LeafIsOnDisk(data, 0, header.entries);
      } else if depth > 0 {
        ChildrenAreOnDisk(reader, data, depth, 0, header.entries);
      }
  }

  lemma {:induction false} ChildrenAreOnDisk(reader: BlockReader, data: seq<Byte>, depth: nat, k: nat, n: nat)
    requires depth > 0 && k <= n < 0x1_0000 && ChildExtents(reader, data, depth, k, n).Ok?
    ensures AllOnDisk(ChildExtents(reader, data, depth, k, n).value)
    decreases depth, n - k
  {
    if k < n && 12 + 12 * k + 12 <= |data| {
      var child := reader.ReadBlock(ChildBlock(data, 12 + 12 * k));
      if child.Ok? {
        NodeIsOnDisk(reader, child.value, depth - 1);
        ChildrenAreOnDisk(reader, data, depth, k + 1, n);
      }
    }
  }

  lemma PermutedIsOnDisk(found: seq<Ext4Extent>, resolved: seq<Ext4Extent>)
    requires AllOnDisk(found) && multiset(resolved) == multiset(found)
    ensures AllOnDisk(resolved)
  {
    forall i | 0 <= i < |resolved| ensures OnDisk(resolved[i]) {
      assert resolved[i] in multiset(resolved) && resolved[i] in multiset(found);
    }
  }

  /** On any image: whatever is resolved lies in the ranges of the on-disk format. */
  lemma ResolvedIsOnDisk(reader: BlockReader, root: seq<Byte>)
    requires InodeExtents(reader, root).Ok?
    ensures AllOnDisk(InodeExtents(reader, root).value)
  {
    if ParseHeader(root).Some? {
      var depth := Min(ParseHeader(root).value.depth, MAX_DEPTH);
      NodeIsOnDisk(reader, root, depth);
      ResolvedIsASortedPermutation(reader, root);
      PermutedIsOnDisk(NodeExtents(reader, root, depth).value, InodeExtents(reader, root).value);
    }
  }
}
