# Forensic recovery: allocation metadata to recovered bytes

A Dafny model of the path a file takes through the forensic tool: from the allocation metadata on disk (NTFS runlists,
FAT32 and exFAT cluster chains, ext4 extent trees, exFAT directory entry sets, NTFS update sequences), through the layout
each filesystem builds from it, to the bytes the recovery engine returns, together with the object hierarchy that is built
beside it.

The image is a byte sequence; reading a range copies it or fails. Several routes of the program compute the same thing, and
the main theorems say that they agree: the layout route through the engine and the direct reader of each filesystem, the
bulk and the single inode route, the cached and the direct table lookup, the regions and the layout. Codecs are proved
against reference writers in both directions; walks and traversals are proved to end and to find each object exactly once.

Code that changes state is a class or a method with loops, proved equal to a specification function; the lemmas then speak
about that function. Arithmetic the source checks is checked here with the same bounds. Arithmetic it leaves unchecked
(an over-long shift, an unchecked addition) is the error `Panic`, which is what a checked build does.

| module | models |
|---|---|
| `Machine`, `Sequences`, `Sorting`, `Evidence` | machine words and bit operations, sequences, stable sorting, reading and gathering image ranges |
| `ForensicModel`, `RecoveryEngine` | the filesystem-independent model and the recovery engine |
| `NtfsDataRun`, `NtfsContent`, `NtfsFiles`, `NtfsFixup` | runlists, run reader and layout, attributes from their bytes to file bytes, update-sequence fixup |
| `FatChain`, `ChainLayout`, `Fat32Volume`, `ExFatVolume`, `FatRecovery`, `FatOnDisk` | chain walks, run coalescing, the two volumes, their end-to-end theorems, and tables and clusters as bytes of the image |
| `Ext4Extents`, `Ext4Content`, `Ext4Inodes` | extent trees, block-map semantics, inode location |
| `ExFatDirectory`, `ExFatEntrySets`, `ExFatWalk`, `ExFatHierarchy`, `ExFatContents`, `ExFatTree`, `ExFatFiles` | entry sets and their round trip, the directory walk, its invariant, what it lists, its tree and paths, its files |
| `Fat32Investigation`, `Fat32Walk`, `Fat32Hierarchy`, `Fat32Files` | FAT32 de-duplication, the directory walk around it, what it finds, its files |
| `PathResolution`, `ForensicTree`, `Candidates` | paths, the navigable tree, candidate selection |

Where the code departs from its documentation or from the format, the model follows the code:

- `crates/forensis-core/src/filesystem/ntfs/investigation_entry.rs:253-260`: a run whose sector range leaves 64 bits becomes
  sparse. `NtfsContent.RunAgreement` and `NtfsContent.EndToEnd` give the exact condition under which this is harmless.
- `crates/forensis-core/src/filesystem/fat32/boot.rs:300-302`: FAT32 sectors are not rescaled to 512 bytes.
  `FatRecovery.Fat32NeedsSmallSectors` shows that other sector sizes never recover.
- `crates/forensis-core/src/filesystem/fat32/reader.rs:207` and `crates/forensis-core/src/filesystem/exfat/reader.rs:184`
  accept clusters 2 to count, not to count + 1, and FAT32 entries keep their four high bits.
- `crates/forensis-core/src/filesystem/ext4/extent.rs:36-38`: raw length 0x8000 is an unwritten extent of length 0.
- `crates/forensis-core/src/filesystem/exfat/directory.rs:214-292`: parsing stops at slot type 0xFF, not at 0x00, and the
  NoFatChain flag is ignored, so every exFAT claim is about files whose clusters are chained in the table.
- `crates/forensis-core/src/filesystem/ext4/investigation_entry.rs:195-227`: an extent whose sector range leaves 64 bits
  is laid out as sparse. `Ext4Content.RecoveredBytesFollowTheBlockMap` gives the exact condition; it cannot happen up to
  16 MiB blocks.
- `crates/forensis-core/src/recovery/engine.rs:340-372` reads only the part of a region that is still missing, the layout
  loop whole segments. `RecoveryEngine.RegionsAgreeWithLayout` says exactly where the two loops differ.
- `crates/forensis-core/src/forensic/tree.rs:145-170` has no cycle guard: `ForensicTree.BuildEndsIff` says exactly when it
  ends, and `ForensicTree.DistinctIsAcyclic` that it does for distinct ids.
- `crates/forensis-core/src/filesystem/fat32/investigation.rs:79-87` can discard a directory whose children keep its id.
  `Fat32Walk.WalkIsConsistent` says exactly when that happens.

## Model

| member | source | states |
|---|---|---|
| `RecoveryEngine.Engine.Recover` | crates/forensis-core/src/recovery/engine.rs:276-392 | the layout loop and the region loop compute the declared outcome: recovered bytes, failure or the first error |
| `RecoveryEngine.Engine.RecoverLogicalLayout` | crates/forensis-core/src/recovery/engine.rs:223-261 | the loop gathers segment contents in order, cutting the last at the known size and stopping there |
| `RecoveryEngine.Engine.RecoverRegions` | crates/forensis-core/src/recovery/engine.rs:340-372 | the fallback loop gathers the regions in order, reading only the part of the last region that is still missing |
| `RecoveryEngine.PhysicalSegmentBytes` | crates/forensis-core/src/recovery/engine.rs:105-216 | a segment given by sectors reads exactly its bytes of the partition, and errs iff its range leaves 64 bits, is too small for it, or leaves the image |
| `RecoveryEngine.Exactness` | crates/forensis-core/src/recovery/engine.rs:223-322 | with a known size n: recovered iff the readable segments before the first unreadable one hold n bytes, and then exactly their first n; failed iff all is readable and shorter; error iff an unreadable segment comes first |
| `RecoveryEngine.UnknownSizeExactness` | crates/forensis-core/src/recovery/engine.rs:223-270 | without a recorded size everything is recovered, or an error if any segment is unreadable |
| `RecoveryEngine.RegionsExactness` | crates/forensis-core/src/recovery/engine.rs:324-384 | without a layout: nothing needed for an empty object, failure without regions, otherwise the first n bytes of the readable regions or failure |
| `RecoveryEngine.RegionsAgreeWithLayout` | crates/forensis-core/src/recovery/engine.rs:301-384 | on an all-physical layout the region loop and the layout loop report the same iff no region is cut off; at a cut-off region the layout loop errs and the region loop recovers |
| `RecoveryEngine.UnknownSizesAgree` | crates/forensis-core/src/recovery/engine.rs:301-384 | the same for objects of unknown size whose content stays below 2^64-1 bytes |
| `RecoveryEngine.CutOffRegionsDiffer` | crates/forensis-core/src/recovery/engine.rs:340-372 | concrete entry where the two loops differ: part of a sector in the image, and no more needed |
| `Evidence.PartialReadsAgree` | crates/forensis-core/src/recovery/engine.rs:223-372 | over any list of ranges, reading each whole and reading the last one only in part give the same iff no range is cut off |
| `NtfsDataRun.Parse` | crates/forensis-core/src/filesystem/ntfs/data_run.rs:34-212 | the decoding loop equals the recursive meaning of a runlist, error cases included |
| `NtfsDataRun.ParseRecord` | crates/forensis-core/src/filesystem/ntfs/data_run.rs:57-196 | one record: header nibbles, count, sparse case, signed delta, overflow and sign checks, and the offset behind it |
| `NtfsDataRun.AccumulateBytes` | crates/forensis-core/src/filesystem/ntfs/data_run.rs:97-101 | or-ing shifted bytes yields the little-endian number and nothing is lost up to eight bytes |
| `NtfsDataRun.SignExtend` | crates/forensis-core/src/filesystem/ntfs/data_run.rs:155-167 | or-ing the mask of ones gives the two's-complement value at every width from 1 to 64 bits |
| `NtfsDataRun.MaskExtends` | crates/forensis-core/src/filesystem/ntfs/data_run.rs:158-163 | the mask adds exactly 2^64 - 2^k to a k-bit pattern |
| `NtfsDataRun.RoundTrip` | crates/forensis-core/src/filesystem/ntfs/data_run.rs:34-212 | writing any runs at any sufficient widths, run i as its distance from the last physical run before it (from 0 if there is none), then parsing with anything behind gives back the runs |
| `NtfsDataRun.AcceptsOnlyEncodings` | crates/forensis-core/src/filesystem/ntfs/data_run.rs:34-212 | conversely, every accepted buffer is such a writing of the returned runs, followed by some tail |
| `NtfsDataRun.HolesMoveNothing` | crates/forensis-core/src/filesystem/ntfs/data_run.rs:112-203 | a sparse record put in anywhere leaves the cluster numbers of all other runs unchanged |
| `NtfsDataRun.DecodedRunsAreSane` | crates/forensis-core/src/filesystem/ntfs/data_run.rs:105-193 | decoded runs have positive counts and non-negative cluster numbers |
| `NtfsContent.ParsedIsWellFormed` | crates/forensis-core/src/filesystem/ntfs/data_attribute.rs:30-139 | a decoded attribute is resident with exactly its size in bytes, or non-resident with sane runs |
| `NtfsContent.DataRunReader.ReadRuns` | crates/forensis-core/src/filesystem/ntfs/data_run_reader.rs:77-113 | the run loop returns the first real-size bytes of the runs, the first read error, or too-short |
| `NtfsContent.DataRunReader.ReadAttribute` | crates/forensis-core/src/filesystem/ntfs/data_run_reader.rs:120-130 | resident data, no data for an empty attribute, or the runs |
| `NtfsContent.BuildContentLayout` | crates/forensis-core/src/filesystem/ntfs/investigation_entry.rs:201-276 | the loop over runs equals the declared layout: inline, one segment per non-empty run at the running position, or empty on overflow |
| `NtfsContent.BuildPhysicalLocation` | crates/forensis-core/src/filesystem/ntfs/investigation_entry.rs:134-198 | the regions are those of the runs that have one, in order |
| `NtfsContent.RegionsAreThePhysicalSegments` | crates/forensis-core/src/filesystem/ntfs/investigation_entry.rs:134-276 | reported regions are exactly the regions of the physical segments, in order |
| `NtfsContent.RunAgreement` | crates/forensis-core/src/filesystem/ntfs/investigation_entry.rs:280-306 | run by run the two routes read the same, if and only if the sector range fits 64 bits once the layout read succeeds |
| `NtfsContent.RoutesOverRuns` | crates/forensis-core/src/filesystem/ntfs/data_run_reader.rs:77-113 | over whole run lists the two routes read the same iff every reached run has a 64-bit sector range or the layout route errs |
| `NtfsContent.EndToEnd` | crates/forensis-core/src/filesystem/ntfs/data_run_reader.rs:120-130 | for every image and decoded attribute, recovering the built entry gives the bytes of the direct read, failure where it is too short, an error where it errs, iff every reached run has a 64-bit sector range or recovery errs |
| `NtfsContent.MaximalSizeEndToEnd` | crates/forensis-core/src/recovery/engine.rs:276-322 | the recorded size 2^64-1, which the engine takes as unknown: when exactly the routes still agree |
| `NtfsContent.LayoutIsKeptIff` | crates/forensis-core/src/filesystem/ntfs/investigation_entry.rs:223-273 | the layout is dropped iff the cluster counts of the runs add up to 2^64 or more |
| `NtfsContent.DroppedLayoutStillAgrees` | crates/forensis-core/src/filesystem/ntfs/investigation_entry.rs:266-272 | with a dropped layout the region loop gives the direct read whenever all reached runs are physical, representable and in the image |
| `NtfsContent.UnrepresentableRunBecomesZeros` | crates/forensis-core/src/filesystem/ntfs/investigation_entry.rs:253-260 | concrete run where the condition fails: recovery yields zeros while the direct read errs |
| `NtfsContent.OverlongRunsLoseTheirLayout` | crates/forensis-core/src/filesystem/ntfs/investigation_entry.rs:266-272 | concrete runs beyond that condition: two sparse runs that read as zeros directly are reported as failed |
| `NtfsFiles.ResidentParses` | crates/forensis-core/src/filesystem/ntfs/data_attribute.rs:61-96 | the bytes of a resident attribute decode to its data |
| `NtfsFiles.NonResidentParses` | crates/forensis-core/src/filesystem/ntfs/data_attribute.rs:98-139 | the bytes of a non-resident attribute decode to its real size and the runs its runlist spells out |
| `NtfsFiles.DirectReadFollowsRuns` | crates/forensis-core/src/filesystem/ntfs/data_run_reader.rs:77-113 | a successful direct read has the recorded size, and every byte is the image byte at its place in its cluster, or zero in a hole |
| `NtfsFiles.RepresentableIff` | crates/forensis-core/src/filesystem/ntfs/investigation_entry.rs:280-306 | a run has a sector range iff its sectors number below 2^64 and end within 2^64 |
| `NtfsFiles.StoredFileIsRecovered` | crates/forensis-core/src/filesystem/ntfs/investigation_entry.rs:201-276 | from attribute bytes to file bytes: stored runs in the image are recovered to the recorded size, every byte where the runs say |
| `NtfsFiles.StoredResidentIsRecovered` | crates/forensis-core/src/filesystem/ntfs/investigation_entry.rs:201-222 | a stored resident attribute is recovered as it is stored |
| `NtfsFixup.ApplySectors` | crates/forensis-core/src/filesystem/ntfs/mft_record.rs:141-160 | the in-place loop repairs trailers up to the first mismatch, exactly as declared |
| `NtfsFixup.ApplyUsaFixup` | crates/forensis-core/src/filesystem/ntfs/mft_record.rs:98-163 | in place: rejected headers leave the record alone, otherwise the sector repair |
| `NtfsFixup.FixIndexBlock` | crates/forensis-core/src/filesystem/ntfs/index_allocation.rs:55-150 | the index-block variant repairs a copy under its own header checks |
| `NtfsFixup.OnlyTrailersChange` | crates/forensis-core/src/filesystem/ntfs/mft_record.rs:141-160 | on every record only trailers change, and success means exactly that all sectors exist and carry the sequence number |
| `NtfsFixup.TrailersRestored` | crates/forensis-core/src/filesystem/ntfs/mft_record.rs:141-160 | a successful fixup moves every array entry into its trailer when the array overlaps none |
| `NtfsFixup.FixupInvertsProtection` | crates/forensis-core/src/filesystem/ntfs/mft_record.rs:98-163 | a record of n sectors with n + 1 array entries behind byte 8, inside it and clear of the trailers, protected by any sequence number, is accepted, and every byte outside the array is back |
| `NtfsFixup.IndexFixupInvertsProtection` | crates/forensis-core/src/filesystem/ntfs/index_allocation.rs:55-150 | the same for blocks with the INDX signature that hold the sectors their array counts |
| `NtfsFixup.ShortIndexBlockIsRejected` | crates/forensis-core/src/filesystem/ntfs/index_allocation.rs:115-127 | an index block whose array promises more sectors than the block has is rejected |
| `NtfsFixup.ProtectionExists` | crates/forensis-core/src/filesystem/ntfs/mft_record.rs:98-163 | every record with a clear array has such a protected form |
| `NtfsFixup.RecordIsAcceptedIff` | crates/forensis-core/src/filesystem/ntfs/mft_record.rs:98-163 | exactly which records are accepted: whole sectors, one array entry more than sectors, the array behind byte 8 and inside, its first entry at the end of every sector |
| `NtfsFixup.IndexBlockIsAcceptedIff` | crates/forensis-core/src/filesystem/ntfs/index_allocation.rs:55-150 | exactly which index blocks are accepted |
| `FatChain.WalkFromMeaning` | crates/forensis-core/src/filesystem/fat32/reader.rs:130-164 | a walk succeeds with a chain iff it is the maximal linked run of fresh clusters within the budget |
| `FatChain.WalkMeaning` | crates/forensis-core/src/filesystem/exfat/reader.rs:112-144 | the same for a whole walk: links, distinctness of all but the last, and why it stops |
| `FatChain.WalkIsBounded` | crates/forensis-core/src/filesystem/fat32/reader.rs:130-164 | even on cyclic tables the chain is no longer than the budget and than the cluster count |
| `ChainLayout.CoalesceIsExact` | crates/forensis-core/src/filesystem/fat32/investigation_entry.rs:202-270 | expanding the runs gives back the chain; runs are proper and no two neighbours can be merged |
| `ChainLayout.CodeIsUnique` | crates/forensis-core/src/filesystem/exfat/investigation_entry.rs:234-302 | a maximal run code is determined by the chain |
| `ChainLayout.SegmentsArePlaced` | crates/forensis-core/src/filesystem/fat32/investigation_entry.rs:202-270 | segment i starts at the number of clusters before it and carries run i |
| `ChainLayout.BuildContentLayout` | crates/forensis-core/src/filesystem/fat32/investigation_entry.rs:202-270 | the run-tracking loop produces exactly the coalesced segments |
| `ChainLayout.BuildPhysicalLocation` | crates/forensis-core/src/filesystem/exfat/investigation_entry.rs:159-202 | the region loop produces the regions of the same runs |
| `ChainLayout.RegionsAreThePhysicalSegments` | crates/forensis-core/src/filesystem/exfat/investigation_entry.rs:159-302 | reported regions are exactly the regions of the physical segments |
| `ExFatVolume.ParsedIsValid` | crates/forensis-core/src/filesystem/exfat/boot.rs:88-231 | an accepted boot sector has the sector sizes, shift range and root cluster the geometry relies on |
| `Fat32Volume.ParsedIsValid` | crates/forensis-core/src/filesystem/fat32/boot.rs:82-234 | an accepted FAT32 boot sector has the sector and cluster sizes the geometry relies on, its tables before its data area, and its clusters inside the volume |
| `ExFatVolume.ClusterSizeFits` | crates/forensis-core/src/filesystem/exfat/boot.rs:299-311 | the cluster size is a multiple of 512 within 2^37, so rescaling is exact |
| `ExFatVolume.ExFatReader.WalkChain` | crates/forensis-core/src/filesystem/exfat/reader.rs:112-144 | the loop with its seen set computes the chain function |
| `ExFatVolume.ExFatReader.ReadChain` | crates/forensis-core/src/filesystem/exfat/reader.rs:76-105 | appends the first maxBytes bytes of the chain, cluster by cluster, or the first error |
| `Fat32Volume.CacheRefinesDirectReads` | crates/forensis-core/src/filesystem/fat32/reader.rs:205-274 | a cached answer is the direct four-byte read exactly when the entry lies inside the table region (or reads as zero) |
| `Fat32Volume.Fat32Reader.EnsureFatCache` | crates/forensis-core/src/filesystem/fat32/reader.rs:246-274 | fills the cache with the decoded table region once, or fails and leaves it empty |
| `Fat32Volume.Fat32Reader.ReadFatEntry` | crates/forensis-core/src/filesystem/fat32/reader.rs:205-243 | the answer is a function of the volume alone, whatever the state of the cache |
| `Fat32Volume.Fat32Reader.WalkChain` | crates/forensis-core/src/filesystem/fat32/reader.rs:130-164 | the walk is a function of the volume alone |
| `Fat32Volume.Fat32Reader.ReadChain` | crates/forensis-core/src/filesystem/fat32/reader.rs:94-123 | appends the first maxBytes bytes of the chain, or the first error |
| `FatRecovery.RegionExists` | crates/forensis-core/src/filesystem/exfat/investigation_entry.rs:206-231 | the sector range of a run of real clusters always fits 64 bits and is exact |
| `FatRecovery.RunIsContiguous` | crates/forensis-core/src/filesystem/exfat/boot.rs:323-345 | consecutive clusters lie one behind the other |
| `FatRecovery.ChainEndToEnd` | crates/forensis-core/src/recovery/engine.rs:223-322 | coalesced segments and cluster-by-cluster reads give the same bytes for any chain of real clusters and any recorded size; on an unreadable chain recovery errs, and the direct read errs iff more than slack is missing |
| `FatRecovery.ExFatGeometryIsExact` | crates/forensis-core/src/filesystem/exfat/boot.rs:299-345 | sector-based and byte-based positions of a cluster agree for every exFAT sector size |
| `FatRecovery.ExFatEndToEnd` | crates/forensis-core/src/filesystem/exfat/reader.rs:76-105 | recovering an exFAT file equals reading its chain, for every start cluster and recorded size, loops and fragmentation included; unfollowable chains fail, chains leaving the image err, start cluster 0 reads as nothing and recovers as failed |
| `FatRecovery.Fat32EndToEnd` | crates/forensis-core/src/filesystem/fat32/reader.rs:94-123 | the same for every FAT32 volume, start cluster and recorded size; reserved start clusters and sectors of other than 512 bytes have their own exact outcome |
| `FatRecovery.Fat32NeedsSmallSectors` | crates/forensis-core/src/filesystem/fat32/boot.rs:300-302 | with any other sector size a FAT32 file with a chain is never recovered |
| `FatOnDisk.ExFatBootParses` | crates/forensis-core/src/filesystem/exfat/boot.rs:88-231 | an exFAT boot sector written out in bytes is accepted with its fields |
| `FatOnDisk.Fat32BootParses` | crates/forensis-core/src/filesystem/fat32/boot.rs:82-234 | a FAT32 boot sector written out in bytes is accepted with its fields; the data area starts behind all copies of the table |
| `FatOnDisk.WalkFollowsTable` | crates/forensis-core/src/filesystem/exfat/reader.rs:112-144 | a walk gives a chain iff the table spells it out from its start: every cluster but the last leads to the next, no cluster twice, and it stops at an end mark, a reserved or known cluster, or the budget |
| `FatOnDisk.ExFatFollowsTable` | crates/forensis-core/src/filesystem/exfat/reader.rs:112-198 | with the table as four little-endian bytes for each cluster in the image: the reader walks exactly the chains of that table, entries 0, 1 and from 0xFFFFFFF7 up ending them |
| `FatOnDisk.Fat32FollowsTable` | crates/forensis-core/src/filesystem/fat32/reader.rs:130-243 | the same for FAT32, whose end marks start at 0x0FFFFFF7 |
| `FatOnDisk.ExFatFileBytes` | crates/forensis-core/src/filesystem/exfat/reader.rs:76-198 | from the bytes of the table to the bytes of a file: recovery returns the clusters of the stored chain in order, each byte at its place in the heap, cut at the recorded size, or fails when they are too few |
| `FatOnDisk.Fat32FileBytes` | crates/forensis-core/src/filesystem/fat32/reader.rs:94-243 | the same for FAT32 with 512-byte sectors |
| `FatOnDisk.ExFatDirectoryBytes` | crates/forensis-core/src/filesystem/exfat/reader.rs:166-181 | a directory cluster is read as it lies in the image |
| `FatOnDisk.Fat32DirectoryBytes` | crates/forensis-core/src/filesystem/fat32/reader.rs:188-202 | the same for FAT32 |
| `Ext4Extents.ReadLeafEntries` | crates/forensis-core/src/filesystem/ext4/extent_tree.rs:53-77 | the leaf loop appends the extents of the node or stops at the first short entry |
| `Ext4Extents.ResolveNode` | crates/forensis-core/src/filesystem/ext4/extent_tree.rs:80-119 | the bounded recursion over external blocks, on any image, appends what the node function gives |
| `Ext4Extents.ResolveExtents` | crates/forensis-core/src/filesystem/ext4/extent_tree.rs:25-50 | resolves from the root at the smaller of declared depth and 5, and sorts |
| `Ext4Extents.WalkCollects` | crates/forensis-core/src/filesystem/ext4/extent_tree.rs:80-119 | on an encoded tree the walk collects exactly what lies within its depth, in order |
| `Ext4Extents.CompleteWithinDepth` | crates/forensis-core/src/filesystem/ext4/extent_tree.rs:38-45 | the bounded walk loses nothing iff no extent lies deeper |
| `Ext4Extents.ResolvedIsASortedPermutation` | crates/forensis-core/src/filesystem/ext4/extent_tree.rs:25-50 | on any image the result is a stable sort of what the walk finds |
| `Ext4Extents.ResolvesTheTree` | crates/forensis-core/src/filesystem/ext4/extent_tree.rs:25-119 | for a tree whose headers, index entries and extents stand byte by byte at their blocks in the image: every extent is resolved iff none lies deeper than the smaller of the recorded depth and 5, and a key-ordered tree gives its in-order list |
| `Ext4Extents.ShallowTreesAreResolved` | crates/forensis-core/src/filesystem/ext4/extent_tree.rs:38-45 | in particular every such tree of at most five index levels, and no more than its root declares, is resolved completely |
| `Ext4Extents.ResolvedIsOnDisk` | crates/forensis-core/src/filesystem/ext4/extent_tree.rs:25-119 | on any image every resolved extent has a 48-bit block and at most 0x8000 blocks |
| `Sorting.SortIsStable` | crates/forensis-core/src/filesystem/ext4/extent_tree.rs:47-47 | sorting is ordered, stable and a permutation |
| `Sorting.StableSortIsUnique` | crates/forensis-core/src/filesystem/ext4/extent_tree.rs:47-47 | any other stable sort by the same comparison gives the same list |
| `Sorting.TextLeIsTotal` | crates/forensis-app/src/recovery.rs:407-412 | the dictionary order on texts is total |
| `Sorting.TextLeIff` | crates/forensis-app/src/recovery.rs:407-412 | a text comes before another iff it is a prefix of it or smaller where they first differ |
| `Ext4Content.BuildContentLayout` | crates/forensis-core/src/filesystem/ext4/investigation_entry.rs:230-293 | the gap-filling loop produces exactly the declared segments |
| `Ext4Content.BuildPhysicalLocation` | crates/forensis-core/src/filesystem/ext4/investigation_entry.rs:173-192 | the regions are those of the extents that have one, in order |
| `Ext4Content.RegionsAreThePhysicalSegments` | crates/forensis-core/src/filesystem/ext4/investigation_entry.rs:173-293 | reported regions are exactly the regions of the physical segments |
| `Ext4Content.SegmentsTile` | crates/forensis-core/src/filesystem/ext4/investigation_entry.rs:246-290 | segments tile the blocks up to the end of the layout, on any extents |
| `Ext4Content.PlacementIsExact` | crates/forensis-core/src/filesystem/ext4/investigation_entry.rs:246-290 | every extent sits at its own logical block iff the extents are sorted and disjoint |
| `Ext4Content.LayoutIsTheBlockMap` | crates/forensis-core/src/filesystem/ext4/investigation_entry.rs:230-293 | the laid-out blocks are the block map, holes included |
| `Ext4Extents.ParsedExtentIsOnDisk` | crates/forensis-core/src/filesystem/ext4/extent.rs:21-48 | decoded extents have 48-bit blocks and at most 0x8000 blocks |
| `Ext4Extents.ExtentParses` | crates/forensis-core/src/filesystem/ext4/extent.rs:21-48 | the twelve bytes of an extent decode to it: 32-bit logical block, 48-bit physical block, length and unwritten mark |
| `Ext4Extents.NodeParses` | crates/forensis-core/src/filesystem/ext4/extent_header.rs:26-63 | the twelve bytes of a node header decode to its count and depth |
| `Ext4Extents.IndexParses` | crates/forensis-core/src/filesystem/ext4/extent_index.rs:20-52 | the twelve bytes of an index entry decode to the 48-bit block of its child |
| `Ext4Content.RecoveredBytesFollowTheBlockMap` | crates/forensis-core/src/filesystem/ext4/investigation_entry.rs:195-293 | every recovered byte is the image byte of its mapped block, or zero in holes and unwritten extents, iff every reached extent has a 64-bit sector range; nothing is recovered past the last extent |
| `Ext4Content.FarExtentBecomesZeros` | crates/forensis-core/src/filesystem/ext4/investigation_entry.rs:195-293 | concrete extent far out on a disk with blocks of 1 GiB: recovery yields zeros |
| `Ext4Content.InodesFollowTheirBlockMap` | crates/forensis-core/src/filesystem/ext4/extent_tree.rs:25-119 | from the root of an inode to bytes, on any image: what is recovered follows the block map of the resolved extents, always up to 16 MiB blocks and beyond under the exact condition |
| `Ext4Content.TreesFollowTheirBlockMap` | crates/forensis-core/src/filesystem/ext4/extent_tree.rs:25-119 | for a key-ordered tree standing in the image byte by byte that map is the one of its in-order extents |
| `Ext4Content.ReadableExtentsDecideRecovery` | crates/forensis-core/src/recovery/engine.rs:301-315 | with all mapped blocks in the image, recovery succeeds iff the extents reach the recorded size |
| `Ext4Inodes.GroupAndIndexAreABijection` | crates/forensis-core/src/filesystem/ext4/inode_locator.rs:69-104 | group and index determine the inode number and conversely |
| `Ext4Inodes.OffsetSplits` | crates/forensis-core/src/filesystem/ext4/inode_locator.rs:113-181 | inode offset = inode block times block size plus the offset inside the block |
| `Ext4Inodes.SlotsAreDisjoint` | crates/forensis-core/src/filesystem/ext4/inode_locator.rs:113-136 | two inodes of one group never share a byte |
| `Ext4Inodes.InodeRoutesAgree` | crates/forensis-core/src/filesystem/ext4/filesystem.rs:100-152 | the bytes read directly for an inode are its slot of the bulk-read table of its group |
| `Ext4Inodes.DirectRead` | crates/forensis-core/src/filesystem/ext4/inode_locator.rs:113-136 | an inode is read at the table block of its group plus its index times the inode size |
| `ExFatDirectory.ParseDirectoryEntries` | crates/forensis-core/src/filesystem/exfat/directory.rs:214-292 | the slot loop yields the records of the buffer in order, up to a 0xFF slot |
| `ExFatDirectory.ParseRecord` | crates/forensis-core/src/filesystem/exfat/directory.rs:323-430 | one live or deleted record: last stream extension, collected name units, truncation, kind |
| `ExFatDirectory.ParseSlot` | crates/forensis-core/src/filesystem/exfat/directory.rs:224-289 | what one slot contributes on its own: a record, a label, a system entry or nothing |
| `ExFatDirectory.OneSetParsesBack` | crates/forensis-core/src/filesystem/exfat/directory.rs:323-430 | an entry set yields its file and its secondary slots yield nothing, whatever its checksum and reserved bytes and the units behind the name |
| `ExFatDirectory.SetsParseBack` | crates/forensis-core/src/filesystem/exfat/directory.rs:214-430 | any run of live and deleted sets parses to exactly its files, in order, then the rest of the buffer |
| `ExFatDirectory.LastStreamWins` | crates/forensis-core/src/filesystem/exfat/directory.rs:340-372 | of several stream extensions of a record the last one gives cluster and size |
| `ExFatDirectory.SilentSlot` | crates/forensis-core/src/filesystem/exfat/directory.rs:224-289 | a slot of any other type, 0x00 included, is passed over |
| `ExFatDirectory.LabelParsesBack` | crates/forensis-core/src/filesystem/exfat/directory.rs:433-464 | a volume label of up to eleven units parses to its text |
| `ExFatDirectory.SystemEntriesParseBack` | crates/forensis-core/src/filesystem/exfat/directory.rs:264-286 | allocation bitmap and up-case table parse to their label and start cluster |
| `ExFatDirectory.TruncatedSetIsEmpty` | crates/forensis-core/src/filesystem/exfat/directory.rs:323-430 | a file entry whose secondary slots leave the buffer has no name, cluster or size |
| `ExFatEntrySets.RoundTrip` | crates/forensis-core/src/filesystem/exfat/directory.rs:214-430 | writing any files with 1 to 255 nonzero name units and parsing gives them back with name, cluster, size, attributes and deleted flag |
| `ExFatWalk.ExFatInvestigation.RegisterEntry` | crates/forensis-core/src/filesystem/exfat/investigation.rs:313-395 | label, system, directory and file cases: what is added, queued, visited and numbered |
| `ExFatWalk.ExFatInvestigation.ResolveFileChain` | crates/forensis-core/src/filesystem/exfat/investigation.rs:402-420 | the chain bounded by the recorded size, or none |
| `ExFatWalk.ExFatInvestigation.WalkDirectory` | crates/forensis-core/src/filesystem/exfat/investigation.rs:244-307 | adds the directory and registers every record of every cluster of its chain, or returns the first error |
| `ExFatWalk.ExFatInvestigation.Investigate` | crates/forensis-core/src/filesystem/exfat/investigation.rs:182-238 | the queue loop terminates on every volume and computes the whole run |
| `ExFatWalk.PopShrinks` | crates/forensis-core/src/filesystem/exfat/investigation.rs:219-233 | every step uses up a queue place or a cluster number, so the walk ends even on cyclic directories |
| `ExFatHierarchy.StepKeepsInv` | crates/forensis-core/src/filesystem/exfat/investigation.rs:244-395 | one directory walk keeps numbering, parents, breadth-first order, discovery and exact contents |
| `ExFatHierarchy.RunKeepsInv` | crates/forensis-core/src/filesystem/exfat/investigation.rs:219-233 | so does every successful run, to an empty queue |
| `ExFatHierarchy.WalkIsExact` | crates/forensis-core/src/filesystem/exfat/investigation.rs:182-395 | a finished walk: ids number the entries, parents come first, no start cluster twice, directories breadth first, contents exact, listed iff walked |
| `ExFatContents.ContentsAreClusters` | crates/forensis-core/src/filesystem/exfat/investigation.rs:273-307 | the records of a directory are those parsed from its clusters |
| `ExFatContents.WalkListsEverything` | crates/forensis-core/src/filesystem/exfat/investigation.rs:182-395 | every record in a cluster of a walked directory has its entry there with its own fields, or, being a directory, is walked itself; every other entry goes back to such a record; the first entry is the root |
| `ExFatTree.WalkIsOneTree` | crates/forensis-core/src/forensic/tree.rs:115-170 | the tree of such a walk has one root and holds every entry |
| `ExFatTree.WalkResolvesPaths` | crates/forensis-core/src/filesystem/exfat/investigation.rs:89-137 | every path of a walk is the parent's path extended by the entry's name |
| `ExFatTree.WalkOffersItsFiles` | crates/forensis-app/src/recovery.rs:357-415 | everything a walk found that is no directory is offered for recovery, by its own deleted flag, chain and size |
| `ExFatFiles.WalkedFilesHaveChains` | crates/forensis-core/src/filesystem/exfat/investigation.rs:402-420 | every walked file carries the chain its own record leads to |
| `ExFatFiles.WalkedFilesRecover` | crates/forensis-core/src/filesystem/exfat/investigation.rs:377-395 | recovering the entry of any walked file, live or deleted, with any start cluster and size, gives what reading its chain gives |
| `PathResolution.ResolvePath` | crates/forensis-core/src/filesystem/exfat/investigation.rs:89-137 | the climbing loop computes the path and turns at most once more than there are distinct ids, on any parent relation |
| `PathResolution.PathExtendsParent` | crates/forensis-core/src/filesystem/fat32/investigation.rs:118-166 | on hierarchies with smaller recorded parents the path is the parent's path extended by the name |
| `ForensicTree.BuildNode` | crates/forensis-core/src/forensic/tree.rs:145-170 | on every model without a reachable cycle, repeated ids included, the unguarded recursion terminates and builds the declared node |
| `ForensicTree.FromEntries` | crates/forensis-core/src/forensic/tree.rs:115-137 | roots are the entries without parent, with themselves as parent, or with an undiscovered parent, in order |
| `ForensicTree.DistinctIsAcyclic` | crates/forensis-core/src/forensic/tree.rs:145-170 | with distinct ids nothing reachable from a root lies on a cycle |
| `ForensicTree.RankedIsAcyclic` | crates/forensis-core/src/forensic/tree.rs:145-170 | nor with repeated ids when parents have smaller ids than their children |
| `ForensicTree.ForestIsExact` | crates/forensis-core/src/forensic/tree.rs:115-170 | without cycles: every node shows an entry, and an id has a node iff a parent chain of it reaches a root through directories |
| `ForensicTree.DistinctForestIsExact` | crates/forensis-core/src/forensic/tree.rs:115-170 | with distinct ids also no id twice, and an entry has a node iff it is attached |
| `ForensicTree.AttachedIff` | crates/forensis-core/src/forensic/tree.rs:115-170 | an entry is in the tree iff it stands alone or hangs below a directory that is |
| `ForensicTree.RootsAreExact` | crates/forensis-core/src/forensic/tree.rs:115-137 | the roots are the nodes of the entries that stand alone, in entry order |
| `ForensicTree.ChildrenAreExact` | crates/forensis-core/src/forensic/tree.rs:145-170 | the children of a node are the nodes of the entries below its entry, in entry order |
| `ForensicTree.SearchIsPreorder` | crates/forensis-core/src/forensic/tree.rs:77-89 | a search returns the first match in preorder and fails only when there is none |
| `ForensicTree.FindIsExact` | crates/forensis-core/src/forensic/tree.rs:183-206 | looking up an id finds a node that carries it and shows its entry, iff some entry with that id is attached |
| `ForensicTree.FindPathIsExact` | crates/forensis-core/src/forensic/tree.rs:207-225 | looking up a path finds the first node in preorder with the normalized path, and fails only when none is attached |
| `ForensicTree.NumberedIsOneTree` | crates/forensis-core/src/forensic/tree.rs:115-170 | ids from 1 with earlier directory parents make one tree holding every entry |
| `ForensicTree.BuildEndsIff` | crates/forensis-core/src/forensic/tree.rs:145-170 | the recursion of the builder ends iff the model has no reachable cycle |
| `ForensicTree.PathsAreBoundedIff` | crates/forensis-core/src/forensic/tree.rs:145-170 | paths down from the roots are bounded in length iff none meets an entry twice |
| `ForensicTree.RepeatedIdsLoop` | crates/forensis-core/src/forensic/tree.rs:145-170 | three entries with a repeated id have paths of every length, so the recursion would not end |
| `Candidates.GroupByParent` | crates/forensis-app/src/recovery.rs:364-370 | the map groups entry positions by parent, in order |
| `Candidates.SplitChildren` | crates/forensis-app/src/recovery.rs:395-404 | one pass over children: directories to push, matching files to keep |
| `Candidates.Traverse` | crates/forensis-app/src/recovery.rs:372-405 | the guarded loop terminates on any entries and collects the declared traversal, in its order |
| `Candidates.TraversalIsExact` | crates/forensis-app/src/recovery.rs:372-405 | the traversal meets exactly the matching positions whose parent is reachable, each once, cycles and repeated ids included |
| `Candidates.ReachableIff` | crates/forensis-app/src/recovery.rs:372-405 | an id is reachable iff it is the root or that of a directory below a reachable id |
| `Candidates.CandidateIff` | crates/forensis-app/src/recovery.rs:31-47 | what is offered: no directory, below a reachable directory, deleted when only deleted ones are asked for, normal when only normal ones are |
| `Candidates.CollectRecoverableEntries` | crates/forensis-app/src/recovery.rs:357-415 | the result is the stable sort of the traversal by lowercased path, and holds each candidate position once |
| `Candidates.VisitKeepsProgress` | crates/forensis-app/src/recovery.rs:384-405 | one visit keeps soundness, closure and exactness of the traversal |
| `Fat32Investigation.Investigation.AddEntry` | crates/forensis-core/src/filesystem/fat32/investigation.rs:79-87 | keeps the first entry of each (parent, name) pair and counts the rest: kept plus discarded equals added |
| `Fat32Investigation.OnePerKey` | crates/forensis-core/src/filesystem/fat32/investigation.rs:72-87 | kept pairs are unique and every added pair is kept once |
| `Fat32Investigation.KeptIffFirst` | crates/forensis-core/src/filesystem/fat32/investigation.rs:72-87 | an entry is kept iff nothing with its pair was added before |
| `Fat32Investigation.KeptIdsIncrease` | crates/forensis-core/src/filesystem/fat32/investigation.rs:79-87 | ids handed out in increasing order stay increasing, hence distinct |
| `Fat32Investigation.OrphansIffDiscardedParents` | crates/forensis-core/src/filesystem/fat32/investigation.rs:79-87 | with distinct ids and every parent added, some kept entry lacks its parent iff some added entry names a discarded entry as parent |
| `Fat32Investigation.DiscardingCanOrphan` | crates/forensis-core/src/filesystem/fat32/investigation.rs:79-87 | concrete additions where that happens |
| `Fat32Walk.HasDirectoryMarkers` | crates/forensis-core/src/filesystem/fat32/directory.rs:296-321 | the loop accepts a cluster iff one of its first three slots, before any end mark, is a live or deleted dot entry |
| `Fat32Walk.MarkersIff` | crates/forensis-core/src/filesystem/fat32/directory.rs:296-321 | a cluster passes iff one of its first three slots, none before it an end mark, is a dot entry |
| `Fat32Walk.DirectoryIsFollowedIff` | crates/forensis-core/src/filesystem/fat32/investigation.rs:273-316 | outside the data area never, the root always, any other cluster iff it can be read and passes |
| `Fat32Walk.Walk.RegisterEntry` | crates/forensis-core/src/filesystem/fat32/investigation.rs:367-426 | label, directory and file cases: what is added, queued, visited and numbered, whatever the table cache holds |
| `Fat32Walk.Walk.WalkDirectory` | crates/forensis-core/src/filesystem/fat32/investigation.rs:273-360 | skips what is no directory, otherwise adds it and registers every record of its clusters, or returns the first error |
| `Fat32Walk.Walk.Investigate` | crates/forensis-core/src/filesystem/fat32/investigation.rs:210-266 | the queue loop terminates on every volume and computes the whole run |
| `Fat32Walk.StepShrinks` | crates/forensis-core/src/filesystem/fat32/investigation.rs:240-262 | every step uses up a queue place or a cluster number, so the walk ends even on cyclic directories |
| `Fat32Walk.RunKeepsInv` | crates/forensis-core/src/filesystem/fat32/investigation.rs:240-262 | every successful run keeps numbering and parents, to an empty queue |
| `Fat32Walk.WalkIsConsistent` | crates/forensis-core/src/filesystem/fat32/investigation.rs:210-426 | a finished walk: increasing ids, all parents added, one kept entry for each (parent, name) pair, orphans iff a discarded entry is named as parent |
| `Fat32Hierarchy.WalkFindsEverything` | crates/forensis-core/src/filesystem/fat32/investigation.rs:210-426 | a finished walk: every record of an added directory has its entry with its own name, attributes, size, cluster and deleted flag, or, for a directory, its cluster visited; every visited cluster that can be followed is added with its chain; every entry but the root goes back to a record |
| `Fat32Walk.KeptFilesHaveChains` | crates/forensis-core/src/filesystem/fat32/investigation.rs:431-452 | every kept file carries the chain its own record leads to |
| `Fat32Files.KeptFilesRecover` | crates/forensis-core/src/filesystem/fat32/investigation.rs:404-425 | recovering the entry of any kept file gives what reading its chain gives |

## Left out

- Allocation failure, 32-bit address spaces and object-id overflow: buffers always fit, and the object counters of both FAT walks are unbounded.
- Wrapping arithmetic of release builds where the source does not check: modelled as the error `Panic` instead.
- Text and time: names stay UTF-16 units or opaque strings, timestamps raw integers; UTF-8, UTF-16 and lowercase conversion are not modelled.
- Candidates.CollectRecoverableEntries: the lowercase conversion of paths is a parameter; comparing and sorting the converted texts is modelled.
- RecoveryEngine.UnknownSizesAgree: for content below 2^64-1 bytes, because the region loop stops there.
- RecoveryEngine.RegionsExactness: for regions readable as a whole; what a cut-off or unreadable region does is in RecoveryEngine.RegionsAgreeWithLayout.
- NtfsContent.DroppedLayoutStillAgrees: one direction; where a reached run is sparse or has no sector range, whether the routes still agree depends on the bytes of later runs.
- Ext4Content.RecoveredBytesFollowTheBlockMap: the block size is a multiple of 512 below 2^32 bytes, as the superblock parser produces it for every size from 1 KiB on.
- ExFatWalk.ExFatInvestigation.Investigate: progress reports are not modelled, and the investigation, its queue and its visited set are fields of one class rather than separate mutable references.
- Fat32Walk.Walk.Investigate: progress reports are not modelled, and the decoding of a directory cluster into records, long names included, is a parameter.
- The conversion to forensic entries beyond identity, hierarchy, size, regions and layout: allocation counters and timestamps are dropped.
- Regions with an explicit byte offset are computed by the engine model, but no producer creates them.
- The entry walk inside an NTFS index block, attribute headers, and the rest of the MFT record.
- ext4 directories, the deleted-inode scan, superblock and group-descriptor fields, bitmaps and the journal.
- Partition tables, filesystem detection, hashing, ticket files, output files, progress, the command line and the text interface.
