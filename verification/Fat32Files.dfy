/** From the FAT32 walk to recovered bytes. */
module Fat32Files {
  import opened ForensicModel
  import opened RecoveryEngine
  import opened FatRecovery
  import opened Fat32Investigation
  import opened Fat32Walk

  /** Recovering the forensic entry built for a file that a FAT32 walk keeps, live or deleted, gives what reading its
      chain directly gives, as `Fat32EndToEnd` says it for any file. */
  lemma KeptFilesRecover(v: Volume, e: FoundEntry, entry: Entry)
    requires v.Valid() && Run(v, Initial(v)).Ok? && e in Firsts(Run(v, Initial(v)).value.added)
    requires !e.isDirectory && !e.isVolumeLabel
    requires ChainEntry(entry, Fat32Geometry(v.disk), e.chain, v.disk.boot.ClusterSize(), e.size)
    ensures Fat32Outcome(v.disk, e.cluster, e.size, e.chain,
      Engine(v.disk.partitionOffset, 512).Outcome(v.disk.img, entry))
  {
    KeptFilesHaveChains(v, e);
    Fat32EndToEnd(v.disk, e.cluster, e.size, entry);
  }
}
