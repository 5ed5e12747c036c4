/** From the directory walk to recovered bytes: the files an exFAT walk finds. */
module ExFatFiles {
  import opened ForensicModel
  import opened RecoveryEngine
  import opened FatRecovery
  import opened ExFatDirectory
  import opened ExFatWalk
  import opened ExFatHierarchy

  /** Every file a successful walk finds, live or deleted, carries the chain its record leads to. */
  lemma WalkedFilesHaveChains(v: Volume, i: nat)
    requires v.Valid() && Run(v, Initial(v)).Ok? && i < |Run(v, Initial(v)).value.entries|
    ensures HasOwnChain(v, Run(v, Initial(v)).value.entries[i])
  {
    WalkIsExact(v);
  }

  /** And recovering the forensic entry built for it gives what reading its chain directly gives, as `ExFatEndToEnd`
      says it for any file. */
  lemma WalkedFilesRecover(v: Volume, i: nat, w: WalkEntry, entry: Entry)
    requires v.Valid() && Run(v, Initial(v)).Ok? && i < |Run(v, Initial(v)).value.entries|
    requires w == Run(v, Initial(v)).value.entries[i] && w.kind == FileRecord
    requires ChainEntry(entry, ExFatGeometry(v.reader), w.chain, v.reader.boot.ClusterSize(), w.realSize)
    ensures ExFatOutcome(v.reader, v.img, w.cluster, w.realSize, w.chain,
                         Engine(v.reader.partitionOffset, 512).Outcome(v.img, entry))
  {
    WalkedFilesHaveChains(v, i);
    ExFatEndToEnd(v.reader, v.img, w.cluster, w.realSize, entry);
  }
}
