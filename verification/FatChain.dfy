/** Following a cluster chain through a file allocation table, shared by FAT32 and exFAT. */
module FatChain {
  import opened Machine
  import opened Sequences

  /** The entry values that end a chain. */
  datatype FatRules = FatRules(badCluster: U32, endOfChain: U32) {
    predicate Terminates(entry: U32) {
      entry >= endOfChain || entry == badCluster || entry < 2
    }
  }

  /** A table maps a cluster to its entry, or fails. */
  type Fat = U32 -> Result<U32>

  /** The walk from `cluster` after `length` clusters in `seen`: it stops at the budget, at a repeated cluster, which
      is still recorded, or at a terminating entry. */
  function WalkFrom(fat: Fat, rules: FatRules, cluster: U32, seen: set<U32>, maxClusters: nat,
      length: nat): Result<seq<U32>>
    decreases maxClusters - length
  {
    if length + 1 >= maxClusters || cluster in seen then Ok([cluster])
    else
      var entry :- fat(cluster);
      if rules.Terminates(entry) then Ok([cluster])
      else
        var rest :- WalkFrom(fat, rules, entry, seen + {cluster}, maxClusters, length + 1);
        Ok([cluster] + rest)
  }

  function Walk(fat: Fat, rules: FatRules, start: U32, maxClusters: nat): Result<seq<U32>> {
    WalkFrom(fat, rules, start, {}, maxClusters, 0)
  }

  // ----- the meaning of a walk -----

  /** The entry of cluster i of the chain leads to cluster i + 1. */
  ghost predicate LinkAt(fat: Fat, rules: FatRules, chain: seq<U32>, i: nat)
    requires i + 1 < |chain|
  {
    fat(chain[i]) == Ok(chain[i + 1]) && !rules.Terminates(chain[i + 1])
  }

  /** Cluster i of the chain occurs neither in `seen` nor earlier in the chain. */
  ghost predicate FreshAt(chain: seq<U32>, seen: set<U32>, i: nat)
    requires i < |chain|
  {
    chain[i] !in seen && chain[i] !in chain[..i]
  }

  /** Why a walk ends where it does. */
  ghost predicate Stops(fat: Fat, rules: FatRules, chain: seq<U32>, seen: set<U32>, maxClusters: nat, length: nat)
    requires chain != []
  {
    var last := chain[|chain| - 1];
    || length + |chain| >= maxClusters
    || !FreshAt(chain, seen, |chain| - 1)
    || (fat(last).Ok? && rules.Terminates(fat(last).value))
  }

  ghost predicate IsWalkFrom(fat: Fat, rules: FatRules, cluster: U32, seen: set<U32>, maxClusters: nat, length: nat,
                             chain: seq<U32>) {
    && chain != [] && chain[0] == cluster
    && (forall i | 0 <= i < |chain| - 1 :: LinkAt(fat, rules, chain, i))
    && (forall i | 0 <= i < |chain| - 1 :: FreshAt(chain, seen, i))
    && (|chain| == 1 || length + |chain| <= maxClusters)
    && Stops(fat, rules, chain, seen, maxClusters, length)
  }

  lemma PrependCluster(fat: Fat, rules: FatRules, cluster: U32, seen: set<U32>, maxClusters: nat, length: nat,
      rest: seq<U32>)
    requires rest != [] && cluster !in seen && length + 1 < maxClusters
    requires fat(cluster) == Ok(rest[0]) && !rules.Terminates(rest[0])
    ensures IsWalkFrom(fat, rules, cluster, seen, maxClusters, length, [cluster] + rest)
       <==> IsWalkFrom(fat, rules, rest[0], seen + {cluster}, maxClusters, length + 1, rest)
  {
    var chain := [cluster] + rest;
    forall i: nat | i < |rest| ensures FreshAt(chain, seen, i + 1) <==> FreshAt(rest, seen + {cluster}, i) {
      assert chain[..i + 1] == [cluster] + rest[..i];
    }
    forall i: nat | i < |rest| - 1 ensures LinkAt(fat, rules, chain, i + 1) <==> LinkAt(fat, rules, rest, i) {
    }
    assert LinkAt(fat, rules, chain, 0) && FreshAt(chain, seen, 0);
    if IsWalkFrom(fat, rules, rest[0], seen + {cluster}, maxClusters, length + 1, rest) {
      forall i | 0 <= i < |rest| ensures LinkAt(fat, rules, chain, i) && FreshAt(chain, seen, i) {
        if i > 0 {
          assert LinkAt(fat, rules, rest, i - 1) && FreshAt(rest, seen + {cluster}, i - 1);
        }
      }
    } else if IsWalkFrom(fat, rules, cluster, seen, maxClusters, length, chain) {
      forall i | 0 <= i < |rest| - 1 ensures LinkAt(fat, rules, rest, i) && FreshAt(rest, seen + {cluster}, i) {
        assert LinkAt(fat, rules, chain, i + 1) && FreshAt(chain, seen, i + 1);
      }
    }
  }

  /** A successful walk is exactly the maximal linked run of fresh clusters within the budget. */
  lemma {:induction false} WalkFromMeaning(fat: Fat, rules: FatRules, cluster: U32, seen: set<U32>, maxClusters: nat,
                                           length: nat, chain: seq<U32>)
    ensures WalkFrom(fat, rules, cluster, seen, maxClusters, length) == Ok(chain)
       <==> IsWalkFrom(fat, rules, cluster, seen, maxClusters, length, chain)
    decreases maxClusters - length
  {
    if length + 1 >= maxClusters || cluster in seen || fat(cluster).Err? || rules.Terminates(fat(cluster).value) {
      OneClusterWalk(fat, rules, cluster, seen, maxClusters, length, chain);
    } else {
      var entry := fat(cluster).value;
      if |chain| > 1 && chain[0] == cluster {
        var rest := chain[1..];
        assert chain == [cluster] + rest;
        WalkFromMeaning(fat, rules, entry, seen + {cluster}, maxClusters, length + 1, rest);
        if rest[0] == entry {
          PrependCluster(fat, rules, cluster, seen, maxClusters, length, rest);
        } else if IsWalkFrom(fat, rules, cluster, seen, maxClusters, length, chain) {
          FirstLink(fat, rules, cluster, seen, maxClusters, length, chain);
        }
        NonEmptyWalk(fat, rules, entry, seen + {cluster}, maxClusters, length + 1);
        WalkIsPrefixed(fat, rules, cluster, seen, maxClusters, length, rest);
      } else {
        NonEmptyWalk(fat, rules, entry, seen + {cluster}, maxClusters, length + 1);
      }
    }
  }

  lemma NonEmptyWalk(fat: Fat, rules: FatRules, cluster: U32, seen: set<U32>, maxClusters: nat, length: nat)
    ensures var r := WalkFrom(fat, rules, cluster, seen, maxClusters, length);
      r.Ok? ==> r.value != [] && r.value[0] == cluster
  {}

  lemma WalkIsPrefixed(fat: Fat, rules: FatRules, cluster: U32, seen: set<U32>, maxClusters: nat, length: nat,
      rest: seq<U32>)
    requires !(length + 1 >= maxClusters || cluster in seen) && fat(cluster).Ok?
      && !rules.Terminates(fat(cluster).value)
    ensures WalkFrom(fat, rules, cluster, seen, maxClusters, length) == Ok([cluster] + rest)
       <==> WalkFrom(fat, rules, fat(cluster).value, seen + {cluster}, maxClusters, length + 1) == Ok(rest)
  {
    var r := WalkFrom(fat, rules, fat(cluster).value, seen + {cluster}, maxClusters, length + 1);
    if r.Ok? && [cluster] + r.value == [cluster] + rest {
      assert r.value == ([cluster] + r.value)[1..] == rest;
    }
  }

  lemma OneClusterWalk(fat: Fat, rules: FatRules, cluster: U32, seen: set<U32>, maxClusters: nat, length: nat,
      chain: seq<U32>)
    requires length + 1 >= maxClusters || cluster in seen || fat(cluster).Err? || rules.Terminates(fat(cluster).value)
    ensures WalkFrom(fat, rules, cluster, seen, maxClusters, length) == Ok(chain)
       <==> IsWalkFrom(fat, rules, cluster, seen, maxClusters, length, chain)
  {
    if |chain| == 1 && chain[0] == cluster {
      assert chain == [cluster];
    } else if IsWalkFrom(fat, rules, cluster, seen, maxClusters, length, chain) {
      FirstLink(fat, rules, cluster, seen, maxClusters, length, chain);
    }
  }

  lemma FirstLink(fat: Fat, rules: FatRules, cluster: U32, seen: set<U32>, maxClusters: nat, length: nat,
      chain: seq<U32>)
    requires IsWalkFrom(fat, rules, cluster, seen, maxClusters, length, chain) && |chain| > 1
    ensures cluster !in seen && fat(cluster) == Ok(chain[1]) && !rules.Terminates(chain[1])
  {
    assert LinkAt(fat, rules, chain, 0) && FreshAt(chain, seen, 0);
  }

  /** The chain theorem for a whole walk. */
  lemma WalkMeaning(fat: Fat, rules: FatRules, start: U32, maxClusters: nat, chain: seq<U32>)
    ensures Walk(fat, rules, start, maxClusters) == Ok(chain)
       <==> IsWalkFrom(fat, rules, start, {}, maxClusters, 0, chain)
  {
    WalkFromMeaning(fat, rules, start, {}, maxClusters, 0, chain);
  }

  /** Even a cyclic table gives a chain no longer than the number of clusters it covers. */
  lemma WalkIsBounded(fat: Fat, rules: FatRules, start: U32, maxClusters: nat, total: nat)
    requires forall c: U32 :: fat(c).Ok? ==> 2 <= c <= total
    requires Walk(fat, rules, start, maxClusters).Ok?
    ensures 1 <= |Walk(fat, rules, start, maxClusters).value| <= Max(1, maxClusters)
    ensures |Walk(fat, rules, start, maxClusters).value| <= Max(1, total)
  {
    var chain := Walk(fat, rules, start, maxClusters).value;
    WalkMeaning(fat, rules, start, maxClusters, chain);
    var front := chain[..|chain| - 1];
    forall i | 0 <= i < |front| ensures 2 <= front[i] <= total {
      assert LinkAt(fat, rules, chain, i);
    }
    forall i, j | 0 <= i < j < |front| ensures front[i] != front[j] {
      assert FreshAt(chain, {}, j) && chain[..j][i] == chain[i];
    }
    FewDistinct(front, total);
  }

  /** Distinct numbers from 2 to total are fewer than total. */
  lemma FewDistinct(s: seq<U32>, total: nat)
    requires NoRepeats(s) && forall i | 0 <= i < |s| :: 2 <= s[i] <= total
    ensures |s| <= Max(0, total - 1)
  {
    SizeOfMembers(s);
    if s != [] {
      BoundedSetSize(Members(s), 2, total + 1);
    }
  }
}
