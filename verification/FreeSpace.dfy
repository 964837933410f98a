/** Free clusters: the order in which first fit takes them, and how many there are. */
module FreeSpace {
  import opened Codec
  import opened Paths
  import opened Volumes

  /** The free clusters from `i` on, in the order a scan meets them. */
  function FreeFrom(fat: seq<uint32>, i: nat): seq<uint32>
    requires |fat| == CLUSTER_MAP_SIZE && i <= CLUSTER_MAP_SIZE
    decreases CLUSTER_MAP_SIZE - i
  {
    if i == CLUSTER_MAP_SIZE then []
    else if fat[i] == EMPTY_ENTRY then [i] + FreeFrom(fat, i + 1)
    else FreeFrom(fat, i + 1)
  }

  lemma PrependSmaller(i: uint32, rest: seq<uint32>)
    requires Ascending(rest) && forall c :: c in rest ==> i < c
    ensures Ascending([i] + rest) && forall c :: c in [i] + rest <==> c == i || c in rest
  {
    var all := [i] + rest;
    assert forall j :: 0 < j < |all| ==> all[j] == rest[j - 1] && rest[j - 1] in rest;
  }

  /** The scan meets each free cluster once, in ascending order, and no other. */
  lemma {:induction false} FreeFromFree(fat: seq<uint32>, i: nat)
    requires |fat| == CLUSTER_MAP_SIZE && i <= CLUSTER_MAP_SIZE
    ensures Ascending(FreeFrom(fat, i))
    ensures forall c :: c in FreeFrom(fat, i) <==> i <= c < CLUSTER_MAP_SIZE && fat[c] == EMPTY_ENTRY
    decreases CLUSTER_MAP_SIZE - i
  {
    if i < CLUSTER_MAP_SIZE {
      FreeFromFree(fat, i + 1);
      PrependSmaller(i, FreeFrom(fat, i + 1));
    }
  }

  function FreeList(fat: seq<uint32>): seq<uint32>
    requires |fat| == CLUSTER_MAP_SIZE
  {
    FreeFrom(fat, 3)
  }

  function FreeCount(fat: seq<uint32>): nat
    requires |fat| == CLUSTER_MAP_SIZE
  {
    |FreeList(fat)|
  }

  /** A first-fit scan that has reached `i` has taken `chain`. */
  ghost predicate Scanned(fat: seq<uint32>, i: nat, chain: seq<uint32>)
    requires |fat| == CLUSTER_MAP_SIZE
  {
    3 <= i <= CLUSTER_MAP_SIZE && chain + FreeFrom(fat, i) == FreeList(fat)
    && forall j :: 0 <= j < |chain| ==> 3 <= chain[j] < i
  }

  lemma ScanStep(fat: seq<uint32>, i: uint32, chain: seq<uint32>)
    requires |fat| == CLUSTER_MAP_SIZE && i < CLUSTER_MAP_SIZE && Scanned(fat, i, chain)
    ensures Scanned(fat, i + 1, if fat[i] == EMPTY_ENTRY then chain + [i] else chain)
  {
    if fat[i] == EMPTY_ENTRY {
      assert chain + ([i] + FreeFrom(fat, i + 1)) == (chain + [i]) + FreeFrom(fat, i + 1);
    }
  }

  /** A scan that stopped took a prefix of the free list, all of it if it reached the end. */
  lemma ScanStop(fat: seq<uint32>, i: nat, chain: seq<uint32>)
    requires |fat| == CLUSTER_MAP_SIZE && Scanned(fat, i, chain)
    ensures |chain| <= FreeCount(fat) && chain == FreeList(fat)[..|chain|]
    ensures i == CLUSTER_MAP_SIZE ==> chain == FreeList(fat)
  {
  }

  /** The clusters from `i` on that the table does not call empty. */
  ghost function TakenFrom(fat: seq<uint32>, i: nat): set<uint32>
    requires |fat| == CLUSTER_MAP_SIZE
  {
    set c: uint32 | i <= c < CLUSTER_MAP_SIZE && fat[c] != EMPTY_ENTRY
  }

  lemma {:induction false} FreePlusTaken(fat: seq<uint32>, i: nat)
    requires |fat| == CLUSTER_MAP_SIZE && i <= CLUSTER_MAP_SIZE
    ensures |FreeFrom(fat, i)| + |TakenFrom(fat, i)| == CLUSTER_MAP_SIZE - i
    decreases CLUSTER_MAP_SIZE - i
  {
    if i == CLUSTER_MAP_SIZE {
      assert TakenFrom(fat, i) == {};
    } else {
      FreePlusTaken(fat, i + 1);
      if fat[i] == EMPTY_ENTRY {
        assert TakenFrom(fat, i) == TakenFrom(fat, i + 1);
      } else {
        assert TakenFrom(fat, i) == TakenFrom(fat, i + 1) + {i};
      }
    }
  }

  /** Conservation: in every valid state, free clusters and owned clusters add up to the data
      area and the root. */
  lemma Conservation(v: Volume, lay: Layout)
    requires Inv(v, lay)
    ensures FreeCount(v.fat) + |lay.owner.Keys| == CLUSTER_MAP_SIZE - 2
  {
    FreePlusTaken(v.fat, 3);
    assert lay.nodes[Root].Has(ROOT_CLUSTER);
    forall c: uint32
      ensures c in lay.owner <==> c in TakenFrom(v.fat, 3) + {ROOT_CLUSTER}
    {
      if c in lay.owner {
        var p := lay.owner[c];
        assert lay.nodes[p].Has(c);
        if c >= 3 {
          FreeIsUnowned(v, lay, c);
        }
      }
    }
    assert lay.owner.Keys == TakenFrom(v.fat, 3) + {ROOT_CLUSTER};
  }

  function Elements(chain: seq<uint32>): set<uint32> {
    set c | c in chain
  }

  /** A climbing chain has as many clusters as it is long. */
  lemma {:induction false} AscendingSize(chain: seq<uint32>)
    requires Ascending(chain)
    ensures |Elements(chain)| == |chain|
    decreases |chain|
  {
    if chain != [] {
      var last, rest := chain[|chain| - 1], chain[..|chain| - 1];
      AscendingSize(rest);
      assert last !in Elements(rest);
      assert chain == rest + [last];
      assert Elements(chain) == Elements(rest) + {last};
    }
  }

  /** The first free cluster is the lowest one. */
  lemma FirstFree(fat: seq<uint32>, c: uint32)
    requires |fat| == CLUSTER_MAP_SIZE && 3 <= c < CLUSTER_MAP_SIZE && fat[c] == EMPTY_ENTRY
    ensures FreeCount(fat) > 0
    ensures c == FreeList(fat)[0] <==> forall x :: 3 <= x < c ==> fat[x] != EMPTY_ENTRY
  {
    FreeFromFree(fat, 3);
    var free := FreeList(fat);
    assert c in free && free[0] in free;
    var j :| 0 <= j < |free| && free[j] == c;
    if x: uint32 :| 3 <= x < c && fat[x] == EMPTY_ENTRY {
      assert x in free;
      var i :| 0 <= i < |free| && free[i] == x;
    }
  }

  /** Without an empty entry from `i` on the list of free clusters is empty. */
  lemma {:induction false} NoneFree(fat: seq<uint32>, i: nat)
    requires |fat| == CLUSTER_MAP_SIZE && i <= CLUSTER_MAP_SIZE
    requires forall c :: i <= c < CLUSTER_MAP_SIZE ==> fat[c] != EMPTY_ENTRY
    ensures FreeFrom(fat, i) == []
    decreases CLUSTER_MAP_SIZE - i
  {
    if i < CLUSTER_MAP_SIZE {
      NoneFree(fat, i + 1);
    }
  }
}
