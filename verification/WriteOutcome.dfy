/** What a completed write leaves behind, decided by the free clusters it found. */
module WriteOutcome {
  import opened Codec
  import opened Paths
  import opened Volumes
  import opened Insertion
  import opened FreeSpace
  import opened Allocation
  import opened Exhaustion

  datatype Request = Request(name: Name, ext: Ext, parent: uint32, bufferSize: uint32)
  {
    function FullName(): Key {
      Key(name, ext)
    }
  }

  /** The clusters a write takes: one for a folder, enough for the bytes of a file. */
  function Needed(request: Request): nat {
    if request.bufferSize == 0 then 1 else ClustersFor(request.bufferSize)
  }

  /** What a write puts in the tree. */
  function Payload(request: Request, data: seq<byte>): Content {
    if request.bufferSize == 0 then Directory else Document(Truncated(data, request.bufferSize))
  }

  /** `i` is the first clear slot of the table. */
  ghost predicate FirstClear(t: seq<DirEntry>, i: nat)
    requires |t| == SLOTS
  {
    2 <= i < SLOTS && !t[i].notEmpty && forall j :: 2 <= j < i ==> t[j].notEmpty
  }

  /** The request may be recorded in slot `first` of its parent's table. */
  ghost predicate Writable(v: Volume, lay: Layout, request: Request, first: nat) {
    && Inv(v, lay) && request.parent < CLUSTER_MAP_SIZE && IsFolder(lay, request.parent)
    && Child(lay.owner[request.parent], request.FullName()) !in lay.nodes
    && IsTable(v.disk[request.parent]) && FirstClear(v.disk[request.parent].entries, first)
  }

  /** The request became a node: the tree gained its payload and nothing else. */
  ghost predicate Stored(v: Volume, lay: Layout, v': Volume, lay': Layout, request: Request, data: seq<byte>)
    requires Inv(v, lay) && IsFolder(lay, request.parent)
  {
    var q := Child(lay.owner[request.parent], request.FullName());
    && Inv(v', lay') && q in lay'.nodes && lay' == WithNode(lay, q, lay'.nodes[q])
    && TreeOf(v', lay') == TreeOf(v, lay)[q := Payload(request, data)]
    && FreeCount(v'.fat) == FreeCount(v.fat) - Needed(request)
    && (lay'.nodes[q].Folder? <==> request.bufferSize == 0)
  }

  /** No layout makes this a valid volume. */
  ghost predicate Broken(v: Volume) {
    forall lay :: !Inv(v, lay)
  }

  lemma ParentFacts(v: Volume, lay: Layout, c: uint32)
    requires Inv(v, lay) && IsFolder(lay, c)
    ensures var p := lay.owner[c];
      && 2 <= c < CLUSTER_MAP_SIZE && lay.nodes[p].cluster == c && NodeOk(v, lay.nodes, p)
      && IsTable(v.disk[c]) && v.fat[c] == END_OF_FILE
  {
    var p := lay.owner[c];
    assert lay.nodes[p].Has(c);
    assert NodeOk(v, lay.nodes, p);
  }

  /** Free clusters go down by what the new node owns. */
  lemma FreeAfterAdd(v: Volume, v': Volume, lay: Layout, q: Path, n: Node)
    requires Inv(v, lay) && Inv(v', WithNode(lay, q, n)) && q !in lay.nodes
    requires forall c: uint32 :: n.Has(c) ==> 3 <= c < CLUSTER_MAP_SIZE && v.fat[c] == EMPTY_ENTRY
    ensures FreeCount(v'.fat) == FreeCount(v.fat) - |n.Clusters()|
  {
    Conservation(v, lay);
    Conservation(v', WithNode(lay, q, n));
    forall c | c in n.Clusters()
      ensures c !in lay.owner
    {
      FreeIsUnowned(v, lay, c);
    }
    assert WithNode(lay, q, n).owner.Keys == lay.owner.Keys + n.Clusters();
  }

  lemma FileStored(v: Volume, mid: Volume, v': Volume, lay: Layout, request: Request, first: nat,
                   chain: seq<uint32>, data: seq<byte>)
    requires Writable(v, lay, request, first) && request.bufferSize > 0
    requires ClustersFor(request.bufferSize) <= FreeCount(v.fat)
    requires chain == FreeList(v.fat)[..ClustersFor(request.bufferSize)]
    requires Span(|chain|) <= |data| && Chained(v, mid, chain, Parts(data, |chain|))
    requires Recorded(v, mid, v', request.parent, first, File(first, request.bufferSize, chain).Entry(request.FullName()))
    ensures Stored(v, lay, v', WithNode(lay, Child(lay.owner[request.parent], request.FullName()),
                                        File(first, request.bufferSize, chain)), request, data)
  {
    var p, k, n := lay.owner[request.parent], request.FullName(), File(first, request.bufferSize, chain);
    ParentFacts(v, lay, request.parent);
    assert FirstFit(v, lay, p, k, n);
    AddFile(v, mid, v', lay, p, k, n, data);
    FirstFitFree(v, lay, p, k, n);
    FreeAfterAdd(v, v', lay, Child(p, k), n);
    AscendingSize(chain);
    assert n.Clusters() == Elements(chain);
  }

  lemma FolderStored(v: Volume, v': Volume, lay: Layout, request: Request, first: nat, c: uint32)
    requires Writable(v, lay, request, first) && request.bufferSize == 0
    requires 3 <= c < CLUSTER_MAP_SIZE && v.fat[c] == EMPTY_ENTRY && v'.fat == v.fat[c := END_OF_FILE]
    requires IsTable(v'.disk[c]) && FreshTable(v'.disk[c].entries, c, request.parent)
    requires v'.disk[request.parent]
          == Table(v.disk[request.parent].entries[first := Folder(first, c).Entry(request.FullName())])
    requires forall x :: 2 <= x < CLUSTER_MAP_SIZE && x != request.parent && x != c ==> v'.disk[x] == v.disk[x]
    ensures Stored(v, lay, v', WithNode(lay, Child(lay.owner[request.parent], request.FullName()), Folder(first, c)),
                   request, [])
  {
    var p, k, n := lay.owner[request.parent], request.FullName(), Folder(first, c);
    ParentFacts(v, lay, request.parent);
    AddFolder(v, v', lay, p, k, n);
    FreeAfterAdd(v, v', lay, Child(p, k), n);
  }

  /** Folders sit on owned clusters, so an allocation leaves their tables alone. */
  lemma OthersKeepTables(v: Volume, mid: Volume, v': Volume, lay: Layout, request: Request, first: nat,
                         chain: seq<uint32>, parts: seq<seq<byte>>, e: DirEntry)
    requires Writable(v, lay, request, first) && e.notEmpty
    requires forall c :: c in chain ==> 3 <= c < CLUSTER_MAP_SIZE && v.fat[c] == EMPTY_ENTRY
    requires Chained(v, mid, chain, parts)
    requires Recorded(v, mid, v', request.parent, first, e)
    ensures EntryAppeared(v, v', lay, lay.owner[request.parent], first, e)
  {
    var p := lay.owner[request.parent];
    ParentFacts(v, lay, request.parent);
    forall r {:trigger lay.nodes[r].Folder?} | r in lay.nodes && lay.nodes[r].Folder?
      ensures var d := lay.nodes[r].cluster;
        && d < CLUSTER_MAP_SIZE && IsTable(v.disk[d])
        && v'.disk[d] == if r == p then Table(v.disk[d].entries[first := e]) else v.disk[d]
    {
      assert NodeOk(v, lay.nodes, r);
      assert lay.nodes[r].Has(lay.nodes[r].cluster);
    }
  }

  lemma FileBroken(v: Volume, mid: Volume, v': Volume, lay: Layout, request: Request, first: nat,
                   chain: seq<uint32>, parts: seq<seq<byte>>)
    requires Writable(v, lay, request, first)
    requires forall c :: c in chain ==> 3 <= c < CLUSTER_MAP_SIZE && v.fat[c] == EMPTY_ENTRY
    requires Chained(v, mid, chain, parts) && |chain| < ClustersFor(request.bufferSize)
    requires Recorded(v, mid, v', request.parent, first, File(first, request.bufferSize, chain).Entry(request.FullName()))
    ensures Broken(v')
  {
    var e := File(first, request.bufferSize, chain).Entry(request.FullName());
    OthersKeepTables(v, mid, v', lay, request, first, chain, parts, e);
    forall lay'
      ensures !Inv(v', lay')
    {
      ShortFileInvalid(v, mid, v', lay, lay', lay.owner[request.parent], first, e, chain, parts);
    }
  }

  lemma FolderBroken(v: Volume, v': Volume, lay: Layout, request: Request, first: nat)
    requires Writable(v, lay, request, first)
    requires v'.disk[request.parent]
          == Table(v.disk[request.parent].entries[first := DirEntry(request.name, request.ext, false, true, 0, 0)])
    requires forall x :: 2 <= x < CLUSTER_MAP_SIZE && x != request.parent ==> v'.disk[x] == v.disk[x]
    ensures Broken(v')
  {
    var p := lay.owner[request.parent];
    var e := DirEntry(request.name, request.ext, false, true, 0, 0);
    ParentFacts(v, lay, request.parent);
    forall r {:trigger lay.nodes[r].Folder?} | r in lay.nodes && lay.nodes[r].Folder?
      ensures var d := lay.nodes[r].cluster;
        && d < CLUSTER_MAP_SIZE && IsTable(v.disk[d])
        && v'.disk[d] == if r == p then Table(v.disk[d].entries[first := e]) else v.disk[d]
    {
      assert NodeOk(v, lay.nodes, r);
      assert lay.nodes[r].Has(lay.nodes[r].cluster);
    }
    forall lay'
      ensures !Inv(v', lay')
    {
      EmptyFileInvalid(v, v', lay, lay', p, first, e);
    }
  }

  /** Entry 0 of a new folder's table: the folder itself, by name. */
  function SelfEntry(name: Name, c: uint32): DirEntry {
    DirEntry(name, NO_EXT, true, true, c, 0)
  }

  /** A folder write's effect on the volume, by whether a free cluster was found (`c`) or not
      (0); `table` is the parent's table with the prepared entry in slot `first`. */
  ghost predicate FolderWritten(v: Volume, v': Volume, table: seq<DirEntry>, request: Request, first: nat, c: uint32)
    requires first < |table|
  {
    && 2 <= request.parent < CLUSTER_MAP_SIZE
    && (forall x :: 2 <= x < CLUSTER_MAP_SIZE && x != request.parent && x != c ==> v'.disk[x] == v.disk[x])
    && if c == 0 then
         FreeCount(v.fat) == 0 && v'.fat == v.fat && v'.disk[request.parent] == Table(table)
       else
         && 3 <= c < CLUSTER_MAP_SIZE && v.fat[c] == EMPTY_ENTRY && FreeCount(v.fat) > 0 && c == FreeList(v.fat)[0]
             && v'.fat == v.fat[c := END_OF_FILE]
         && v'.disk[c].Table? && FreshTable(v'.disk[c].entries, c, request.parent)
         && v'.disk[c].entries[0] == SelfEntry(request.name, c)
         && v'.disk[request.parent] == Table(table[first := table[first].(subdirectory := true, cluster := c)])
  }

  ghost function LayoutWithFolder(lay: Layout, request: Request, first: nat, c: uint32): Layout
    requires IsFolder(lay, request.parent)
  {
    if c == 0 then lay
    else WithNode(lay, Child(lay.owner[request.parent], request.FullName()), Folder(first, c))
  }

  /** The whole folder branch: with a free cluster the folder is stored, without one the volume
      is broken. */
  lemma FolderOutcome(v: Volume, v': Volume, lay: Layout, request: Request, first: nat, c: uint32)
    requires Writable(v, lay, request, first) && request.bufferSize == 0
    requires FolderWritten(v, v', v.disk[request.parent].entries[first := PreparedEntry(request)], request, first, c)
    ensures FreeCount(v.fat) >= 1 ==>
              Stored(v, lay, v', LayoutWithFolder(lay, request, first, c), request, [])
              && StoredFirst(v, lay, LayoutWithFolder(lay, request, first, c), request)
    ensures FreeCount(v.fat) < 1 ==> Broken(v') && c == 0
  {
    ParentFacts(v, lay, request.parent);
    if c == 0 {
      FolderBroken(v, v', lay, request, first);
    } else {
      FolderStored(v, v', lay, request, first, c);
    }
  }

  /** What an allocation of `want` clusters takes from the free list. */
  function Prefix(free: seq<uint32>, want: nat): seq<uint32> {
    if want <= |free| then free[..want] else free
  }

  /** The first cluster of a chain; 0 while there is none. */
  function Head(chain: seq<uint32>): uint32 {
    if chain == [] then 0 else chain[0]
  }

  /** The entry in slot `first` takes the first cluster of a file, if one was found. */
  function StartAt(table: seq<DirEntry>, first: nat, head: uint32): seq<DirEntry>
    requires first < |table|
  {
    if head == 0 then table
    else table[first := table[first].(subdirectory := false, cluster := head)]
  }

  /** The entry a write prepares before it looks for clusters. */
  function PreparedEntry(request: Request): DirEntry {
    DirEntry(request.name, request.ext, false, true, 0, request.bufferSize)
  }

  /** The layout after a file was stored, if there was room for it. */
  ghost function LayoutWithFile(v: Volume, lay: Layout, request: Request, first: nat, chain: seq<uint32>): Layout
    requires IsFolder(lay, request.parent)
  {
    if ClustersFor(request.bufferSize) <= FreeCount(v.fat)
    then WithNode(lay, Child(lay.owner[request.parent], request.FullName()), File(first, request.bufferSize, chain))
    else lay
  }

  /** Counting clusters in 16 bits loses nothing when the clusters are there to be had. */
  lemma TakenChain(v: Volume, chain: seq<uint32>, needed: nat)
    requires chain == Prefix(FreeList(v.fat), needed % 0x1_0000)
    ensures FreeCount(v.fat) >= needed ==> chain == FreeList(v.fat)[..needed]
    ensures FreeCount(v.fat) < needed ==> |chain| < needed
    ensures forall c :: c in chain ==> 3 <= c < CLUSTER_MAP_SIZE && v.fat[c] == EMPTY_ENTRY
  {
    FreeFromFree(v.fat, 3);
    FreePlusTaken(v.fat, 3);
    forall c | c in chain
      ensures c in FreeList(v.fat)
    {
    }
  }

  /** The whole file branch: with room the file is stored, without it the volume is broken. */
  lemma FileOutcome(v: Volume, mid: Volume, v': Volume, lay: Layout, request: Request, first: nat,
                    chain: seq<uint32>, data: seq<byte>)
    requires Writable(v, lay, request, first) && request.bufferSize > 0
    requires Span(ClustersFor(request.bufferSize)) <= |data|
    requires chain == Prefix(FreeList(v.fat), ClustersFor(request.bufferSize) % 0x1_0000)
    requires Chained(v, mid, chain, Parts(data, ClustersFor(request.bufferSize)))
    requires v'.fat == mid.fat
    requires v'.disk == mid.disk[request.parent := Table(StartAt(v.disk[request.parent].entries[first := PreparedEntry(request)],
                                                                 first, Head(chain)))]
                                [FAT_CLUSTER := v'.disk[FAT_CLUSTER]]
    ensures FreeCount(v.fat) >= ClustersFor(request.bufferSize) ==>
              Stored(v, lay, v', LayoutWithFile(v, lay, request, first, chain), request, data)
              && StoredFirst(v, lay, LayoutWithFile(v, lay, request, first, chain), request)
    ensures FreeCount(v.fat) < ClustersFor(request.bufferSize) ==> Broken(v')
  {
    var needed := ClustersFor(request.bufferSize);
    ParentFacts(v, lay, request.parent);
    TakenChain(v, chain, needed);
    FileRecorded(v, mid, v', request, first, chain);
    if FreeCount(v.fat) >= needed {
      FileStored(v, mid, v', lay, request, first, chain, data);
    } else {
      FileBroken(v, mid, v', lay, request, first, chain, Parts(data, needed));
    }
  }

  lemma FileRecorded(v: Volume, mid: Volume, v': Volume, request: Request, first: nat, chain: seq<uint32>)
    requires 2 <= request.parent < CLUSTER_MAP_SIZE && IsTable(v.disk[request.parent]) && first < SLOTS
    requires forall c :: c in chain ==> 3 <= c < CLUSTER_MAP_SIZE
    requires v'.fat == mid.fat
    requires v'.disk == mid.disk[request.parent := Table(StartAt(v.disk[request.parent].entries[first := PreparedEntry(request)],
                                                                 first, Head(chain)))]
                                [FAT_CLUSTER := v'.disk[FAT_CLUSTER]]
    ensures Recorded(v, mid, v', request.parent, first, File(first, request.bufferSize, chain).Entry(request.FullName()))
  {
  }

  /** The node took the first free clusters, in order. */
  ghost predicate OnFirstFree(fat: seq<uint32>, n: Node)
    requires |fat| == CLUSTER_MAP_SIZE
  {
    match n
    case Folder(_, c) => FreeCount(fat) > 0 && c == FreeList(fat)[0]
    case File(_, _, chain) => |chain| <= FreeCount(fat) && chain == FreeList(fat)[..|chain|]
  }

  /** The request is stored in the first clear slot of its parent's table, on the first free
      clusters. */
  ghost predicate StoredFirst(v: Volume, lay: Layout, lay': Layout, request: Request) {
    && IsFolder(lay, request.parent) && request.parent < CLUSTER_MAP_SIZE && IsTable(v.disk[request.parent])
    && var q := Child(lay.owner[request.parent], request.FullName());
    && q in lay'.nodes && FirstClear(v.disk[request.parent].entries, lay'.nodes[q].slot)
    && OnFirstFree(v.fat, lay'.nodes[q])
  }
}
