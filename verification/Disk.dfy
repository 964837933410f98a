/** The array-backed block disk and the cluster transfers of the driver on top of it. */
module BlockDisk {
  import opened Codec

  /** The bytes of cluster `c` in a disk image. */
  ghost function ClusterBytes(image: seq<byte>, c: nat): seq<byte>
    requires Span(c + 1) <= |image|
  {
    image[Span(c)..Span(c + 1)]
  }

  /** `view` says, cluster by cluster, what the bytes of `image` encode. */
  ghost predicate Holds(image: seq<byte>, view: seq<Cluster>) {
    && |image| == Span(CLUSTER_MAP_SIZE)
    && |view| == CLUSTER_MAP_SIZE
    && forall c: nat :: c < CLUSTER_MAP_SIZE ==> HoldsAt(image, view, c)
  }

  ghost predicate HoldsAt(image: seq<byte>, view: seq<Cluster>, c: nat)
    requires Span(c + 1) <= |image| && c < |view|
  {
    view[c].Fits() && ClusterBytes(image, c) == view[c].Encode()
  }

  lemma AllFit(image: seq<byte>, view: seq<Cluster>)
    requires Holds(image, view)
    ensures forall c :: 0 <= c < CLUSTER_MAP_SIZE ==> view[c].Fits()
  {
    forall c: nat | c < CLUSTER_MAP_SIZE
      ensures view[c].Fits()
    {
      assert HoldsAt(image, view, c);
    }
  }

  /** `base` with `part` over it from offset `at` on. */
  function Spliced(base: seq<byte>, at: nat, part: seq<byte>): (r: seq<byte>)
    requires at + |part| <= |base|
    ensures |r| == |base|
  {
    base[..at] + part + base[at + |part|..]
  }

  /** The same, element by element. */
  ghost predicate Overlaid(now: seq<byte>, base: seq<byte>, at: nat, src: seq<byte>, from: nat, n: nat) {
    && |now| == |base| && at + n <= |base| && from + n <= |src|
    && forall k :: 0 <= k < |now| ==> now[k] == if at <= k < at + n then src[from + (k - at)] else base[k]
  }

  lemma OverlaidIsSpliced(now: seq<byte>, base: seq<byte>, at: nat, src: seq<byte>, from: nat, n: nat)
    requires Overlaid(now, base, at, src, from, n)
    ensures now == Spliced(base, at, src[from..from + n])
  {
  }

  /** Two neighbouring pieces, one after the other, are one piece. */
  lemma OverlaidMore(now: seq<byte>, mid: seq<byte>, base: seq<byte>, at: nat, src: seq<byte>, from: nat, done: nat,
                     n: nat)
    requires Overlaid(mid, base, at, src, from, done) && Overlaid(now, mid, at + done, src, from + done, n)
    ensures Overlaid(now, base, at, src, from, done + n)
  {
  }

  method Memcpy(dest: array<byte>, to: nat, src: array<byte>, from: nat, n: nat)
    requires dest != src && to + n <= dest.Length && from + n <= src.Length
    modifies dest
    ensures Overlaid(dest[..], old(dest[..]), to, src[..], from, n)
  {
    var i := 0;
    while i < n
      invariant 0 <= i <= n
      invariant forall k :: 0 <= k < dest.Length ==>
                dest[k] == if to <= k < to + i then src[from + (k - to)] else old(dest[k])
    {
      dest[to + i] := src[from + i];
      i := i + 1;
    }
  }

  /** The sign of the first difference; 0 if there is none. */
  function Compare(a: seq<byte>, b: seq<byte>): int
    requires |a| == |b|
  {
    if a == [] then 0
    else if a[0] < b[0] then -1
    else if a[0] > b[0] then 1
    else Compare(a[1..], b[1..])
  }

  /** A comparison finds equal bytes equal, and nothing else; it orders the others. */
  lemma {:induction false} CompareOrders(a: seq<byte>, b: seq<byte>)
    requires |a| == |b|
    ensures Compare(a, b) == 0 <==> a == b
    ensures Compare(a, b) == -Compare(b, a)
  {
    if a != [] {
      CompareOrders(a[1..], b[1..]);
      assert a == [a[0]] + a[1..] && b == [b[0]] + b[1..];
    }
  }

  /** Byte-by-byte comparison of `n` bytes. */
  method Memcmp(s1: array<byte>, s2: array<byte>, n: nat) returns (r: int)
    requires n <= s1.Length && n <= s2.Length
    ensures r == Compare(s1[..n], s2[..n])
  {
    var i := 0;
    while i < n
      invariant 0 <= i <= n && Compare(s1[..n], s2[..n]) == Compare(s1[i..n], s2[i..n])
    {
      if s1[i] < s2[i] {
        return -1;
      } else if s1[i] > s2[i] {
        return 1;
      }
      assert s1[i..n][1..] == s1[i + 1..n] && s2[i..n][1..] == s2[i + 1..n];
      i := i + 1;
    }
    return 0;
  }

  /** Overwrites an in-memory array, element by element. */
  method Fill<T>(dest: array<T>, values: seq<T>)
    requires dest.Length == |values|
    modifies dest
    ensures dest[..] == values
  {
    for i := 0 to |values|
      invariant dest[..i] == values[..i]
    {
      dest[i] := values[i];
      assert dest[..i + 1] == dest[..i] + [values[i]] && values[..i + 1] == values[..i] + [values[i]];
    }
  }

  /** Writing the bytes of one cluster changes what that cluster holds and nothing else. */
  lemma HoldsAfterWrite(image: seq<byte>, view: seq<Cluster>, image': seq<byte>, n: nat, what: Cluster)
    requires Holds(image, view) && n < CLUSTER_MAP_SIZE && what.Fits()
    requires image' == image[..Span(n)] + what.Encode() + image[Span(n + 1)..]
    ensures Holds(image', view[n := what])
  {
    var view' := view[n := what];
    forall c: nat | c < CLUSTER_MAP_SIZE
      ensures HoldsAt(image', view', c)
    {
      assert HoldsAt(image, view, c);
      SliceAfterWrite(image, image', what.Encode(), n, c);
    }
  }

  lemma SliceAfterWrite(image: seq<byte>, image': seq<byte>, b: seq<byte>, n: nat, c: nat)
    requires |image| == Span(CLUSTER_MAP_SIZE) && |b| == CLUSTER_SIZE
    requires n < CLUSTER_MAP_SIZE && c < CLUSTER_MAP_SIZE
    requires image' == image[..Span(n)] + b + image[Span(n + 1)..]
    ensures ClusterBytes(image', c) == if c == n then b else ClusterBytes(image, c)
  {
    if c == n {
    } else if c < n {
      assert Span(c + 1) <= Span(n);
    } else {
      assert Span(n + 1) <= Span(c);
    }
  }

  function ClusterToLba(cluster: nat): nat {
    cluster * CLUSTER_BLOCK_COUNT
  }

  class Disk {
    const image: array<byte>
    ghost var view: seq<Cluster>

    ghost predicate Valid()
      reads this, image
    {
      Holds(image[..], view)
    }

    /** A disk that already holds `bytes`. */
    constructor FromImage(bytes: seq<byte>, ghost v: seq<Cluster>)
      requires Holds(bytes, v)
      ensures Valid() && fresh(image) && image[..] == bytes && view == v
    {
      image := new byte[|bytes|](i requires 0 <= i < |bytes| => bytes[i]);
      view := v;
      new;
      assert image[..] == bytes;
    }

    method ReadBlocks(ptr: array<byte>, at: nat, logicalBlockAddress: nat, blockCount: nat)
      requires ptr != image
      requires at + Blocks(blockCount) <= ptr.Length
      requires Blocks(logicalBlockAddress + blockCount) <= image.Length
      modifies ptr
      ensures Overlaid(ptr[..], old(ptr[..]), at, image[..], Blocks(logicalBlockAddress), Blocks(blockCount))
    {
      ghost var before := ptr[..];
      for i := 0 to blockCount
        invariant Overlaid(ptr[..], before, at, image[..], Blocks(logicalBlockAddress), Blocks(i))
      {
        ghost var mid := ptr[..];
        Memcpy(ptr, at + Blocks(i), image, Blocks(logicalBlockAddress + i), BLOCK_SIZE);
        OverlaidMore(ptr[..], mid, before, at, image[..], Blocks(logicalBlockAddress), Blocks(i), BLOCK_SIZE);
      }
    }

    method WriteBlocks(ptr: array<byte>, at: nat, logicalBlockAddress: nat, blockCount: nat)
      requires ptr != image
      requires at + Blocks(blockCount) <= ptr.Length
      requires Blocks(logicalBlockAddress + blockCount) <= image.Length
      modifies image
      ensures Overlaid(image[..], old(image[..]), Blocks(logicalBlockAddress), ptr[..], at, Blocks(blockCount))
    {
      ghost var before := image[..];
      for i := 0 to blockCount
        invariant Overlaid(image[..], before, Blocks(logicalBlockAddress), ptr[..], at, Blocks(i))
      {
        ghost var mid := image[..];
        Memcpy(image, Blocks(logicalBlockAddress + i), ptr, at + Blocks(i), BLOCK_SIZE);
        OverlaidMore(image[..], mid, before, Blocks(logicalBlockAddress), ptr[..], at, Blocks(i), BLOCK_SIZE);
      }
    }

    /** One cluster is read to offset `at` of `ptr`. */
    method ReadClusters(ptr: array<byte>, at: nat, clusterNumber: uint32)
      requires Valid() && ptr != image
      requires clusterNumber < CLUSTER_MAP_SIZE && at + CLUSTER_SIZE <= ptr.Length
      modifies ptr
      ensures view[clusterNumber].Fits()
      ensures ptr[..] == old(ptr[..at]) + view[clusterNumber].Encode() + old(ptr[at + CLUSTER_SIZE..])
    {
      ghost var before := ptr[..];
      ReadBlocks(ptr, at, ClusterToLba(clusterNumber), ClusterToLba(1));
      OverlaidIsSpliced(ptr[..], before, at, image[..], Span(clusterNumber), CLUSTER_SIZE);
      assert HoldsAt(image[..], view, clusterNumber);
      assert image[Span(clusterNumber)..Span(clusterNumber + 1)]
          == ClusterBytes(image[..], clusterNumber);
    }

    /** One cluster is written from offset `at` of `ptr`; `what` is what those bytes encode. */
    method WriteClusters(ptr: array<byte>, at: nat, clusterNumber: uint32, ghost what: Cluster)
      requires Valid() && ptr != image
      requires clusterNumber < CLUSTER_MAP_SIZE && at + CLUSTER_SIZE <= ptr.Length
      requires what.Fits() && ptr[at..at + CLUSTER_SIZE] == what.Encode()
      modifies `view, image
      ensures Valid() && view == old(view)[clusterNumber := what]
    {
      ghost var before := image[..];
      WriteBlocks(ptr, at, ClusterToLba(clusterNumber), ClusterToLba(1));
      OverlaidIsSpliced(image[..], before, Span(clusterNumber), ptr[..], at, CLUSTER_SIZE);
      HoldsAfterWrite(before, view, image[..], clusterNumber, what);
      view := view[clusterNumber := what];
    }

    /** The bytes of one cluster, before they are cast to the structure the reader expects. */
    method FetchCluster(clusterNumber: uint32) returns (b: seq<byte>)
      requires Valid() && clusterNumber < CLUSTER_MAP_SIZE
      ensures view[clusterNumber].Fits() && |b| == CLUSTER_SIZE && b == view[clusterNumber].Encode()
    {
      var buf := new byte[CLUSTER_SIZE];
      ReadClusters(buf, 0, clusterNumber);
      b := buf[..];
    }

    /** A cluster read as a directory table. A cluster that holds something else is read
        all the same, as whatever entries its bytes spell. */
    method ReadTable(table: array<DirEntry>, clusterNumber: uint32)
      requires Valid() && clusterNumber < CLUSTER_MAP_SIZE && table.Length == SLOTS
      modifies table
      ensures view[clusterNumber].Table? ==> table[..] == view[clusterNumber].entries
    {
      var b := FetchCluster(clusterNumber);
      if view[clusterNumber].Table? {
        TableRoundTrip(view[clusterNumber].entries);
      }
      Fill(table, DecodeTable(b));
    }

    method WriteTable(table: array<DirEntry>, clusterNumber: uint32)
      requires Valid() && clusterNumber < CLUSTER_MAP_SIZE && table.Length == SLOTS
      modifies `view, image
      ensures Valid() && view == old(view)[clusterNumber := Table(table[..])]
    {
      var t := EncodeTable(table[..]);
      var b := new byte[CLUSTER_SIZE](i requires 0 <= i < CLUSTER_SIZE => t[i]);
      assert b[0..0 + CLUSTER_SIZE] == t;
      WriteClusters(b, 0, clusterNumber, Table(table[..]));
    }

    method ReadFat(clusterMap: array<uint32>, clusterNumber: uint32)
      requires Valid() && clusterNumber < CLUSTER_MAP_SIZE && clusterMap.Length == CLUSTER_MAP_SIZE
      modifies clusterMap
      ensures view[clusterNumber].Fat? ==> clusterMap[..] == view[clusterNumber].clusterMap
    {
      var b := FetchCluster(clusterNumber);
      if view[clusterNumber].Fat? {
        FatRoundTrip(view[clusterNumber].clusterMap);
      }
      Fill(clusterMap, DecodeFat(b));
    }

    method WriteFat(clusterMap: array<uint32>, clusterNumber: uint32)
      requires Valid() && clusterNumber < CLUSTER_MAP_SIZE && clusterMap.Length == CLUSTER_MAP_SIZE
      modifies `view, image
      ensures Valid() && view == old(view)[clusterNumber := Fat(clusterMap[..])]
    {
      var f := EncodeFat(clusterMap[..]);
      var b := new byte[CLUSTER_SIZE](i requires 0 <= i < CLUSTER_SIZE => f[i]);
      assert b[0..0 + CLUSTER_SIZE] == f;
      WriteClusters(b, 0, clusterNumber, Fat(clusterMap[..]));
    }
  }
}
