/** On-disk formats: 32-byte directory entries, 64-entry directory tables and the file
    allocation table, as little-endian bytes, with their decoders and round trips. */
module Codec {
  const BLOCK_SIZE: nat := 512
  const CLUSTER_BLOCK_COUNT: nat := 4
  const CLUSTER_SIZE: nat := 2048
  const CLUSTER_MAP_SIZE: nat := 512
  const ENTRY_SIZE: nat := 32
  const SLOTS: nat := 64

  const ATTR_SUBDIRECTORY: byte := 0x10
  const UATTR_NOT_EMPTY: byte := 0xAA

  type byte = b: int | 0 <= b < 0x100
  type uint32 = x: int | 0 <= x < 0x1_0000_0000
  type Name = s: seq<byte> | |s| == 8 witness [0, 0, 0, 0, 0, 0, 0, 0]
  type Ext = s: seq<byte> | |s| == 3 witness [0, 0, 0]

  /** The bytes in `n` blocks. */
  function Blocks(n: nat): nat {
    512 * n
  }

  /** The bytes in `n` clusters. */
  function Span(n: nat): nat {
    2048 * n
  }

  /** A directory entry; `subdirectory` and `notEmpty` are the tests the driver makes on the
      two attribute bytes, `cluster` joins cluster_high and cluster_low. */
  datatype DirEntry = DirEntry(name: Name, ext: Ext, subdirectory: bool, notEmpty: bool,
                               cluster: uint32, filesize: uint32)

  /** What a cluster holds: raw bytes, a directory table or the file allocation table. */
  datatype Cluster = Raw(bytes: seq<byte>) | Table(entries: seq<DirEntry>) | Fat(clusterMap: seq<uint32>)
  {
    ghost predicate Fits() {
      match this
      case Raw(b) => |b| == CLUSTER_SIZE
      case Table(t) => |t| == SLOTS
      case Fat(f) => |f| == CLUSTER_MAP_SIZE
    }

    function EntriesOrNone(): seq<DirEntry> {
      if Table? then entries else []
    }

    function Encode(): (b: seq<byte>)
      requires Fits()
      ensures |b| == CLUSTER_SIZE
    {
      match this
      case Raw(b) => b
      case Table(t) => EncodeTable(t)
      case Fat(f) => EncodeFat(f)
    }
  }

  // ---- words -------------------------------------------------------------------------

  function EncodeWord(x: uint32): (b: seq<byte>)
    ensures |b| == 4
  {
    [x % 0x100, x / 0x100 % 0x100, x / 0x1_0000 % 0x100, x / 0x100_0000]
  }

  function DecodeWord(b: seq<byte>): uint32
    requires |b| == 4
  {
    var b0: int, b1: int, b2: int, b3: int := b[0], b[1], b[2], b[3];
    b0 + 0x100 * b1 + 0x1_0000 * b2 + 0x100_0000 * b3
  }

  lemma WordRoundTrip(x: uint32)
    ensures DecodeWord(EncodeWord(x)) == x
  {
    assert x / 0x1_0000 == x / 0x100 / 0x100;
    assert x / 0x100_0000 == x / 0x1_0000 / 0x100;
  }

  // ---- directory entries -------------------------------------------------------------

  /** Is a bit shared with 0b10101010? */
  predicate TestsNotEmpty(userAttribute: byte) {
    userAttribute / 2 % 2 == 1 || userAttribute / 8 % 2 == 1 ||
    userAttribute / 32 % 2 == 1 || userAttribute / 128 % 2 == 1
  }

  /** name 0, ext 8, attribute 11, user_attribute 12, cluster_high 20, cluster_low 26,
      filesize 28; the remaining bytes are unused times and dates, always zero. */
  function EncodeEntry(e: DirEntry): (b: seq<byte>)
    ensures |b| == ENTRY_SIZE
  {
    var cl := EncodeWord(e.cluster);
    e.name + e.ext
    + [if e.subdirectory then ATTR_SUBDIRECTORY else 0, if e.notEmpty then UATTR_NOT_EMPTY else 0]
    + [0, 0, 0, 0, 0, 0, 0] + [cl[2], cl[3]] + [0, 0, 0, 0] + [cl[0], cl[1]]
    + EncodeWord(e.filesize)
  }

  function DecodeEntry(b: seq<byte>): DirEntry
    requires |b| == ENTRY_SIZE
  {
    DirEntry(b[..8], b[8..11], b[11] / 16 % 2 == 1, TestsNotEmpty(b[12]),
             DecodeWord([b[26], b[27], b[20], b[21]]), DecodeWord(b[28..]))
  }

  lemma EntryRoundTrip(e: DirEntry)
    ensures DecodeEntry(EncodeEntry(e)) == e
  {
    var b, cl := EncodeEntry(e), EncodeWord(e.cluster);
    assert b[..8] == e.name && b[8..11] == e.ext;
    assert [b[26], b[27], b[20], b[21]] == cl;
    assert b[28..] == EncodeWord(e.filesize);
    WordRoundTrip(e.cluster);
    WordRoundTrip(e.filesize);
  }

  /** Where the header's packed structure has each field, words with their low byte first. */
  lemma EntryBytes(e: DirEntry, i: nat)
    requires i < ENTRY_SIZE
    ensures EncodeEntry(e)[i] ==
            if i < 8 then e.name[i]
            else if i < 11 then e.ext[i - 8]
            else if i == 11 then (if e.subdirectory then 0x10 else 0)
            else if i == 12 then (if e.notEmpty then 0xAA else 0)
            else if i == 20 then e.cluster / 0x1_0000 % 0x100
            else if i == 21 then e.cluster / 0x100_0000
            else if i == 26 then e.cluster % 0x100
            else if i == 27 then e.cluster / 0x100 % 0x100
            else if i == 28 then e.filesize % 0x100
            else if i == 29 then e.filesize / 0x100 % 0x100
            else if i == 30 then e.filesize / 0x1_0000 % 0x100
            else if i == 31 then e.filesize / 0x100_0000
            else 0
  {
    var cl := EncodeWord(e.cluster);
    var head := e.name + e.ext + [if e.subdirectory then ATTR_SUBDIRECTORY else 0, if e.notEmpty then UATTR_NOT_EMPTY else 0];
    var middle := [0, 0, 0, 0, 0, 0, 0] + [cl[2], cl[3]] + [0, 0, 0, 0] + [cl[0], cl[1]];
    assert EncodeEntry(e) == head + middle + EncodeWord(e.filesize);
  }

  // ---- tables ------------------------------------------------------------------------

  function EncodeTable(t: seq<DirEntry>): (b: seq<byte>)
    requires |t| == SLOTS
    ensures |b| == CLUSTER_SIZE
  {
    seq(CLUSTER_SIZE, k requires 0 <= k < CLUSTER_SIZE => EncodeEntry(t[k / 32])[k % 32])
  }

  function DecodeTable(b: seq<byte>): (t: seq<DirEntry>)
    requires |b| == CLUSTER_SIZE
    ensures |t| == SLOTS
  {
    seq(SLOTS, i requires 0 <= i < SLOTS => DecodeEntry(b[32 * i..32 * i + 32]))
  }

  lemma TableSlice(t: seq<DirEntry>, i: nat)
    requires |t| == SLOTS && i < SLOTS
    ensures EncodeTable(t)[32 * i..32 * i + 32] == EncodeEntry(t[i])
  {
    var b, e := EncodeTable(t), EncodeEntry(t[i]);
    forall k | 0 <= k < ENTRY_SIZE
      ensures b[32 * i + k] == e[k]
    {
      assert (32 * i + k) / 32 == i && (32 * i + k) % 32 == k;
    }
  }

  lemma TableRoundTrip(t: seq<DirEntry>)
    requires |t| == SLOTS
    ensures DecodeTable(EncodeTable(t)) == t
  {
    var u := DecodeTable(EncodeTable(t));
    forall i: nat | i < SLOTS
      ensures u[i] == t[i]
    {
      TableSlice(t, i);
      EntryRoundTrip(t[i]);
    }
  }

  // ---- the file allocation table -----------------------------------------------------

  function EncodeFat(f: seq<uint32>): (b: seq<byte>)
    requires |f| == CLUSTER_MAP_SIZE
    ensures |b| == CLUSTER_SIZE
  {
    seq(CLUSTER_SIZE, k requires 0 <= k < CLUSTER_SIZE => EncodeWord(f[k / 4])[k % 4])
  }

  function DecodeFat(b: seq<byte>): (f: seq<uint32>)
    requires |b| == CLUSTER_SIZE
    ensures |f| == CLUSTER_MAP_SIZE
  {
    seq(CLUSTER_MAP_SIZE, i requires 0 <= i < CLUSTER_MAP_SIZE => DecodeWord(b[4 * i..4 * i + 4]))
  }

  /** Word `i` of the table is at byte 4 * i, low byte first. */
  lemma FatBytes(f: seq<uint32>, i: nat)
    requires |f| == CLUSTER_MAP_SIZE && i < CLUSTER_MAP_SIZE
    ensures var b := EncodeFat(f);
      var b0: int, b1: int, b2: int, b3: int := b[4 * i], b[4 * i + 1], b[4 * i + 2], b[4 * i + 3];
      f[i] == b0 + 0x100 * b1 + 0x1_0000 * b2 + 0x100_0000 * b3
  {
    var w := EncodeWord(f[i]);
    WordRoundTrip(f[i]);
    forall k | 0 <= k < 4
      ensures EncodeFat(f)[4 * i + k] == w[k]
    {
      assert (4 * i + k) / 4 == i && (4 * i + k) % 4 == k;
    }
  }

  lemma FatRoundTrip(f: seq<uint32>)
    requires |f| == CLUSTER_MAP_SIZE
    ensures DecodeFat(EncodeFat(f)) == f
  {
    var b := EncodeFat(f);
    forall i | 0 <= i < CLUSTER_MAP_SIZE
      ensures DecodeFat(b)[i] == f[i]
    {
      var w := b[4 * i..4 * i + 4];
      assert w == EncodeWord(f[i]) by {
        forall k | 0 <= k < 4
          ensures w[k] == EncodeWord(f[i])[k]
        {
          assert (4 * i + k) / 4 == i && (4 * i + k) % 4 == k;
        }
      }
      WordRoundTrip(f[i]);
    }
  }
}
