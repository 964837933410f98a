/** The shell's path handling on top of the driver: resolving path names, changing the working
    directory, and moving files and folders. */
module Shells {
  import opened Codec
  import opened Options
  import opened Paths
  import opened Volumes
  import opened FreeSpace
  import opened Removal
  import opened Erasure
  import opened WriteOutcome
  import opened Copying
  import opened Occupancy
  import opened SlotTrees
  import opened FolderCopy
  import opened CopySteps
  import opened Fat32
  import opened BlockDisk
  import opened Strings
  import opened Resolution
  import opened Moving
  import opened Finding

  const MAX_PIECES: nat := 16
  const TEXT_SIZE: nat := 256

  /** An entry of a folder's table, found by name and extension from entry 1 on. */
  predicate Named(e: DirEntry, k: Key) {
    e.notEmpty && e.name == k.name && e.ext == k.ext
  }

  /** The first entry with a given name, from entry 1 on, is the parent for ".." and otherwise
      the child with that name. */
  lemma NamedEntry(v: Volume, lay: Layout, p: Path, k: Key, i: nat)
    requires Inv(v, lay) && p in lay.nodes && lay.nodes[p].Folder? && 1 <= i <= SLOTS
    requires lay.nodes[p].cluster < CLUSTER_MAP_SIZE && IsTable(v.disk[lay.nodes[p].cluster])
    requires forall j :: 1 <= j < i ==> !Named(v.disk[lay.nodes[p].cluster].entries[j], k)
    requires i < SLOTS ==> Named(v.disk[lay.nodes[p].cluster].entries[i], k)
    ensures k == Key(DOT_DOT, NO_EXT) <==> i == 1
    ensures i > 1 ==> (i < SLOTS <==> Child(p, k) in lay.nodes)
  {
    ParentPointer(v, lay, p);
    var t := v.disk[lay.nodes[p].cluster].entries;
    if i > 1 {
      assert !Named(t[1], k);
      if Child(p, k) in lay.nodes {
        ChildHasSlot(v, lay, p, k);
        assert Named(t[lay.nodes[Child(p, k)].slot], k);
      }
      if i < SLOTS {
        SlotIsChild(v, lay, p, i);
      }
    }
  }

  /** Position `i` is the first from 1 on with this name and extension; `SLOTS` if none. */
  ghost predicate FirstNamed(t: seq<DirEntry>, k: Key, i: nat)
    requires |t| == SLOTS
  {
    1 <= i <= SLOTS && (forall j :: 1 <= j < i ==> !Named(t[j], k)) && (i < SLOTS ==> Named(t[i], k))
  }

  lemma StepFacts(v: Volume, lay: Layout, cluster: uint32, name: Name, i: nat)
    requires Inv(v, lay) && IsFolder(lay, cluster) && cluster < CLUSTER_MAP_SIZE && IsTable(v.disk[cluster])
    requires FirstNamed(v.disk[cluster].entries, Key(name, NO_EXT), i)
    ensures var step := StepBy(TreeOf(v, lay), lay.owner[cluster], name);
      && (step.Some? <==> i < SLOTS && v.disk[cluster].entries[i].subdirectory)
      && (step.Some? ==> var c := v.disk[cluster].entries[i].cluster; IsFolder(lay, c) && lay.owner[c] == step.value)
  {
    var p := lay.owner[cluster];
    ParentFacts(v, lay, cluster);
    ParentPointer(v, lay, p);
    NamedEntry(v, lay, p, Key(name, NO_EXT), i);
    if 1 < i < SLOTS {
      EntryKind(v, lay, p, i);
    }
  }

  /** The file at `q` starts with cluster `c`. */
  ghost predicate StartsAt(lay: Layout, q: Path, c: uint32) {
    q in lay.nodes && lay.nodes[q].File? && lay.nodes[q].chain != [] && c == lay.nodes[q].chain[0]
  }

  lemma LookUpFacts(v: Volume, lay: Layout, parent: uint32, k: Key, i: nat)
    requires Inv(v, lay) && IsFolder(lay, parent) && parent < CLUSTER_MAP_SIZE && IsTable(v.disk[parent])
    requires FirstNamed(v.disk[parent].entries, k, i) && k.name != DOT_DOT
    ensures var q := Child(lay.owner[parent], k);
      && CodeOf(TreeOf(v, lay), q) == (if i == SLOTS then 2 else if v.disk[parent].entries[i].subdirectory then 1 else 0)
      && (i < SLOTS && v.disk[parent].entries[i].subdirectory ==>
            var c := v.disk[parent].entries[i].cluster; IsFolder(lay, c) && lay.owner[c] == q)
      && (i < SLOTS && !v.disk[parent].entries[i].subdirectory ==> StartsAt(lay, q, v.disk[parent].entries[i].cluster))
  {
    var p := lay.owner[parent];
    ParentFacts(v, lay, parent);
    NamedEntry(v, lay, p, k, i);
    if i < SLOTS {
      EntryKind(v, lay, p, i);
    }
  }

  /** If the file may be put there, there are clusters for it. */
  ghost predicate FileRoom(v: Volume, lay: Layout, s: Path, d: Path)
    requires Inv(v, lay) && d.Child? && IsDocument(TreeOf(v, lay), s)
  {
    Accepts(TreeOf(v, lay), d) ==>
      ClustersFor(|TreeOf(v, lay)[s].data|) <= FreeCount(v.fat) + |UnderSet(lay, d)|
  }

  /** What a move asks of the volume, in the branches that do something. */
  ghost predicate RoomToMove(v: Volume, lay: Layout, source: Target, dest: Target)
    requires Inv(v, lay)
    requires source.code == 0 ==> IsDocument(TreeOf(v, lay), Child(source.parent, source.key))
  {
    var s, d := Child(source.parent, source.key), Child(dest.parent, dest.key);
    && (source.code == 0 && dest.code <= 2 ==> FileRoom(v, lay, s, FileTarget(source, dest)))
    && (source.code == 1 && (dest.code == 1 || (dest.code == 2 && !Crowded(TreeOf(v, lay), dest.parent))) ==>
          Under(d, s) || FolderRoom(v, lay, s, d))
  }

  /** What a recursive copy asks of the volume, if the new folder can be made. */
  ghost predicate RoomToCopy(v: Volume, lay: Layout, source: Target, dest: Target)
    requires Inv(v, lay)
  {
    var s, d := Child(source.parent, source.key), FolderTarget(source, dest);
    source.code == 1 && 1 <= dest.code <= 2 && d !in TreeOf(v, lay) && !Crowded(TreeOf(v, lay), d.parent) ==>
      FolderRoom(v, lay, s, d)
  }

  /** The text of the root. */
  method InitialText() returns (text: array<byte>)
    ensures fresh(text) && text.Length == TEXT_SIZE && Fills(text, [TILDE])
  {
    text := new byte[TEXT_SIZE](i => if i == 0 then TILDE else 0);
    assert text[..1] == [TILDE];
  }

  class Shell {
    const driver: Driver
    var workDir: uint32
    const workDirName: array<byte>
    /** The text of the working directory. */
    ghost var shown: Text

    /** The driver is sound, the working directory is a folder, and its text is in its buffer. */
    ghost predicate Valid()
      reads this, workDirName, driver, driver.clusterMap, driver.disk, driver.disk.image
    {
      && Ready() && IsFolder(driver.layout, workDir)
      && workDirName.Length == TEXT_SIZE && Fills(workDirName, shown)
      && driver.Separate(workDirName)
    }

    ghost predicate Ready()
      reads driver, driver.clusterMap, driver.disk, driver.disk.image
    {
      driver.Valid()
    }

    /** The text is that of the working directory, and can be read back. */
    ghost predicate TextTrue()
      reads this, driver
    {
      workDir in driver.layout.owner && Speakable(driver.layout.owner[workDir])
      && shown == Render(driver.layout.owner[workDir])
    }

    /** Then walking from the root along the text leads to the working directory. */
    lemma TextResolves()
      requires Valid() && TextTrue()
      ensures var parts := Split(shown, SLASH);
        parts[0] == [TILDE] && Walk(driver.Tree(), Root, parts[1..]) == Some(driver.layout.owner[workDir])
    {
      ParentFacts(driver.State(), driver.layout, workDir);
      RenderResolves(driver.State(), driver.layout, driver.layout.owner[workDir]);
    }

    /** The working directory starts at the root, shown as "~". */
    constructor (d: Driver)
      requires d.Valid()
      ensures driver == d && fresh(workDirName) && workDirName.Length == TEXT_SIZE
      ensures Valid() && driver.layout.owner[workDir] == Root && TextTrue()
    {
      driver := d;
      workDir := ROOT_CLUSTER;
      var text := InitialText();
      workDirName := text;
      shown := [TILDE];
      new;
      assert driver.layout.nodes[Root].Has(ROOT_CLUSTER);
    }

    /** The length of a string in a row of a table of strings. */
    method RowLength(buf: array2<byte>, j: nat, ghost s: Text) returns (n: nat)
      requires RowHolds(buf, j, s) && 0 !in s
      ensures n == |s|
    {
      n := 0;
      while buf[j, n] != 0
        invariant n <= |s|
        decreases |s| - n
      {
        n := n + 1;
      }
    }

    /** The first eight bytes of a row, which is what a comparison of names reads. */
    method RowName(buf: array2<byte>, j: nat, ghost s: Text) returns (name: Name)
      requires RowHolds(buf, j, s) && |s| <= 8 && buf.Length1 >= 8
      ensures name == NameOf(s)
    {
      name := [buf[j, 0], buf[j, 1], buf[j, 2], buf[j, 3], buf[j, 4], buf[j, 5], buf[j, 6], buf[j, 7]];
      ZerosLength(8 - |s|);
    }

    method RowExt(buf: array2<byte>, j: nat, ghost s: Text) returns (ext: Ext)
      requires RowHolds(buf, j, s) && |s| <= 3 && buf.Length1 >= 3
      ensures ext == ExtOf(s)
    {
      ext := [buf[j, 0], buf[j, 1], buf[j, 2]];
      ZerosLength(3 - |s|);
    }

    /** A row as a string of its own. */
    method RowText(buf: array2<byte>, j: nat, ghost s: Text) returns (text: array<byte>)
      requires RowHolds(buf, j, s) && 0 !in s
      ensures fresh(text) && HoldsText(text, s)
    {
      text := new byte[buf.Length1](k requires 0 <= k < buf.Length1 && j < buf.Length0 reads buf => buf[j, k]);
      assert text[..|s|] == s;
    }

    /** A zeroed table of strings, filled with the pieces of a text. */
    method SplitText(str: array<byte>, delim: byte, ghost s: Text) returns (buf: array2<byte>)
      requires HoldsText(str, s) && delim != 0 && PiecesFit(Split(s, delim), MAX_PIECES, TEXT_SIZE)
      ensures fresh(buf) && buf.Length0 == MAX_PIECES && buf.Length1 == TEXT_SIZE
      ensures forall j :: 0 <= j < MAX_PIECES ==>
                RowHolds(buf, j, Piece(Split(s, delim), j)) && 0 !in Piece(Split(s, delim), j)
    {
      buf := new byte[MAX_PIECES, TEXT_SIZE]((_, _) => 0);
      Strsplit(str, delim, buf, s);
      forall j: nat | j < |Split(s, delim)|
        ensures 0 !in Split(s, delim)[j]
      {
        SplitPieces(s, delim, j);
      }
    }

    static function Piece(parts: seq<Text>, j: nat): Text {
      if j < |parts| then parts[j] else []
    }

    /** The first entry with this name and extension, from entry 1 on; `SLOTS` if none. */
    method FindEntry(table: array<DirEntry>, k: Key) returns (i: nat)
      requires table.Length == SLOTS
      ensures FirstNamed(table[..], k, i)
    {
      i := 1;
      while i < SLOTS
        invariant 1 <= i <= SLOTS && forall j :: 1 <= j < i ==> !Named(table[j], k)
      {
        if table[i].notEmpty {
          if table[i].name == k.name && table[i].ext == k.ext {
            return;
          }
        }
        i := i + 1;
      }
    }

    /** Reads the table of a folder and finds the first entry with this name and extension. */
    method ScanTable(cluster: uint32, k: Key) returns (i: nat, e: DirEntry)
      requires Ready() && cluster < CLUSTER_MAP_SIZE && IsTable(driver.disk.view[cluster])
      ensures FirstNamed(driver.disk.view[cluster].entries, k, i)
      ensures i < SLOTS ==> e == driver.disk.view[cluster].entries[i]
    {
      var table := new DirEntry[SLOTS](_ => EMPTY_SLOT);
      driver.disk.ReadTable(table, cluster);
      i := FindEntry(table, k);
      e := if i < SLOTS then table[i] else EMPTY_SLOT;
    }

    /** One step of a walk: from the folder at `cluster` along a name. */
    method StepCluster(cluster: uint32, name: Name) returns (found: bool, next: uint32)
      requires Ready() && IsFolder(driver.layout, cluster)
      ensures found <==> StepBy(driver.Tree(), driver.layout.owner[cluster], name).Some?
      ensures found ==> IsFolder(driver.layout, next)
                        && driver.layout.owner[next] == StepBy(driver.Tree(), driver.layout.owner[cluster], name).value
    {
      ParentFacts(driver.State(), driver.layout, cluster);
      var i, e := ScanTable(cluster, Key(name, NO_EXT));
      StepFacts(driver.State(), driver.layout, cluster, name, i);
      found, next := i < SLOTS && e.subdirectory, e.cluster;
    }

    /** Looks up the last component of a path in its folder. */
    method LookUp(parent: uint32, k: Key) returns (code: int, cluster: uint32)
      requires Ready() && IsFolder(driver.layout, parent) && k.name != DOT_DOT
      ensures code == CodeOf(driver.Tree(), Child(driver.layout.owner[parent], k))
      ensures code == 1 ==>
                IsFolder(driver.layout, cluster) && driver.layout.owner[cluster] == Child(driver.layout.owner[parent], k)
      ensures code == 0 ==> StartsAt(driver.layout, Child(driver.layout.owner[parent], k), cluster)
    {
      ParentFacts(driver.State(), driver.layout, parent);
      var i, e := ScanTable(parent, k);
      LookUpFacts(driver.State(), driver.layout, parent, k, i);
      code := if i == SLOTS then 2 else if e.subdirectory then 1 else 0;
      cluster := e.cluster;
    }

    /** The path fits the tables of strings it is split into. */
    static ghost predicate PathFits(s: Text) {
      var comps := Split(s, SLASH);
      && PiecesFit(comps, MAX_PIECES, TEXT_SIZE) && LastAt(comps, 0) + 1 < MAX_PIECES
      && PiecesFit(Split(comps[LastAt(comps, 0)], DOT), MAX_PIECES, TEXT_SIZE)
    }

    /** Resolves a path name from the folder at `from`: return code, the folder that holds or
        would hold the last component, the cluster found there, and its name and extension. */
    method GetCurrAndParentCluster(path: array<byte>, from: uint32, ghost s: Text)
      returns (code: int, parent: uint32, current: uint32, key: Key)
      requires Ready() && IsFolder(driver.layout, from) && HoldsText(path, s) && PathFits(s)
      ensures code == Resolve(driver.Tree(), driver.layout.owner[from], s).code
      ensures code <= 2 ==>
        && IsFolder(driver.layout, parent)
        && driver.layout.owner[parent] == Resolve(driver.Tree(), driver.layout.owner[from], s).parent
        && key == Resolve(driver.Tree(), driver.layout.owner[from], s).key
      ensures code == 1 ==>
                IsFolder(driver.layout, current) && driver.layout.owner[current] == Child(driver.layout.owner[parent], key)
      ensures code == 0 ==> StartsAt(driver.layout, Child(driver.layout.owner[parent], key), current)
    {
      ghost var comps := Split(s, SLASH);
      key, current := NO_KEY, 0;
      var buf := SplitText(path, SLASH, s);
      var index: nat;
      code, parent, index := WalkToLast(buf, from, comps);
      if code == 0 {
        code, key := ParseLast(buf, index, Piece(comps, index));
        if code == 0 {
          code, current := LookUp(parent, key);
        }
      }
    }

    /** Splits the last component into name and extension and checks their lengths. */
    method ParseLast(buf: array2<byte>, index: nat, ghost c: Text) returns (code: int, key: Key)
      requires RowHolds(buf, index, c) && 0 !in c && PiecesFit(Split(c, DOT), MAX_PIECES, TEXT_SIZE)
      ensures (code, key) == LastKey(c)
      ensures code == 0 ==> key.name != DOT_DOT
    {
      var text := RowText(buf, index, c);
      var fileBuf := SplitText(text, DOT, c);
      BaseAndSuffix(c);
      var baseLength := RowLength(fileBuf, 0, Piece(Split(c, DOT), 0));
      if baseLength > 8 {
        return 4, NO_KEY;
      }
      var extLength := RowLength(fileBuf, 1, Piece(Split(c, DOT), 1));
      if extLength > 3 {
        return 5, NO_KEY;
      }
      var name := RowName(fileBuf, 0, Piece(Split(c, DOT), 0));
      var ext := RowExt(fileBuf, 1, Piece(Split(c, DOT), 1));
      BaseIsNotParent(c);
      return 0, Key(name, ext);
    }

    static lemma BaseAndSuffix(c: Text)
      ensures BaseOf(c) == Piece(Split(c, DOT), 0) && SuffixOf(c) == Piece(Split(c, DOT), 1)
    {
    }

    /** Walks along all components but the last; 3 if that fails, 0 otherwise. */
    method WalkToLast(buf: array2<byte>, from: uint32, ghost comps: seq<Text>)
      returns (code: int, parent: uint32, index: nat)
      requires Ready() && IsFolder(driver.layout, from)
      requires |comps| >= 1 && LastAt(comps, 0) + 1 < MAX_PIECES
      requires buf.Length0 == MAX_PIECES && buf.Length1 == TEXT_SIZE
      requires forall j :: 0 <= j < MAX_PIECES ==> RowHolds(buf, j, Piece(comps, j)) && 0 !in Piece(comps, j)
      ensures index < MAX_PIECES && (code == 0 || code == 3)
      ensures var w := Walk(driver.Tree(), driver.layout.owner[from], comps[..LastAt(comps, 0)]);
        && (code == 3 <==> w.None?)
        && (code == 0 ==> index == LastAt(comps, 0) && IsFolder(driver.layout, parent) && driver.layout.owner[parent] == w.value)
    {
      ghost var t, p, last := driver.Tree(), driver.layout.owner[from], LastAt(comps, 0);
      index, parent, code := 0, from, 0;
      assert comps[..0] == [];
      while true
        invariant index <= last == LastAt(comps, index) && IsFolder(driver.layout, parent)
        invariant Walk(t, p, comps[..index]) == Some(driver.layout.owner[parent])
        decreases last - index
      {
        var next := RowLength(buf, index + 1, Piece(comps, index + 1));
        if next == 0 {
          return;
        }
        var ok, cluster := WalkOne(buf, index, parent, Piece(comps, index));
        WalkNext(t, p, comps, last, index);
        if !ok {
          return 3, parent, index;
        }
        parent := cluster;
        index := index + 1;
      }
    }

    /** One component of a walk. */
    method WalkOne(buf: array2<byte>, index: nat, parent: uint32, ghost c: Text) returns (ok: bool, cluster: uint32)
      requires Ready() && IsFolder(driver.layout, parent)
      requires RowHolds(buf, index, c) && 0 !in c && buf.Length1 == TEXT_SIZE
      ensures ok <==> StepTo(driver.Tree(), driver.layout.owner[parent], c).Some?
      ensures ok ==> IsFolder(driver.layout, cluster)
                     && driver.layout.owner[cluster] == StepTo(driver.Tree(), driver.layout.owner[parent], c).value
    {
      var length := RowLength(buf, index, c);
      if length > 8 {
        return false, 0;
      }
      var name := RowName(buf, index, c);
      ok, cluster := StepCluster(parent, name);
    }

    // ---- changing the working directory ---------------------------------------------------

    /** Cuts the text at its last slash, from the far end of the buffer. */
    static method MoveBack(c: array<byte>, ghost s: Text)
      requires c.Length == TEXT_SIZE && Fills(c, s)
      modifies c
      ensures Fills(c, MovedBack(s))
    {
      var i := TEXT_SIZE - 1;
      ghost var rest := s;
      while i >= 0
        invariant -1 <= i < TEXT_SIZE && |rest| <= i + 1 && MovedBack(rest) == MovedBack(s)
        invariant |rest| <= |s| && rest == s[..|rest|] && c[..|rest|] == rest
        invariant |rest| < i + 1 ==> rest == s
        invariant forall k :: |rest| <= k < TEXT_SIZE ==> c[k] == 0
      {
        if c[i] == SLASH {
          c[i] := 0;
          rest := rest[..i];
          assert Fills(c, rest);
          return;
        }
        c[i] := 0;
        if i < |rest| {
          rest := rest[..i];
        }
        i := i - 1;
      }
    }

    /** The texts on the way fit the buffer. */
    static ghost predicate TextsFit(t: Tree, p: Path, s: Text, comps: seq<Text>) {
      forall n :: 0 <= n <= |comps| && Walk(t, p, comps[..n]).Some? ==> |TextAfter(t, p, s, comps[..n])| < TEXT_SIZE
    }

    /** Steps the text along one component. */
    method StepText(path: array<byte>, buf: array2<byte>, index: nat, atRoot: bool, ghost p: Path, ghost s: Text,
                    ghost c: Text)
      requires path.Length == TEXT_SIZE && Fills(path, s) && path as object != buf
      requires RowHolds(buf, index, c) && 0 !in c && 0 < |c| <= 8 && buf.Length1 == TEXT_SIZE
      requires (atRoot <==> p.Root?) && |TextStep(p, s, c)| < TEXT_SIZE
      modifies path
      ensures Fills(path, TextStep(p, s, c))
    {
      var length := RowLength(buf, index, c);
      var dots := (length == 1 || length == 2) && buf[index, 0] == DOT && (length == 1 || buf[index, 1] == DOT);
      assert dots <==> c == ONE_DOT || c == TWO_DOTS;
      if dots {
        if !atRoot {
          MoveBack(path, s);
        }
      } else {
        var name := RowName(buf, index, c);
        ZerosLength(8 - |c|);
        assert name[..length] == c;
        Strcat(path, [SLASH], s);
        Strcat(path, name[..length], s + [SLASH]);
      }
    }

    /** Changes the working directory along a path; if any component fails, nothing changes. */
    method Cd(name: array<byte>, ghost s: Text)
      requires Valid() && HoldsText(name, s) && name != workDirName
      requires PiecesFit(Split(s, SLASH), MAX_PIECES, TEXT_SIZE) && |Walked(Split(s, SLASH))| < MAX_PIECES
      requires TextsFit(driver.Tree(), driver.layout.owner[workDir], shown, Walked(Split(s, SLASH)))
      modifies this`workDir, this`shown, workDirName
      ensures Valid() && driver.Tree() == old(driver.Tree())
      ensures var w := Walk(driver.Tree(), driver.layout.owner[old(workDir)], Walked(Split(s, SLASH)));
        if w.None? then workDir == old(workDir) && shown == old(shown)
        else driver.layout.owner[workDir] == w.value
             && shown == TextAfter(driver.Tree(), driver.layout.owner[old(workDir)], old(shown), Walked(Split(s, SLASH)))
      ensures var w := Walk(driver.Tree(), driver.layout.owner[old(workDir)], Walked(Split(s, SLASH)));
        old(TextTrue()) ==> (TextTrue() <==> (w.None? || ONE_DOT !in Walked(Split(s, SLASH))))
    {
      hide Inv, SlotTreeOf, TreeOf, Walk, TextAfter, Split, Walked;
      ghost var t, p, comps := driver.Tree(), driver.layout.owner[workDir], Split(s, SLASH);
      var buf := SplitText(name, SLASH, s);
      var path := CopyText();
      var ok, cluster := WalkWithText(buf, path, comps, shown);
      assert Walked(comps)[..|Walked(comps)|] == Walked(comps);
      if ok {
        if Speakable(p) {
          ChangeNamesFolder(t, p, s);
        }
        Commit(path, cluster, TextAfter(t, p, shown, Walked(comps)));
      }
    }

    /** The working directory and its text take the values the walk ended with. */
    method Commit(path: array<byte>, cluster: uint32, ghost text: Text)
      requires Valid() && IsFolder(driver.layout, cluster) && path != workDirName
      requires path.Length == TEXT_SIZE && Fills(path, text)
      modifies this`workDir, this`shown, workDirName
      ensures Valid() && driver.State() == old(driver.State())
      ensures workDir == cluster && shown == text
    {
      ReplaceText(workDirName, path, text);
      workDir := cluster;
      shown := text;
    }

    static method ReplaceText(text: array<byte>, source: array<byte>, ghost s: Text)
      requires text != source && text.Length == source.Length == TEXT_SIZE && Fills(source, s)
      modifies text
      ensures Fills(text, s)
    {
      Memcpy(text, 0, source, 0, TEXT_SIZE);
      assert text[..] == source[..];
    }

    /** Walks from the working directory, editing a copy of its text on the way. */
    method WalkWithText(buf: array2<byte>, path: array<byte>, ghost comps: seq<Text>, ghost text0: Text)
      returns (ok: bool, cluster: uint32)
      requires Ready() && IsFolder(driver.layout, workDir) && driver.Separate(path) && path as object != buf
      requires path.Length == TEXT_SIZE && Fills(path, text0) && buf.Length0 == MAX_PIECES && buf.Length1 == TEXT_SIZE
      requires forall j :: 0 <= j < MAX_PIECES ==> RowHolds(buf, j, Piece(comps, j)) && 0 !in Piece(comps, j)
      requires |Walked(comps)| < MAX_PIECES
      requires TextsFit(driver.Tree(), driver.layout.owner[workDir], text0, Walked(comps))
      modifies path
      ensures Ready() && driver.State() == old(driver.State())
      ensures ok ==> Reached(path, cluster, driver.layout.owner[workDir], Walked(comps), |Walked(comps)|, text0)
      ensures !ok ==> Walk(driver.Tree(), driver.layout.owner[workDir], Walked(comps)).None?
    {
      hide Inv, TreeOf;
      ghost var v, p, w := driver.State(), driver.layout.owner[workDir], Walked(comps);
      var index := 0;
      cluster := workDir;
      assert w[..0] == [];
      while true
        invariant Ready() && driver.State() == v && index <= |w|
        invariant Reached(path, cluster, p, w, index, text0)
        decreases |w| - index
      {
        var length := RowLength(buf, index, Piece(comps, index));
        if length == 0 {
          assert index == |w|;
          return true, cluster;
        }
        ok, cluster := AdvanceText(buf, path, index, cluster, p, w, text0);
        if !ok {
          return;
        }
        index := index + 1;
      }
    }

    /** The walk along the first `index` components has led to `cluster`, and the text followed. */
    ghost predicate Reached(path: array<byte>, cluster: uint32, p: Path, w: seq<Text>, index: nat, text0: Text)
      requires Ready()
      reads driver, driver.clusterMap, driver.disk, driver.disk.image, path
    {
      && index <= |w| && IsFolder(driver.layout, cluster)
      && Walk(driver.Tree(), p, w[..index]) == Some(driver.layout.owner[cluster])
      && path.Length == TEXT_SIZE && Fills(path, TextAfter(driver.Tree(), p, text0, w[..index]))
    }

    method AdvanceText(buf: array2<byte>, path: array<byte>, index: nat, cluster: uint32, ghost p: Path,
                       ghost w: seq<Text>, ghost text0: Text)
      returns (ok: bool, next: uint32)
      requires Ready() && driver.Separate(path) && path as object != buf && buf.Length1 == TEXT_SIZE
      requires index < |w| && RowHolds(buf, index, w[index]) && 0 !in w[index] && w[index] != []
      requires Reached(path, cluster, p, w, index, text0) && TextsFit(driver.Tree(), p, text0, w)
      modifies path
      ensures Ready() && driver.State() == old(driver.State())
      ensures ok ==> Reached(path, next, p, w, index + 1, text0)
      ensures !ok ==> Walk(driver.Tree(), p, w).None?
    {
      ghost var t := driver.Tree();
      WalkNext(t, p, w, |w|, index);
      assert w[..|w|] == w;
      if Walk(t, p, w[..index + 1]).Some? {
        TextNext(t, p, text0, w, index);
      }
      ok, next := StepWithText(buf, path, index, cluster, w[index], TextAfter(t, p, text0, w[..index]));
    }

    /** One component of a change of directory. */
    method StepWithText(buf: array2<byte>, path: array<byte>, index: nat, cluster: uint32, ghost c: Text,
                        ghost text: Text)
      returns (ok: bool, next: uint32)
      requires Ready() && IsFolder(driver.layout, cluster) && driver.Separate(path) && path as object != buf
      requires RowHolds(buf, index, c) && 0 !in c && c != [] && buf.Length1 == TEXT_SIZE
      requires path.Length == TEXT_SIZE && Fills(path, text)
      requires StepTo(driver.Tree(), driver.layout.owner[cluster], c).Some? ==>
                 |TextStep(driver.layout.owner[cluster], text, c)| < TEXT_SIZE
      modifies path
      ensures Ready() && driver.State() == old(driver.State())
      ensures ok <==> StepTo(driver.Tree(), driver.layout.owner[cluster], c).Some?
      ensures ok ==> IsFolder(driver.layout, next) && Fills(path, TextStep(driver.layout.owner[cluster], text, c))
                     && driver.layout.owner[next] == StepTo(driver.Tree(), driver.layout.owner[cluster], c).value
    {
      ok, next := WalkOne(buf, index, cluster, c);
      if ok {
        RootCluster(driver.State(), driver.layout, cluster);
        StepText(path, buf, index, cluster == ROOT_CLUSTER, driver.layout.owner[cluster], text, c);
      }
    }

    method CopyText() returns (path: array<byte>)
      requires Valid()
      ensures fresh(path) && path.Length == TEXT_SIZE && Fills(path, shown)
    {
      path := new byte[TEXT_SIZE](_ => 0);
      ReplaceText(path, workDirName, shown);
    }

    static lemma RootCluster(v: Volume, lay: Layout, c: uint32)
      requires Inv(v, lay) && IsFolder(lay, c)
      ensures c == ROOT_CLUSTER <==> lay.owner[c] == Root
    {
      ParentFacts(v, lay, c);
      assert lay.nodes[Root].Has(ROOT_CLUSTER);
    }

    // ---- moving ---------------------------------------------------------------------------

    /** Where a request would store its entry. */
    ghost function PathOf(req: Request): Path
      requires IsFolder(driver.layout, req.parent)
      reads driver
    {
      Child(driver.layout.owner[req.parent], req.FullName())
    }

    /** Nothing is there, and its parent has a slot left. */
    ghost predicate Open(req: Request)
      requires Ready() && IsFolder(driver.layout, req.parent)
      reads driver, driver.clusterMap, driver.disk, driver.disk.image
    {
      PathOf(req) !in driver.Tree() && !Crowded(driver.Tree(), driver.layout.owner[req.parent])
    }

    /** The new folder is written, and a folder looked up by its name. */
    method MakeTarget(req: Request) returns (ok: bool, cluster: uint32)
      requires Ready() && req.bufferSize == 0 && IsFolder(driver.layout, req.parent)
      requires Open(req) ==> FreeCount(driver.clusterMap[..]) >= 1
      modifies driver`layout, driver.clusterMap, driver.dirTableBuf, driver.disk`view, driver.disk.image
      ensures Ready() && KeepsFolders(old(driver.layout), driver.layout)
      ensures ok <==> old(Open(req))
      ensures !ok ==> driver.State() == old(driver.State()) && driver.layout == old(driver.layout)
      ensures ok ==> driver.Order() == Made(old(driver.Order()), old(PathOf(req)))
                     && FreeCount(driver.clusterMap[..]) + 1 == old(FreeCount(driver.clusterMap[..]))
      ensures ok ==> IsFolder(driver.layout, cluster)
                     && driver.layout.owner[cluster] == Landing(old(driver.Order()), old(PathOf(req)))
      ensures ok ==> Placed(old(driver.clusterMap[..]), old(driver.layout), driver.layout, old(PathOf(req)))
    {
      hide Inv, SlotTreeOf, Made, Landing, Put, Placed;
      ghost var v, lay := driver.State(), driver.layout;
      ParentFacts(v, lay, req.parent);
      var temp := new byte[CLUSTER_SIZE];
      AtMostOne(v, lay, req, temp[..]);
      var code := driver.WriteInOrder(req, temp);
      ok, cluster := code == 0, 0;
      if ok {
        TargetMade(v, lay, driver.State(), driver.layout, req);
        ParentFacts(driver.State(), driver.layout, req.parent);
        cluster := driver.GetClusterNumber(req);
      }
    }

    /** Making a folder takes at most one cluster, and none if it is refused. */
    static lemma AtMostOne(v: Volume, lay: Layout, req: Request, data: seq<byte>)
      requires Inv(v, lay) && IsFolder(lay, req.parent) && req.bufferSize == 0
      requires Child(lay.owner[req.parent], req.FullName()) !in lay.nodes && !Crowded(TreeOf(v, lay), lay.owner[req.parent]) ==>
                 FreeCount(v.fat) >= 1
      ensures PutCost(SlotTreeOf(v, lay), lay.owner[req.parent], req.FullName(), Payload(req, data)) <= FreeCount(v.fat)
    {
      hide SlotTreeOf, Put;
      if Child(lay.owner[req.parent], req.FullName()) in lay.nodes || Crowded(TreeOf(v, lay), lay.owner[req.parent]) {
        ParentFacts(v, lay, req.parent);
        RefusedIsPut(v, lay, lay.owner[req.parent], req.FullName(), Payload(req, data));
      }
    }

    /** The copy into the folder that was found, refused if the source's cluster is no longer one. */
    method CopyContents(src: uint32, cluster: uint32, ghost h: nat) returns (ok: bool)
      requires Ready() && driver.ParentOk(src) && driver.ParentOk(cluster)
      requires driver.clusterMap[src] == END_OF_FILE ==> Copyable(driver.State(), driver.layout, src, cluster, h)
      modifies driver`layout, driver.clusterMap, driver.dirTableBuf, driver.disk`view, driver.disk.image
      ensures Ready() && (ok <==> old(driver.clusterMap[src]) == END_OF_FILE)
      ensures !ok || h == 0 ==> driver.State() == old(driver.State()) && driver.layout == old(driver.layout)
      ensures ok ==> CopiedTo(old(driver.State()), old(driver.layout), driver.State(), driver.layout, src, cluster, h)
    {
      hide Inv, SlotTreeOf, TreeOf, CopyResult, WholeBetween, Copyable, CopiedTo;
      var code := driver.CopyFolder(src, cluster, h);
      ok := code == 0;
    }

    /** Makes a folder and copies into the folder that its name finds. */
    method MakeAndFill(req: Request, src: uint32, ghost h: nat) returns (ok: bool)
      requires Ready() && req.bufferSize == 0 && IsFolder(driver.layout, req.parent) && src < CLUSTER_MAP_SIZE
      requires if IsFolder(driver.layout, src) then
                 Open(req) ==> FillRoom(driver.State(), driver.layout, driver.layout.owner[src], PathOf(req), h)
               else
                 Open(req) && 3 <= src && driver.clusterMap[src] == EMPTY_ENTRY
      modifies driver`layout, driver.clusterMap, driver.dirTableBuf, driver.disk`view, driver.disk.image
      ensures Ready() && KeepsFolders(old(driver.layout), driver.layout)
      ensures old(IsFolder(driver.layout, src)) ==>
                && (ok <==> old(Open(req)))
                && (!ok ==> driver.State() == old(driver.State()) && driver.layout == old(driver.layout))
                && (ok ==> driver.Order() == FilledTo(old(driver.Order()), old(driver.layout).owner[src], old(PathOf(req)), h).tree)
      ensures !old(IsFolder(driver.layout, src)) ==>
                && driver.Order() == Made(old(driver.Order()), old(PathOf(req)))
                && FreeCount(old(driver.clusterMap[..])) > 0 && (ok <==> src == FreeList(old(driver.clusterMap[..]))[0])
                && Placed(old(driver.clusterMap[..]), old(driver.layout), driver.layout, old(PathOf(req)))
    {
      hide Inv, SlotTreeOf, Made, Landing, CopyFrom, Bounded, Copyable, Placed;
      ghost var v, lay, d := driver.State(), driver.layout, PathOf(req);
      if !IsFolder(lay, src) {
        FirstFree(v.fat, src);
      }
      var cluster;
      ok, cluster := MakeTarget(req);
      if ok {
        FillAhead(v, lay, driver.State(), driver.layout, src, req.parent, cluster, d, h);
        ok := CopyContents(src, cluster, if IsFolder(lay, src) then h else 0);
      }
    }

    /** Deletes the folder that is in the way, if there is one. */
    method ClearTarget(req: Request, present: bool)
      requires Ready() && IsFolder(driver.layout, req.parent)
      requires if present then PathOf(req) in driver.Tree() && driver.Tree()[PathOf(req)] == Directory
               else PathOf(req) !in driver.Tree()
      modifies driver`layout, driver.clusterMap, driver.dirTableBuf, driver.disk`view, driver.disk.image
      ensures Ready() && KeepsBeside(old(driver.layout), driver.layout, old(PathOf(req)), old(PathOf(req)))
      ensures !present ==> driver.State() == old(driver.State()) && driver.layout == old(driver.layout)
      ensures present ==> !Crowded(driver.Tree(), old(driver.layout).owner[req.parent])
                          && driver.layout == Pruned(old(driver.layout), old(PathOf(req)))
      ensures driver.Order() == Without(old(driver.Order()), old(PathOf(req))) && old(PathOf(req)) !in driver.Tree()
      ensures FreeCount(driver.clusterMap[..]) == old(FreeCount(driver.clusterMap[..]) + |UnderSet(driver.layout, PathOf(req))|)
    {
      hide SlotTreeOf, Without, Crowded;
      ghost var v, lay, q := driver.State(), driver.layout, PathOf(req);
      ParentFacts(v, lay, req.parent);
      if present {
        var _ := driver.DeleteFolderRec(req);
        PrunedIsWithout(v, lay, driver.State(), q);
        PruneKeeps(lay, q);
        RemovalMakesRoom(v, lay, q);
      } else {
        NothingThere(v, lay, q);
        WithoutAbsent(v, lay, q);
      }
    }

    /** The original of a copied folder goes, if its folder is still one. */
    method DeleteFolderAt(req: Request)
      requires Ready() && driver.ParentOk(req.parent)
      requires IsFolder(driver.layout, req.parent) ==> PathOf(req) in driver.Tree() && driver.Tree()[PathOf(req)] == Directory
      requires !IsFolder(driver.layout, req.parent) ==> driver.clusterMap[req.parent] != END_OF_FILE
      modifies driver`layout, driver.clusterMap, driver.dirTableBuf, driver.disk`view, driver.disk.image
      ensures Ready()
      ensures old(IsFolder(driver.layout, req.parent)) ==>
                KeepsBeside(old(driver.layout), driver.layout, old(PathOf(req)), old(PathOf(req)))
                && driver.Tree() == RemoveTree(old(driver.Tree()), old(PathOf(req)))
      ensures !old(IsFolder(driver.layout, req.parent)) ==>
                driver.State() == old(driver.State()) && driver.layout == old(driver.layout)
    {
      if IsFolder(driver.layout, req.parent) {
        PruneKeeps(driver.layout, PathOf(req));
        ParentFacts(driver.State(), driver.layout, req.parent);
      }
      var _ := driver.DeleteFolderRec(req);
    }

    /** The folder branch of a move: make room, make the folder, copy the contents into the folder
        its name finds, delete the original. */
    method MoveFolder(srcReq: Request, src: uint32, req: Request, present: bool) returns (ok: bool)
      requires Ready() && req.bufferSize == 0
      requires IsFolder(driver.layout, srcReq.parent) && IsFolder(driver.layout, req.parent)
      requires IsFolder(driver.layout, src) && driver.layout.owner[src] == PathOf(srcReq)
      requires if present then PathOf(req) in driver.Tree() && driver.Tree()[PathOf(req)] == Directory
               else PathOf(req) !in driver.Tree()
      requires present || !Crowded(driver.Tree(), driver.layout.owner[req.parent]) ==>
                 Under(PathOf(req), PathOf(srcReq))
                 || FolderRoom(driver.State(), driver.layout, PathOf(srcReq), PathOf(req))
      modifies driver`layout, driver.clusterMap, driver.dirTableBuf, driver.disk`view, driver.disk.image
      ensures Ready() && KeepsBeside(old(driver.layout), driver.layout, old(PathOf(srcReq)), old(PathOf(req)))
      ensures old(Under(PathOf(req), PathOf(srcReq))) ==>
                Overwritten(old(driver.State()), old(driver.layout), driver.Tree(), old(PathOf(srcReq)), old(PathOf(req)), ok)
      ensures !old(Under(PathOf(req), PathOf(srcReq))) ==>
                && (!ok ==> driver.State() == old(driver.State()) && driver.layout == old(driver.layout))
                && (ok <==> present || !old(Crowded(driver.Tree(), driver.layout.owner[req.parent])))
                && (ok ==> FolderMoved(old(driver.Order()), driver.Tree(), old(PathOf(srcReq)), old(PathOf(req))))
    {
      hide Inv, SlotTreeOf, Made, Landing, CopyFrom, Without, Contents, FolderMoved, Crowded, RemoveTree, UnderSet,
           FolderRoom, FillRoom, Reclaimed, Placed;
      ghost var v, lay, o, s, d := driver.State(), driver.layout, driver.Order(), PathOf(srcReq), PathOf(req);
      ClearTarget(req, present);
      ghost var v1, lay1 := driver.State(), driver.layout;
      AfterClearing(v, lay, v1, lay1, src, req.parent, d);
      ok := MakeAndFill(req, src, Deepest(o));
      ghost var v2, lay2 := driver.State(), driver.layout;
      if ok || Under(d, s) {
        MoveMade(v, lay, v1, lay1, v2, lay2, src, srcReq.parent, req.parent, d, ok);
      }
      if ok {
        DeleteFolderAt(srcReq);
      }
      MoveEnds(v, lay, lay1, v2, lay2, driver.State(), driver.layout, src, s, d, ok);
    }

    /** The file branch of a move: copy, and delete the original if the copy went through. */
    method MoveFile(srcReq: Request, destReq: Request) returns (ok: bool)
      requires Ready() && IsFolder(driver.layout, srcReq.parent) && IsFolder(driver.layout, destReq.parent)
      requires IsDocument(driver.Tree(), PathOf(srcReq))
      requires FileRoom(driver.State(), driver.layout, PathOf(srcReq), PathOf(destReq))
      modifies driver`layout, driver.clusterMap, driver.dirTableBuf, driver.disk`view, driver.disk.image
      ensures Ready()
      ensures ok <==> old(Accepts(driver.Tree(), PathOf(destReq)))
      ensures !ok ==> driver.State() == old(driver.State()) && driver.layout == old(driver.layout)
      ensures ok ==> FileMoved(old(driver.Tree()), driver.Tree(), old(PathOf(srcReq)), old(PathOf(destReq)))
      ensures KeepsFolders(old(driver.layout), driver.layout)
    {
      ghost var v, lay, s, d := driver.State(), driver.layout, PathOf(srcReq), PathOf(destReq);
      ok := CopyForMove(srcReq, destReq);
      if ok {
        DeleteOriginal(srcReq);
        StepsMoveFile(v, lay, driver.Tree(), s, d);
      }
    }

    method CopyForMove(srcReq: Request, destReq: Request) returns (ok: bool)
      requires Ready() && IsFolder(driver.layout, srcReq.parent) && IsFolder(driver.layout, destReq.parent)
      requires IsDocument(driver.Tree(), PathOf(srcReq))
      requires FileRoom(driver.State(), driver.layout, PathOf(srcReq), PathOf(destReq))
      modifies driver`layout, driver.clusterMap, driver.dirTableBuf, driver.disk`view, driver.disk.image
      ensures Ready()
      ensures ok <==> old(Accepts(driver.Tree(), PathOf(destReq)))
      ensures !ok ==> driver.State() == old(driver.State()) && driver.layout == old(driver.layout)
      ensures ok ==> KeepsFolders(old(driver.layout), driver.layout)
                     && driver.Tree() == old(driver.Tree())[old(PathOf(destReq)) := old(driver.Tree()[PathOf(srcReq)])]
    {
      ParentFacts(driver.State(), driver.layout, srcReq.parent);
      ParentFacts(driver.State(), driver.layout, destReq.parent);
      var code := driver.CopyFile(srcReq, destReq);
      ok := code == 0;
    }

    /** The original of a copied file goes. */
    method DeleteOriginal(req: Request)
      requires Ready() && IsFolder(driver.layout, req.parent) && IsDocument(driver.Tree(), PathOf(req))
      modifies driver`layout, driver.clusterMap, driver.dirTableBuf, driver.disk`view, driver.disk.image
      ensures Ready() && driver.Tree() == RemoveTree(old(driver.Tree()), old(PathOf(req)))
      ensures KeepsFolders(old(driver.layout), driver.layout)
    {
      PruneFileKeeps(driver.State(), driver.layout, PathOf(req));
      ParentFacts(driver.State(), driver.layout, req.parent);
      NoChildOfFile(driver.State(), driver.layout, PathOf(req));
      var _ := driver.Delete(req);
    }

    /** What a path name means from the working directory. */
    ghost function Meant(s: Text): (r: Target)
      requires Valid()
      reads this, workDirName, driver, driver.clusterMap, driver.disk, driver.disk.image
      ensures r.code == 0 ==> IsDocument(driver.Tree(), Child(r.parent, r.key))
    {
      Resolve(driver.Tree(), driver.layout.owner[workDir], s)
    }

    /** The working directory is not in a folder that a move takes away: neither at or below the
        source, nor at or below a folder that is replaced. */
    ghost predicate Untouched(s: Text, d: Text)
      requires Valid()
      reads this, workDirName, driver, driver.clusterMap, driver.disk, driver.disk.image
    {
      var source, dest, w := Meant(s), Meant(d), driver.layout.owner[workDir];
      source.code == 1 && 1 <= dest.code <= 2 ==>
        !Under(Child(source.parent, source.key), w) && !Under(Child(dest.parent, dest.key), w)
    }

    /** Moves a file or a folder. A file goes into a folder that is named as the destination, under
        its own name; otherwise to the destination. The session goes on in the same working directory,
        unless that went away. */
    method Mv(src: array<byte>, dest: array<byte>, ghost s: Text, ghost d: Text) returns (moved: bool)
      requires Valid() && HoldsText(src, s) && PathFits(s) && HoldsText(dest, d) && PathFits(d)
      requires RoomToMove(driver.State(), driver.layout, Meant(s), Meant(d))
      modifies driver`layout, driver.clusterMap, driver.dirTableBuf, driver.disk`view, driver.disk.image
      ensures Ready()
      ensures MoveEffect(old(driver.State()), old(driver.layout), driver.Tree(), old(Meant(s)), old(Meant(d)), moved)
      ensures old(Meant(s)).code >= 2 || old(Meant(d)).code >= 3 || (old(Meant(s)).code == 1 && old(Meant(d)).code == 0) ==>
                !moved
      ensures old(Meant(s)).code == 0 && old(Meant(d)).code == 1 ==>
                var file, folder := old(Meant(s)), old(Meant(d));
                var into := Child(Child(folder.parent, folder.key), file.key);
                && (moved <==> Accepts(old(driver.Tree()), into))
                && (moved ==> FileMoved(old(driver.Tree()), driver.Tree(), Child(file.parent, file.key), into))
      ensures old(Meant(s)).code == 0 && old(Meant(d)).code in {0, 2} ==>
                var file, to := old(Meant(s)), old(Meant(d));
                && (moved <==> Accepts(old(driver.Tree()), Child(to.parent, to.key)))
                && (moved ==> FileMoved(old(driver.Tree()), driver.Tree(), Child(file.parent, file.key), Child(to.parent, to.key)))
      ensures !moved && old(Meant(s)).code != 1 ==> driver.Tree() == old(driver.Tree())
      ensures (!moved && !Overlapping(old(Meant(s)), old(Meant(d)))) || old(Untouched(s, d)) ==>
                Valid() && driver.layout.owner[workDir] == old(driver.layout).owner[workDir]
    {
      hide Inv, SlotTreeOf, TreeOf, Contents, FolderMoved, FileMoved, Overwritten, Accepts, Crowded, FileRoom, FolderRoom;
      ghost var rs, rd := Meant(s), Meant(d);
      ContentsOf(driver.State(), driver.layout);
      var checkSrc, srcParent, srcCluster, srcKey := GetCurrAndParentCluster(src, workDir, s);
      if checkSrc >= 2 {
        return false;
      }
      var checkDest, destParent, destCluster, destKey := GetCurrAndParentCluster(dest, workDir, d);
      if checkDest >= 3 {
        return false;
      }
      var srcReq := Request(srcKey.name, srcKey.ext, srcParent, 0);
      if checkSrc == 0 {
        var destReq :=
          if checkDest == 1 then Request(srcKey.name, srcKey.ext, destCluster, 0)
          else Request(destKey.name, destKey.ext, destParent, 0);
        moved := MoveFile(srcReq, destReq);
      } else if checkDest == 0 {
        moved := false;
      } else {
        moved := MoveFolder(srcReq, srcCluster, Request(destKey.name, destKey.ext, destParent, 0), checkDest == 1);
      }
    }

    // ---- copying a folder -----------------------------------------------------------------

    /** Copies a folder with all that is in it: into a folder that is named as the destination, under
        its own name without extension, or to a destination where nothing is. The session goes on in
        the same working directory. */
    method CpRec(src: array<byte>, dest: array<byte>, ghost s: Text, ghost d: Text) returns (copied: bool)
      requires Valid() && HoldsText(src, s) && PathFits(s) && HoldsText(dest, d) && PathFits(d)
      requires RoomToCopy(driver.State(), driver.layout, Meant(s), Meant(d))
      modifies driver`layout, driver.clusterMap, driver.dirTableBuf, driver.disk`view, driver.disk.image
      ensures Valid() && driver.layout.owner[workDir] == old(driver.layout).owner[workDir]
      ensures CopyEffect(old(driver.Order()), driver.Tree(), old(Meant(s)), old(Meant(d)), copied)
      ensures !copied ==> driver.Tree() == old(driver.Tree())
      ensures old(Meant(s)).code != 1 || old(Meant(d)).code !in {1, 2} ==> !copied
      ensures old(Meant(s)).code == 1 && old(Meant(d)).code == 1 ==>
                var folder, target := old(Meant(s)), old(Meant(d));
                var into := Child(Child(target.parent, target.key), Key(folder.key.name, [0, 0, 0]));
                && (copied <==> into !in old(driver.Tree()) && !Crowded(old(driver.Tree()), Child(target.parent, target.key)))
                && (copied ==> FolderCopiedTo(old(driver.Order()), driver.Tree(), Child(folder.parent, folder.key), into))
      ensures old(Meant(s)).code == 1 && old(Meant(d)).code == 2 ==>
                var folder, to := old(Meant(s)), old(Meant(d));
                && (copied <==> !Crowded(old(driver.Tree()), to.parent))
                && (copied ==> FolderCopiedTo(old(driver.Order()), driver.Tree(), Child(folder.parent, folder.key),
                                              Child(to.parent, to.key)))
    {
      hide Inv, SlotTreeOf, TreeOf, Contents, FolderCopiedTo, Crowded, FolderRoom;
      ContentsOf(driver.State(), driver.layout);
      var checkSrc, srcParent, srcCluster, srcKey := GetCurrAndParentCluster(src, workDir, s);
      if checkSrc != 1 {
        return false;
      }
      var checkDest, destParent, destCluster, destKey := GetCurrAndParentCluster(dest, workDir, d);
      if checkDest == 0 || checkDest >= 3 {
        return false;
      }
      var req :=
        if checkDest == 1 then Request(srcKey.name, NO_EXT, destCluster, 0)
        else Request(destKey.name, destKey.ext, destParent, 0);
      copied := CopyTo(req, srcCluster);
    }

    /** Makes a folder and copies into the folder its name finds. */
    method CopyTo(req: Request, src: uint32) returns (copied: bool)
      requires Ready() && req.bufferSize == 0 && IsFolder(driver.layout, req.parent) && IsFolder(driver.layout, src)
      requires Open(req) ==> FolderRoom(driver.State(), driver.layout, driver.layout.owner[src], PathOf(req))
      modifies driver`layout, driver.clusterMap, driver.dirTableBuf, driver.disk`view, driver.disk.image
      ensures Ready() && KeepsFolders(old(driver.layout), driver.layout)
      ensures copied <==> old(Open(req))
      ensures !copied ==> driver.State() == old(driver.State()) && driver.layout == old(driver.layout)
      ensures copied ==>
                FolderCopiedTo(old(driver.Order()), driver.Tree(), old(driver.layout.owner[src]), old(PathOf(req)))
    {
      hide Inv, SlotTreeOf, CopyFrom, Made, Landing, Crowded, FolderCopiedTo, FolderRoom, FillRoom;
      ghost var v, lay, o, s, d := driver.State(), driver.layout, driver.Order(), driver.layout.owner[src], PathOf(req);
      ContentsOf(v, lay);
      ParentFacts(v, lay, src);
      if Open(req) {
        OpenRoom(v, lay, s, d);
      }
      copied := MakeAndFill(req, src, Deepest(o));
      if copied {
        MakeableWhen(v, lay, req.parent, d);
        NotInOrder(v, lay, d);
        FolderIsDir(v, lay, src);
        ContentsOf(driver.State(), driver.layout);
        StepsCopy(o, s, d);
      }
    }

    // ---- searching ------------------------------------------------------------------------

    /** Is there anything with this name below the folder, however deep? Adds to what was found
        before. */
    method Find(clusterNumber: uint32, k: Key, isFound: bool) returns (found: bool)
      requires Ready() && IsFolder(driver.layout, clusterNumber)
      ensures found <==> isFound || FoundBelow(driver.Tree(), driver.layout.owner[clusterNumber], k)
      ensures found <==> isFound || exists q :: q in driver.Tree() && Under(driver.layout.owner[clusterNumber], q)
                                                && q != driver.layout.owner[clusterNumber] && q.key == k
      decreases |UnderSet(driver.layout, driver.layout.owner[clusterNumber])|, 2
    {
      ghost var v, lay, p := driver.State(), driver.layout, driver.layout.owner[clusterNumber];
      ParentFacts(v, lay, clusterNumber);
      FoundAll(v, lay, p, k);
      var table := new DirEntry[SLOTS](_ => EMPTY_SLOT);
      driver.disk.ReadTable(table, clusterNumber);
      ghost var entries := table[..];
      found := isFound;
      for i := 2 to SLOTS
        invariant Ready() && driver.State() == v && table[..] == entries
        invariant found <==> isFound || FoundBefore(lay, p, k, i)
      {
        FoundNext(v, lay, p, k, i);
        if !table[i].notEmpty {
          continue;
        }
        found := FindAtSlot(clusterNumber, i, table[i], k, found);
      }
    }

    /** What one used slot adds to the search. */
    method FindAtSlot(parent: uint32, i: nat, e: DirEntry, k: Key, isFound: bool) returns (found: bool)
      requires Ready() && IsFolder(driver.layout, parent) && parent < CLUSTER_MAP_SIZE && 2 <= i < SLOTS
      requires IsTable(driver.disk.view[parent]) && e == driver.disk.view[parent].entries[i] && e.notEmpty
      ensures found <==> isFound || KeyOf(e) == k
                         || (e.subdirectory && FoundBelow(driver.Tree(), Child(driver.layout.owner[parent], KeyOf(e)), k))
      decreases |UnderSet(driver.layout, driver.layout.owner[parent])|, 1
    {
      found := isFound;
      if e.name == k.name && e.ext == k.ext {
        found := true;
      }
      if e.subdirectory {
        found := FindInside(parent, i, e, k, found);
      }
    }

    /** The search goes on inside the folder in slot `i`. */
    method FindInside(parent: uint32, i: nat, e: DirEntry, k: Key, isFound: bool) returns (found: bool)
      requires Ready() && IsFolder(driver.layout, parent) && parent < CLUSTER_MAP_SIZE && 2 <= i < SLOTS
      requires IsTable(driver.disk.view[parent]) && e == driver.disk.view[parent].entries[i] && e.notEmpty
             && e.subdirectory
      ensures found <==> isFound || FoundBelow(driver.Tree(), Child(driver.layout.owner[parent], KeyOf(e)), k)
      decreases |UnderSet(driver.layout, driver.layout.owner[parent])|, 0
    {
      ParentFacts(driver.State(), driver.layout, parent);
      EntryKind(driver.State(), driver.layout, driver.layout.owner[parent], i);
      UnderShrinks(driver.layout, driver.layout.owner[parent], KeyOf(e));
      found := Find(e.cluster, k, isFound);
    }
  }
}
