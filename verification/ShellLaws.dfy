/** What the shell's commands do, told by the texts of the paths they are given. */
module ShellLaws {
  import opened Codec
  import opened Options
  import opened Paths
  import opened Volumes
  import opened Strings
  import opened Resolution
  import opened Moving
  import opened Occupancy
  import opened SlotTrees
  import opened Copying
  import opened Fat32
  import opened Shells

  /** A path text as a user types it: folders to walk along, then a name of at most eight bytes and
      an extension of at most three, which may be missing. */
  datatype Typed = Typed(folders: seq<Text>, name: Text, ext: Text)
  {
    ghost predicate Proper() {
      && (forall c :: c in folders ==> c != [] && SLASH !in c)
      && 0 < |name| <= 8 && |ext| <= 3 && DOT !in name && DOT !in ext && SLASH !in name && SLASH !in ext
    }

    function Last(): Text {
      if ext == [] then name else name + [DOT] + ext
    }

    function Written(): Text {
      Join(folders + [Last()], SLASH)
    }

    /** What it names, if the walk from `p` along the folders leads to `q`. */
    function At(q: Path): Path
      requires Proper()
    {
      Child(q, Key(name + seq(8 - |name|, _ => 0), ext + seq(3 - |ext|, _ => 0)))
    }
  }

  /** The text names `q`, seen from `p`. */
  ghost predicate Names(t: Tree, p: Path, text: Typed, q: Path) {
    text.Proper() && var w := Walk(t, p, text.folders); w.Some? && q == text.At(w.value)
  }

  /** What is written is what is resolved. */
  lemma NamesResolved(t: Tree, p: Path, text: Typed, q: Path)
    requires Names(t, p, text, q)
    ensures var r := Resolve(t, p, text.Written());
      && Child(r.parent, r.key) == q && r.code == if q !in t then 2 else if t[q] == Directory then 1 else 0
  {
    var last := text.Last();
    if text.ext == [] {
      assert LastParts(last, text.name, [], []);
    } else {
      assert last == text.name + [DOT] + text.ext + [];
      assert LastParts(last, text.name, text.ext, []);
    }
    assert PathParts(text.folders, last, []) by {
      forall i | 1 <= i <= |text.folders|
        ensures (text.folders + [last])[i] != []
      {
        assert i < |text.folders| ==> text.folders[i] in text.folders;
      }
    }
    assert text.folders + [last] + [] == text.folders + [last];
    ResolveMeans(t, p, text.folders, last, [], text.name, text.ext, []);
  }

  /** A file moved to a folder is in it under its own name and extension; a file moved to any other path
      is there. It has its bytes, and no other path changes; moved to where it is, it is lost. The move is
      refused exactly if the place is a folder's, or is free in a full folder. */
  method MoveFileTo(sh: Shell, src: array<byte>, dest: array<byte>, ghost s: Typed, ghost d: Typed,
                    ghost file: Path, ghost to: Path)
    returns (moved: bool)
    requires sh.Valid() && HoldsText(src, s.Written()) && HoldsText(dest, d.Written())
    requires Shell.PathFits(s.Written()) && Shell.PathFits(d.Written())
    requires var t, p := sh.driver.Tree(), sh.driver.layout.owner[sh.workDir];
      Names(t, p, s, file) && Names(t, p, d, to) && file in t && t[file].Document?
    requires RoomToMove(sh.driver.State(), sh.driver.layout, sh.Meant(s.Written()), sh.Meant(d.Written()))
    modifies sh.driver`layout, sh.driver.clusterMap, sh.driver.dirTableBuf, sh.driver.disk`view, sh.driver.disk.image
    ensures sh.Valid()
    ensures var t := old(sh.driver.Tree());
      var place := if to in t && t[to] == Directory then Child(to, file.key) else to;
      && (moved <==> if place in t then t[place].Document? else |ChildrenOf(t, place.parent)| != 62)
      && sh.driver.Tree() == if !moved then t
                             else if place == file then map q | q in t && q != file :: t[q]
                             else (map q | q in t && q != file :: t[q])[place := t[file]]
  {
    hide Inv, SlotTreeOf, TreeOf, MoveEffect, RoomToMove, Names, Resolve;
    ghost var t, p := sh.driver.Tree(), sh.driver.layout.owner[sh.workDir];
    NamesResolved(t, p, s, file);
    NamesResolved(t, p, d, to);
    moved := sh.Mv(src, dest, s.Written(), d.Written());
    if moved {
      MovedTree(t, sh.driver.Tree(), file, if to in t && t[to] == Directory then Child(to, file.key) else to);
    }
  }

  lemma MovedTree(t: Tree, t': Tree, s: Path, d: Path)
    requires FileMoved(t, t', s, d)
    ensures t' == if d == s then map q | q in t && q != s :: t[q] else (map q | q in t && q != s :: t[q])[d := t[s]]
  {
    var m := if d == s then map q | q in t && q != s :: t[q] else (map q | q in t && q != s :: t[q])[d := t[s]];
    forall q
      ensures (q in t' <==> q in m) && (q in t' ==> t'[q] == m[q])
    {
    }
  }

  /** A folder moved to a path beside it takes the place of the folder that was there, or is new there;
      what arrives is for `FolderMoved` to say. It is refused exactly if the place is a file's, or is free
      in a full folder. */
  method MoveFolderTo(sh: Shell, src: array<byte>, dest: array<byte>, ghost s: Typed, ghost d: Typed,
                      ghost source: Path, ghost to: Path)
    returns (moved: bool)
    requires sh.Valid() && HoldsText(src, s.Written()) && HoldsText(dest, d.Written())
    requires Shell.PathFits(s.Written()) && Shell.PathFits(d.Written())
    requires var t, p := sh.driver.Tree(), sh.driver.layout.owner[sh.workDir];
      Names(t, p, s, source) && Names(t, p, d, to) && source in t && t[source] == Directory && Apart(source, to)
    requires RoomToMove(sh.driver.State(), sh.driver.layout, sh.Meant(s.Written()), sh.Meant(d.Written()))
    modifies sh.driver`layout, sh.driver.clusterMap, sh.driver.dirTableBuf, sh.driver.disk`view, sh.driver.disk.image
    ensures sh.Ready()
    ensures var t, t' := old(sh.driver.Tree()), sh.driver.Tree();
      && (moved <==> if to in t then t[to] == Directory else |ChildrenOf(t, to.parent)| != 62)
      && (!moved ==> t' == t)
      && (moved ==> FolderMoved(old(sh.driver.Order()), t', source, to) && source !in t' && to in t')
  {
    hide Inv, SlotTreeOf, TreeOf, RoomToMove, Names, Resolve, Contents, Subtree, Arrives, Landing, Accepts, Overwritten;
    ghost var t, p := sh.driver.Tree(), sh.driver.layout.owner[sh.workDir];
    NamesResolved(t, p, s, source);
    NamesResolved(t, p, d, to);
    moved := sh.Mv(src, dest, s.Written(), d.Written());
  }

  /** A folder copied to a folder is in it under its own name without extension; a folder copied to a
      path where nothing is, is there. Everything that was there stays; what arrives is for
      `FolderCopiedTo` to say. The copy is refused exactly if the place is taken or its folder is full, or
      the destination is a file. */
  method CopyFolderTo(sh: Shell, src: array<byte>, dest: array<byte>, ghost s: Typed, ghost d: Typed,
                      ghost source: Path, ghost to: Path)
    returns (copied: bool)
    requires sh.Valid() && HoldsText(src, s.Written()) && HoldsText(dest, d.Written())
    requires Shell.PathFits(s.Written()) && Shell.PathFits(d.Written())
    requires var t, p := sh.driver.Tree(), sh.driver.layout.owner[sh.workDir];
      Names(t, p, s, source) && Names(t, p, d, to) && source in t && t[source] == Directory
    requires RoomToCopy(sh.driver.State(), sh.driver.layout, sh.Meant(s.Written()), sh.Meant(d.Written()))
    modifies sh.driver`layout, sh.driver.clusterMap, sh.driver.dirTableBuf, sh.driver.disk`view, sh.driver.disk.image
    ensures sh.Valid()
    ensures var t, t' := old(sh.driver.Tree()), sh.driver.Tree();
      var place := if to in t && t[to] == Directory then Child(to, Key(source.key.name, [0, 0, 0])) else to;
      && (copied <==> place !in t && |ChildrenOf(t, place.parent)| != 62)
      && (forall q :: q in t ==> q in t' && t'[q] == t[q])
      && (if copied then place in t' && t'[place] == Directory else t' == t)
      && (copied ==> FolderCopiedTo(old(sh.driver.Order()), t', source, place))
  {
    hide Inv, SlotTreeOf, TreeOf, CopyEffect, RoomToCopy, Names, Resolve, Contents, Subtree, Arrives, Landing;
    ContentsOf(sh.driver.State(), sh.driver.layout);
    ghost var t, p := sh.driver.Tree(), sh.driver.layout.owner[sh.workDir];
    NamesResolved(t, p, s, source);
    NamesResolved(t, p, d, to);
    copied := sh.CpRec(src, dest, s.Written(), d.Written());
  }
}
