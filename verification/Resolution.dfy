/** Path names: what a relative path means in the tree, and the text the shell shows for a
    working directory. */
module Resolution {
  import opened Codec
  import opened Options
  import opened Paths
  import opened Volumes
  import opened Strings

  const SLASH: byte := 47
  const DOT: byte := 46
  const TILDE: byte := 126

  /** The components that a comparison with ".." over the component's own length accepts. */
  const ONE_DOT: Text := [46]
  const TWO_DOTS: Text := [46, 46]

  function Zeros(n: nat): Text {
    if n == 0 then [] else [0] + Zeros(n - 1)
  }

  /** A component as the eight bytes it is compared by. */
  function NameOf(c: Text): Name
    requires |c| <= 8
  {
    ZerosLength(8 - |c|);
    c + Zeros(8 - |c|)
  }

  function ExtOf(c: Text): Ext
    requires |c| <= 3
  {
    ZerosLength(3 - |c|);
    c + Zeros(3 - |c|)
  }

  lemma {:induction false} ZerosLength(n: nat)
    ensures |Zeros(n)| == n && forall i :: 0 <= i < n ==> Zeros(n)[i] == 0
  {
    if n != 0 {
      ZerosLength(n - 1);
    }
  }

  // ---- walking -----------------------------------------------------------------------------

  /** One step from folder `p` along a name: to the parent, or to a child folder without
      extension. */
  ghost function StepBy(t: Tree, p: Path, n: Name): Option<Path> {
    if n == DOT_DOT then Some(if p.Root? then Root else p.parent)
    else
      var q := Child(p, Key(n, NO_EXT));
      if q in t && t[q] == Directory then Some(q) else None
  }

  ghost function StepTo(t: Tree, p: Path, c: Text): Option<Path> {
    if |c| > 8 then None else StepBy(t, p, NameOf(c))
  }

  ghost function Walk(t: Tree, p: Path, comps: seq<Text>): Option<Path> {
    if comps == [] then Some(p)
    else
      var q := Walk(t, p, comps[..|comps| - 1]);
      if q.None? then None else StepTo(t, q.value, comps[|comps| - 1])
  }

  /** A walk that fails goes on failing. */
  lemma {:induction false} WalkStuck(t: Tree, p: Path, comps: seq<Text>, n: nat)
    requires n <= |comps| && Walk(t, p, comps[..n]).None?
    ensures Walk(t, p, comps).None?
    decreases |comps|
  {
    if n < |comps| {
      assert comps[..|comps| - 1][..n] == comps[..n];
      WalkStuck(t, p, comps[..|comps| - 1], n);
    } else {
      assert comps[..n] == comps;
    }
  }

  /** A walk that has reached component `i` goes on by one step, or fails there. */
  lemma WalkNext(t: Tree, p: Path, comps: seq<Text>, last: nat, i: nat)
    requires i < last <= |comps| && Walk(t, p, comps[..i]).Some?
    ensures Walk(t, p, comps[..i + 1]) == StepTo(t, Walk(t, p, comps[..i]).value, comps[i])
    ensures Walk(t, p, comps[..i + 1]).None? ==> Walk(t, p, comps[..last]).None?
  {
    assert comps[..i + 1][..i] == comps[..i];
    if Walk(t, p, comps[..i + 1]).None? {
      assert comps[..last][..i + 1] == comps[..i + 1];
      WalkStuck(t, p, comps[..last], i + 1);
    }
  }

  /** The position of the component a resolution looks up, all earlier ones being folders to
      walk through: the one before the first empty component. */
  function LastAt(comps: seq<Text>, i: nat): (last: nat)
    requires i < |comps|
    ensures i <= last < |comps|
    decreases |comps| - i
  {
    if i + 1 < |comps| && comps[i + 1] != [] then LastAt(comps, i + 1) else i
  }

  /** The components before the first empty one. */
  function Walked(comps: seq<Text>): (w: seq<Text>)
    ensures |w| <= |comps| && w == comps[..|w|]
    ensures |w| < |comps| ==> comps[|w|] == []
    ensures [] !in w
  {
    if comps == [] || comps[0] == [] then [] else
      var w := Walked(comps[1..]);
      assert comps == [comps[0]] + comps[1..];
      [comps[0]] + w
  }

  /** What a path name resolves to, seen from a folder. */
  datatype Target = Target(code: int, parent: Path, key: Key)

  /** The name and the extension of the last component. */
  function BaseOf(c: Text): Text {
    Split(c, DOT)[0]
  }

  function SuffixOf(c: Text): Text {
    if |Split(c, DOT)| > 1 then Split(c, DOT)[1] else []
  }

  const NO_KEY: Key := Key(NO_NAME, NO_EXT)

  /** What the last component asks for: a name too long (4), an extension too long (5), or a
      key (0). */
  function LastKey(c: Text): (r: (int, Key)) {
    if |BaseOf(c)| > 8 then (4, NO_KEY)
    else if |SuffixOf(c)| > 3 then (5, NO_KEY)
    else (0, Key(NameOf(BaseOf(c)), ExtOf(SuffixOf(c))))
  }

  ghost function CodeOf(t: Tree, q: Path): int {
    if q !in t then 2 else if t[q] == Directory then 1 else 0
  }

  /** 0 a file, 1 a folder, 2 nothing there, 3 no such path, 4 name too long, 5 extension too
      long. */
  ghost function Resolve(t: Tree, p: Path, s: Text): Target {
    var comps := Split(s, SLASH);
    var last := LastAt(comps, 0);
    var q := Walk(t, p, comps[..last]);
    if q.None? then Target(3, p, NO_KEY)
    else
      var (code, k) := LastKey(comps[last]);
      Target(if code != 0 then code else CodeOf(t, Child(q.value, k)), q.value, k)
  }

  /** A path text taken apart: the components to walk along, the last component, and what is never
      looked at, which starts with an empty component. Only the first component may be empty. */
  ghost predicate PathParts(front: seq<Text>, c: Text, rest: seq<Text>) {
    && (forall x :: x in front + [c] + rest ==> SLASH !in x)
    && (forall i :: 1 <= i <= |front| ==> (front + [c])[i] != [])
    && (rest == [] || rest[0] == [])
  }

  /** A last component taken apart: its name, its extension, and what is never looked at. */
  ghost predicate LastParts(c: Text, n: Text, e: Text, tail: Text) {
    && DOT !in n && DOT !in e && (tail == [] || tail[0] == DOT)
    && (c == n + [DOT] + e + tail || (c == n && e == tail == []))
  }

  lemma {:induction false} LastAtIs(comps: seq<Text>, i: nat, last: nat)
    requires i <= last < |comps| && forall j :: i < j <= last ==> comps[j] != []
    requires last + 1 < |comps| ==> comps[last + 1] == []
    ensures LastAt(comps, i) == last
    decreases last - i
  {
    if i < last {
      LastAtIs(comps, i + 1, last);
    }
  }

  /** What a path text means, for every text and every tree: the walk along its components but the
      last decides between 3 and the folder, the lengths of the last component's name and extension
      between 4, 5 and a key, and what the folder has under that key between 0, 1 and 2. */
  lemma ResolveMeans(t: Tree, p: Path, front: seq<Text>, c: Text, rest: seq<Text>, n: Text, e: Text, tail: Text)
    requires PathParts(front, c, rest) && LastParts(c, n, e, tail)
    ensures var r, w := Resolve(t, p, Join(front + [c] + rest, SLASH)), Walk(t, p, front);
      && (r.code == 3 <==> w.None?)
      && (r.code == 4 <==> w.Some? && |n| > 8)
      && (r.code == 5 <==> w.Some? && |n| <= 8 && |e| > 3)
      && (w.Some? && |n| <= 8 && |e| <= 3 ==>
            && r.parent == w.value
            && r.key.name == n + seq(8 - |n|, _ => 0) && r.key.ext == e + seq(3 - |e|, _ => 0)
            && var q := Child(w.value, r.key);
            && (r.code == 0 <==> q in t && t[q].Document?)
            && (r.code == 1 <==> q in t && t[q] == Directory)
            && (r.code == 2 <==> q !in t))
  {
    var comps := front + [c] + rest;
    SplitJoin(comps, SLASH);
    LastAtIs(comps, 0, |front|);
    assert comps[..|front|] == front && comps[|front|] == c;
    LastPartsFound(c, n, e, tail);
    if |n| <= 8 && |e| <= 3 {
      PaddedWith(n, e);
    }
  }

  lemma PaddedWith(n: Text, e: Text)
    requires |n| <= 8 && |e| <= 3
    ensures NameOf(n) == n + seq(8 - |n|, _ => 0) && ExtOf(e) == e + seq(3 - |e|, _ => 0)
  {
    ZerosLength(8 - |n|);
    ZerosLength(3 - |e|);
    assert Zeros(8 - |n|) == seq(8 - |n|, _ => 0) && Zeros(3 - |e|) == seq(3 - |e|, _ => 0);
  }

  lemma LastPartsFound(c: Text, n: Text, e: Text, tail: Text)
    requires LastParts(c, n, e, tail)
    ensures BaseOf(c) == n && SuffixOf(c) == e
  {
    if c == n {
      SplitSingle(n, DOT);
    } else {
      SplitSingle(n, DOT);
      SplitAppend(n, DOT, e);
      SplitFirst(n + [DOT] + e, DOT, tail);
    }
  }

  /** Every path text can be taken apart, so the above says what each of them means. */
  lemma EveryPath(s: Text) returns (front: seq<Text>, c: Text, rest: seq<Text>, n: Text, e: Text, tail: Text)
    ensures PathParts(front, c, rest) && LastParts(c, n, e, tail) && s == Join(front + [c] + rest, SLASH)
  {
    var comps := Split(s, SLASH);
    var last := LastAt(comps, 0);
    LastAtStops(comps, 0);
    front, c, rest := comps[..last], comps[last], comps[last + 1..];
    assert front + [c] + rest == comps;
    forall x | x in comps
      ensures SLASH !in x
    {
      var j :| 0 <= j < |comps| && comps[j] == x;
      SplitPieces(s, SLASH, j);
    }
    JoinSplit(s, SLASH);
    n, e, tail := EveryComponent(c);
  }

  lemma {:induction false} LastAtStops(comps: seq<Text>, i: nat)
    requires i < |comps|
    ensures var last := LastAt(comps, i);
      && (forall j :: i < j <= last ==> comps[j] != []) && (last + 1 < |comps| ==> comps[last + 1] == [])
    decreases |comps| - i
  {
    if i + 1 < |comps| && comps[i + 1] != [] {
      LastAtStops(comps, i + 1);
    }
  }

  lemma {:induction false} EveryComponent(c: Text) returns (n: Text, e: Text, tail: Text)
    ensures LastParts(c, n, e, tail)
  {
    if c == [] {
      n, e, tail := [], [], [];
    } else {
      var front, x := c[..|c| - 1], c[|c| - 1];
      n, e, tail := EveryComponent(front);
      assert c == front + [x];
      if front == n && e == tail == [] && DOT !in front {
        if x != DOT {
          n := c;
        }
        assert c == n + [DOT] + e + tail || c == n;
      } else if tail == [] && x != DOT {
        e := e + [x];
        assert c == n + [DOT] + e + tail;
      } else {
        tail := tail + [x];
        assert c == n + [DOT] + e + tail;
      }
    }
  }

  /** A last component never spells the parent: the split takes its dots away. */
  lemma BaseIsNotParent(c: Text)
    requires |BaseOf(c)| <= 8
    ensures NameOf(BaseOf(c)) != DOT_DOT
  {
    SplitPieces(c, DOT, 0);
    ZerosLength(8 - |BaseOf(c)|);
    if |BaseOf(c)| > 0 {
      assert BaseOf(c)[0] in BaseOf(c) && NameOf(BaseOf(c))[0] == BaseOf(c)[0];
    } else {
      assert NameOf(BaseOf(c))[0] == 0;
    }
  }

  /** Walking from a folder stays among folders. */
  lemma {:induction false} WalkStays(v: Volume, lay: Layout, p: Path, comps: seq<Text>)
    requires Inv(v, lay) && p in lay.nodes && lay.nodes[p].Folder?
    requires Walk(TreeOf(v, lay), p, comps).Some?
    ensures var q := Walk(TreeOf(v, lay), p, comps).value; q in lay.nodes && lay.nodes[q].Folder?
  {
    if comps != [] {
      WalkStays(v, lay, p, comps[..|comps| - 1]);
      var q := Walk(TreeOf(v, lay), p, comps[..|comps| - 1]).value;
      if q.Child? {
        assert Child(q.parent, q.key) in lay.nodes;
      }
    }
  }

  // ---- the text of a working directory ------------------------------------------------------

  /** The bytes of a name before its padding. */
  function Trim(name: Text): Text {
    if name == [] || name[0] == 0 then [] else [name[0]] + Trim(name[1..])
  }

  function Render(p: Path): Text {
    if p.Root? then [TILDE] else Render(p.parent) + [SLASH] + Trim(p.key.name)
  }

  /** A component that a path text can carry. */
  ghost predicate Plain(c: Text) {
    0 < |c| <= 8 && 0 !in c && SLASH !in c
  }

  /** Every name on the way to `p` can be written in a path text and read back. */
  ghost predicate Speakable(p: Path) {
    p.Child? ==>
      Speakable(p.parent) && p.key.ext == NO_EXT && p.key.name != DOT_DOT
      && Plain(Trim(p.key.name)) && p.key.name == NameOf(Trim(p.key.name))
  }

  lemma {:induction false} TrimName(c: Text, n: nat)
    requires 0 !in c
    ensures Trim(c + Zeros(n)) == c
  {
    if c == [] {
      assert c + Zeros(n) == Zeros(n);
    } else {
      assert (c + Zeros(n))[1..] == c[1..] + Zeros(n);
      assert forall x :: x in c[1..] ==> x in c;
      TrimName(c[1..], n);
    }
  }

  function Slashes(s: Text): nat {
    if s == [] then 0 else Slashes(s[..|s| - 1]) + if s[|s| - 1] == SLASH then 1 else 0
  }

  lemma {:induction false} SlashesAppend(s: Text, piece: Text)
    requires SLASH !in piece
    ensures Slashes(s + piece) == Slashes(s)
  {
    if piece == [] {
      assert s + piece == s;
    } else {
      var front := piece[..|piece| - 1];
      assert (s + piece)[..|s + piece| - 1] == s + front;
      SlashesAppend(s, front);
    }
  }

  lemma SlashesComponent(s: Text, c: Text)
    requires SLASH !in c
    ensures Slashes(s + [SLASH] + c) == Slashes(s) + 1
  {
    SlashesAppend(s + [SLASH], c);
    assert (s + [SLASH])[..|s|] == s;
  }

  lemma {:induction false} RenderShape(p: Path)
    requires Speakable(p)
    ensures Render(p) != [] && Render(p)[0] == TILDE && Slashes(Render(p)) == Depth(p) && 0 !in Render(p)
  {
    if p.Child? {
      RenderShape(p.parent);
      SlashesComponent(Render(p.parent), Trim(p.key.name));
    } else {
      assert [TILDE][..0] == [];
      assert Slashes([TILDE]) == 0;
    }
  }

  /** The text before the last slash; nothing if there is none. */
  function MovedBack(s: Text): Text {
    if s == [] then []
    else if s[|s| - 1] == SLASH then s[..|s| - 1]
    else MovedBack(s[..|s| - 1])
  }

  lemma {:induction false} MovedBackComponent(s: Text, c: Text)
    requires SLASH !in c
    ensures MovedBack(s + [SLASH] + c) == s
  {
    var whole := s + [SLASH] + c;
    if c == [] {
      assert whole[..|whole| - 1] == s;
    } else {
      var front := c[..|c| - 1];
      assert whole[..|whole| - 1] == s + [SLASH] + front;
      MovedBackComponent(s, front);
    }
  }

  lemma {:induction false} MovedBackShape(s: Text)
    ensures |MovedBack(s)| <= |s| && MovedBack(s) == s[..|MovedBack(s)|]
    ensures Slashes(s) > 0 ==> Slashes(MovedBack(s)) == Slashes(s) - 1
    ensures Slashes(s) == 0 ==> MovedBack(s) == []
  {
    if s != [] && s[|s| - 1] != SLASH {
      MovedBackShape(s[..|s| - 1]);
    }
  }

  /** How the shell edits the text when it steps from `p` along `c`. */
  function TextStep(p: Path, s: Text, c: Text): Text {
    if c == ONE_DOT || c == TWO_DOTS then (if p.Root? then s else MovedBack(s))
    else s + [SLASH] + c
  }

  /** The text after walking from `p`. */
  ghost function TextAfter(t: Tree, p: Path, s: Text, comps: seq<Text>): Text
    requires Walk(t, p, comps).Some?
  {
    if comps == [] then s
    else
      var front := comps[..|comps| - 1];
      TextStep(Walk(t, p, front).value, TextAfter(t, p, s, front), comps[|comps| - 1])
  }

  lemma TextNext(t: Tree, p: Path, s: Text, comps: seq<Text>, i: nat)
    requires i < |comps| && Walk(t, p, comps[..i + 1]).Some?
    ensures Walk(t, p, comps[..i]).Some?
    ensures TextAfter(t, p, s, comps[..i + 1])
         == TextStep(Walk(t, p, comps[..i]).value, TextAfter(t, p, s, comps[..i]), comps[i])
  {
    assert comps[..i + 1][..i] == comps[..i];
  }

  /** The text has fewer slashes than the path is deep, or lost its leading tilde. */
  ghost predicate Diverged(s: Text, p: Path) {
    Slashes(s) < Depth(p) || s == [] || s[0] != TILDE
  }

  lemma TwoDotsName(c: Text)
    requires |c| <= 8 && 0 !in c
    ensures NameOf(c) == DOT_DOT <==> c == TWO_DOTS
  {
    ZerosLength(8 - |c|);
    TrimName(c, 8 - |c|);
    if |c| > 2 {
      assert c[2] in c && NameOf(c)[2] == c[2];
    } else if |c| < 2 {
      assert NameOf(c)[1] == 0;
    } else if NameOf(c) == DOT_DOT {
      assert c == NameOf(c)[..2];
    }
    if c == TWO_DOTS {
      assert NameOf(c) == DOT_DOT;
    }
  }

  /** A step along a component other than "." keeps text and path together. */
  lemma StepTracks(t: Tree, p: Path, c: Text)
    requires Speakable(p) && Plain(c) && StepTo(t, p, c).Some?
    ensures Speakable(StepTo(t, p, c).value)
    ensures c != ONE_DOT ==> TextStep(p, Render(p), c) == Render(StepTo(t, p, c).value)
  {
    TwoDotsName(c);
    if c == TWO_DOTS {
      if p.Child? {
        MovedBackComponent(Render(p.parent), Trim(p.key.name));
      }
    } else {
      TrimName(c, 8 - |c|);
    }
  }

  /** A step along "." takes text and path apart, and no later step brings them together. */
  lemma StepDiverges(t: Tree, p: Path, s: Text, c: Text)
    requires Plain(c) && StepTo(t, p, c).Some?
    requires Diverged(s, p) || (c == ONE_DOT && s == Render(p) && Speakable(p))
    ensures Diverged(TextStep(p, s, c), StepTo(t, p, c).value)
  {
    TwoDotsName(c);
    MovedBackShape(s);
    if c == ONE_DOT || c == TWO_DOTS {
      if s == Render(p) && Speakable(p) {
        RenderShape(p);
      }
    } else {
      SlashesComponent(s, c);
    }
  }

  /** After a walk the text still names the folder exactly when no component was ".". */
  lemma {:induction false} TextTracks(t: Tree, p: Path, comps: seq<Text>)
    requires Speakable(p) && Walk(t, p, comps).Some? && forall c :: c in comps ==> Plain(c)
    ensures Speakable(Walk(t, p, comps).value)
    ensures ONE_DOT !in comps ==> TextAfter(t, p, Render(p), comps) == Render(Walk(t, p, comps).value)
    ensures ONE_DOT in comps ==> Diverged(TextAfter(t, p, Render(p), comps), Walk(t, p, comps).value)
  {
    if comps != [] {
      var front, c := comps[..|comps| - 1], comps[|comps| - 1];
      assert comps == front + [c];
      TextTracks(t, p, front);
      var q, s := Walk(t, p, front).value, TextAfter(t, p, Render(p), front);
      StepTracks(t, q, c);
      if ONE_DOT in comps {
        StepDiverges(t, q, s, c);
      }
    }
  }

  /** The working directory's text names its folder after a walk if and only if no component
      of the walk is ".". */
  lemma TextNamesFolder(t: Tree, p: Path, comps: seq<Text>)
    requires Speakable(p) && Walk(t, p, comps).Some? && forall c :: c in comps ==> Plain(c)
    ensures TextAfter(t, p, Render(p), comps) == Render(Walk(t, p, comps).value) <==> ONE_DOT !in comps
  {
    TextTracks(t, p, comps);
    RenderShape(Walk(t, p, comps).value);
  }

  lemma WalkAppend(t: Tree, p: Path, comps: seq<Text>, c: Text)
    requires Walk(t, p, comps).Some?
    ensures Walk(t, p, comps + [c]) == StepTo(t, Walk(t, p, comps).value, c)
  {
    assert (comps + [c])[..|comps|] == comps;
  }

  /** Reading the text back from the root leads to the folder it names. */
  lemma {:induction false} RenderResolves(v: Volume, lay: Layout, p: Path)
    requires Inv(v, lay) && p in lay.nodes && lay.nodes[p].Folder? && Speakable(p)
    ensures var parts := Split(Render(p), SLASH);
      parts[0] == [TILDE] && Walk(TreeOf(v, lay), Root, parts[1..]) == Some(p)
  {
    if p.Root? {
      SplitSingle([TILDE], SLASH);
    } else {
      assert Child(p.parent, p.key) in lay.nodes;
      RenderResolves(v, lay, p.parent);
      var c := Trim(p.key.name);
      SplitAppend(Render(p.parent), SLASH, c);
      var parts, more := Split(Render(p.parent), SLASH), Split(Render(p), SLASH);
      assert more[1..] == parts[1..] + [c];
      WalkAppend(TreeOf(v, lay), Root, parts[1..], c);
      TwoDotsName(c);
    }
  }

  /** Components that a walk got through can be carried by a path text. */
  lemma {:induction false} WalkedPlain(t: Tree, p: Path, comps: seq<Text>, n: nat)
    requires n <= |comps| && Walk(t, p, comps[..n]).Some?
    requires forall j :: 0 <= j < n ==> comps[j] != [] && 0 !in comps[j] && SLASH !in comps[j]
    ensures forall j :: 0 <= j < n ==> Plain(comps[j])
  {
    if n > 0 {
      assert comps[..n][..n - 1] == comps[..n - 1];
      WalkedPlain(t, p, comps, n - 1);
    }
  }

  /** After a successful change of directory the text names the folder exactly when "." was not
      among the components; either way the folder can be named. */
  lemma ChangeNamesFolder(t: Tree, p: Path, s: Text)
    requires Speakable(p) && 0 !in s && Walk(t, p, Walked(Split(s, SLASH))).Some?
    ensures var w := Walked(Split(s, SLASH)); var q := Walk(t, p, w).value;
      Speakable(q) && (TextAfter(t, p, Render(p), w) == Render(q) <==> ONE_DOT !in w)
  {
    var w := Walked(Split(s, SLASH));
    forall j | 0 <= j < |w|
      ensures w[j] != [] && 0 !in w[j] && SLASH !in w[j]
    {
      SplitPieces(s, SLASH, j);
      assert w[j] in w;
    }
    assert w[..|w|] == w;
    WalkedPlain(t, p, w, |w|);
    TextTracks(t, p, w);
    TextNamesFolder(t, p, w);
  }
}
