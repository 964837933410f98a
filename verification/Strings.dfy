/** The string routines: splitting and joining text, and decimal conversion of integers. */
module Strings {
  import opened Codec

  type Text = seq<byte>

  // ---- splitting ----------------------------------------------------------------------------

  /** The pieces of `s` between delimiters; there is always at least one. */
  function Split(s: Text, delim: byte): (parts: seq<Text>)
    ensures |parts| >= 1
  {
    if s == [] then [[]]
    else
      var parts := Split(s[..|s| - 1], delim);
      var c := s[|s| - 1];
      if c == delim then parts + [[]]
      else parts[|parts| - 1 := parts[|parts| - 1] + [c]]
  }

  function Join(parts: seq<Text>, delim: byte): Text {
    if parts == [] then []
    else if |parts| == 1 then parts[0]
    else Join(parts[..|parts| - 1], delim) + [delim] + parts[|parts| - 1]
  }

  /** Splitting loses nothing. */
  lemma {:induction false} JoinSplit(s: Text, delim: byte)
    ensures Join(Split(s, delim), delim) == s
  {
    if s != [] {
      var front, c := s[..|s| - 1], s[|s| - 1];
      JoinSplit(front, delim);
      var parts := Split(front, delim);
      assert s == front + [c];
      if c == delim {
        assert (parts + [[]])[..|parts|] == parts;
      } else {
        var last := |parts| - 1;
        assert parts[last := parts[last] + [c]][..last] == parts[..last];
      }
    }
  }

  /** No piece contains the delimiter, and no piece contains a byte the text does not. */
  lemma {:induction false} SplitPieces(s: Text, delim: byte, j: nat)
    requires j < |Split(s, delim)|
    ensures delim !in Split(s, delim)[j]
    ensures forall c :: c in Split(s, delim)[j] ==> c in s
  {
    if s != [] {
      var front := s[..|s| - 1];
      var parts := Split(front, delim);
      if j < |parts| {
        SplitPieces(front, delim, j);
        assert forall c :: c in front ==> c in s;
      }
      assert s[|s| - 1] in s;
    }
  }

  /** Splitting a text that ends in a piece without delimiters. */
  lemma {:induction false} SplitAppend(s: Text, delim: byte, piece: Text)
    requires delim !in piece
    ensures Split(s + [delim] + piece, delim) == Split(s, delim) + [piece]
  {
    var whole := s + [delim] + piece;
    if piece == [] {
      assert whole[..|whole| - 1] == s;
    } else {
      var front := piece[..|piece| - 1];
      SplitAppend(s, delim, front);
      assert whole[..|whole| - 1] == s + [delim] + front;
      assert piece == front + [piece[|piece| - 1]];
    }
  }

  lemma {:induction false} SplitSingle(piece: Text, delim: byte)
    requires delim !in piece
    ensures Split(piece, delim) == [piece]
  {
    if piece != [] {
      var front := piece[..|piece| - 1];
      SplitSingle(front, delim);
      assert piece == front + [piece[|piece| - 1]];
    }
  }

  /** What follows a delimiter does not change the pieces before it. */
  lemma {:induction false} SplitFirst(s: Text, delim: byte, tail: Text)
    requires tail == [] || tail[0] == delim
    ensures |Split(s + tail, delim)| >= |Split(s, delim)|
    ensures forall j :: 0 <= j < |Split(s, delim)| ==> Split(s + tail, delim)[j] == Split(s, delim)[j]
    ensures tail != [] ==> |Split(s + tail, delim)| > |Split(s, delim)|
  {
    if tail == [] {
      assert s + tail == s;
    } else {
      var front := tail[..|tail| - 1];
      assert (s + tail)[..|s + tail| - 1] == s + front;
      SplitFirst(s, delim, front);
    }
  }

  /** Joining and splitting are inverse on pieces without delimiters. */
  lemma {:induction false} SplitJoin(parts: seq<Text>, delim: byte)
    requires |parts| >= 1 && forall j :: 0 <= j < |parts| ==> delim !in parts[j]
    ensures Split(Join(parts, delim), delim) == parts
  {
    if |parts| == 1 {
      SplitSingle(parts[0], delim);
    } else {
      var rest := parts[..|parts| - 1];
      SplitJoin(rest, delim);
      SplitAppend(Join(rest, delim), delim, parts[|parts| - 1]);
      assert parts == rest + [parts[|parts| - 1]];
    }
  }

  /** A NUL-terminated string of `s` at the start of a buffer. */
  ghost predicate HoldsText(a: array<byte>, s: Text)
    reads a
  {
    0 !in s && |s| < a.Length && a[..|s|] == s && a[|s|] == 0
  }

  /** A string that fills the rest of its buffer with zeros. */
  ghost predicate Fills(a: array<byte>, s: Text)
    reads a
  {
    HoldsText(a, s) && forall k :: |s| <= k < a.Length ==> a[k] == 0
  }

  /** Row `j` of a table of strings starts with `s`, and only zeros follow. */
  ghost predicate RowHolds(a: array2<byte>, j: nat, s: Text)
    reads a
  {
    && j < a.Length0 && |s| < a.Length1
    && (forall k :: 0 <= k < |s| ==> a[j, k] == s[k])
    && forall k :: |s| <= k < a.Length1 ==> a[j, k] == 0
  }

  /** The pieces fit in the table. */
  predicate PiecesFit(parts: seq<Text>, rows: nat, width: nat) {
    |parts| <= rows && forall j :: 0 <= j < |parts| ==> |parts[j]| < width
  }

  /** Writes the pieces of a string to the rows of a zeroed table. */
  method Strsplit(str: array<byte>, delim: byte, result: array2<byte>, ghost s: Text)
    requires HoldsText(str, s) && delim != 0 && str as object != result
    requires PiecesFit(Split(s, delim), result.Length0, result.Length1)
    requires forall j, k :: 0 <= j < result.Length0 && 0 <= k < result.Length1 ==> result[j, k] == 0
    modifies result
    ensures Filled(result, Split(s, delim))
  {
    var i, j, k := 0, 0, 0;
    assert s[..0] == [] && Split([], delim) == [[]];
    hide Split;
    SplitPrefix(s, delim, 0);
    assert |Split(s, delim)[0]| < result.Length1;
    assert Filled(result, [[]]);
    while str[i] != 0
      invariant 0 <= i <= |s| && Filled(result, Split(s[..i], delim))
      invariant j == |Split(s[..i], delim)| - 1 && k == |Split(s[..i], delim)[j]|
      decreases |s| - i
    {
      SplitStep(s, delim, i);
      SplitPrefix(s, delim, i + 1);
      ghost var parts, more := Split(s[..i], delim), Split(s[..i + 1], delim);
      assert |more| <= result.Length0 && |more[|more| - 1]| < result.Length1;
      if str[i] == delim {
        EndPiece(result, j, k, parts);
        j := j + 1;
        k := 0;
      } else {
        assert more[j] == parts[j] + [s[i]];
        PutByte(result, j, k, str[i], parts);
        k := k + 1;
      }
      i := i + 1;
    }
    assert s[..i] == s;
    result[j, k] := 0;
  }

  /** The pieces are in their rows, and the other rows are empty. */
  ghost predicate Filled(result: array2<byte>, parts: seq<Text>)
    reads result
  {
    && |parts| <= result.Length0 && (forall r :: 0 <= r < |parts| ==> RowHolds(result, r, parts[r]))
    && (forall r :: |parts| <= r < result.Length0 ==> RowHolds(result, r, []))
  }

  method EndPiece(result: array2<byte>, j: nat, k: nat, ghost parts: seq<Text>)
    requires Filled(result, parts) && |parts| == j + 1 < result.Length0 && k == |parts[j]| && result.Length1 > 0
    modifies result
    ensures Filled(result, parts + [[]])
  {
    result[j, k] := 0;
  }

  method PutByte(result: array2<byte>, j: nat, k: nat, c: byte, ghost parts: seq<Text>)
    requires Filled(result, parts) && |parts| == j + 1 && k == |parts[j]| && k + 1 < result.Length1
    modifies result
    ensures Filled(result, parts[j := parts[j] + [c]])
  {
    ghost var more := parts[j := parts[j] + [c]];
    assert RowHolds(result, j, parts[j]);
    result[j, k] := c;
    assert RowHolds(result, j, more[j]);
    forall r: nat | r < j
      ensures RowHolds(result, r, more[r])
    {
      assert old(RowHolds(result, r, parts[r]));
    }
    forall r: nat | |parts| <= r < result.Length0
      ensures RowHolds(result, r, [])
    {
      assert old(RowHolds(result, r, []));
    }
  }

  lemma SplitStep(s: Text, delim: byte, i: nat)
    requires i < |s|
    ensures var parts := Split(s[..i], delim);
      Split(s[..i + 1], delim) == if s[i] == delim then parts + [[]]
                                  else parts[|parts| - 1 := parts[|parts| - 1] + [s[i]]]
  {
    assert s[..i + 1][..i] == s[..i];
  }

  /** A prefix has no more pieces, and no longer ones. */
  lemma {:induction false} SplitPrefix(s: Text, delim: byte, i: nat)
    requires i <= |s|
    ensures |Split(s[..i], delim)| <= |Split(s, delim)|
    ensures forall j :: 0 <= j < |Split(s[..i], delim)| ==> |Split(s[..i], delim)[j]| <= |Split(s, delim)[j]|
    decreases |s| - i
  {
    if i == |s| {
      assert s[..i] == s;
    } else {
      SplitStep(s, delim, i);
      SplitPrefix(s, delim, i + 1);
    }
  }

  /** Appends a string to the string in the buffer. */
  method Strcat(dest: array<byte>, src: Text, ghost s: Text)
    requires Fills(dest, s) && 0 !in src && |s| + |src| < dest.Length
    modifies dest
    ensures Fills(dest, s + src)
  {
    var i := 0;
    while dest[i] != 0
      invariant 0 <= i <= |s|
      decreases |s| - i
    {
      i := i + 1;
    }
    var j := 0;
    while j < |src|
      invariant 0 <= j <= |src| && i == |s| + j
      invariant dest[..i] == s + src[..j] && forall k :: i <= k < dest.Length ==> dest[k] == 0
    {
      dest[i] := src[j];
      i := i + 1;
      j := j + 1;
    }
    dest[i] := 0;
    assert src[..j] == src;
  }
}
