/** Splitting a string at a separator. */
module Separation {
  /** The pieces of s between the separators, at least one. */
  function Split(s: string, ch: char): (pieces: seq<string>)
    ensures |pieces| >= 1
  {
    if s == [] then [[]]
    else
      var front := Split(s[..|s| - 1], ch);
      if s[|s| - 1] == ch then front + [[]]
      else front[..|front| - 1] + [front[|front| - 1] + [s[|s| - 1]]]
  }

  function Join(pieces: seq<string>, ch: char): string {
    if pieces == [] then ""
    else if |pieces| == 1 then pieces[0]
    else Join(pieces[..|pieces| - 1], ch) + [ch] + pieces[|pieces| - 1]
  }

  function Occurrences(s: string, ch: char): nat {
    if s == [] then 0 else Occurrences(s[..|s| - 1], ch) + if s[|s| - 1] == ch then 1 else 0
  }

  lemma JoinNext(pieces: seq<string>, next: string, ch: char)
    requires pieces != []
    ensures Join(pieces + [next], ch) == Join(pieces, ch) + [ch] + next
  {
    assert (pieces + [next])[..|pieces|] == pieces;
  }

  lemma JoinLonger(pieces: seq<string>, c: char, ch: char)
    requires pieces != []
    ensures var n := |pieces| - 1;
      Join(pieces[..n] + [pieces[n] + [c]], ch) == Join(pieces, ch) + [c]
  {
    var n := |pieces| - 1;
    if n > 0 {
      JoinNext(pieces[..n], pieces[n] + [c], ch);
      JoinNext(pieces[..n], pieces[n], ch);
      assert pieces[..n] + [pieces[n]] == pieces;
    }
  }

  /** No piece contains the separator. */
  predicate Clean(pieces: seq<string>, ch: char) {
    forall i :: 0 <= i < |pieces| ==> ch !in pieces[i]
  }

  lemma CleanLonger(pieces: seq<string>, c: char, ch: char)
    requires pieces != [] && Clean(pieces, ch) && c != ch
    ensures var n := |pieces| - 1; Clean(pieces[..n] + [pieces[n] + [c]], ch)
  {
    assert ch !in pieces[|pieces| - 1] + [c];
  }

  /** Splitting loses nothing: the pieces are free of the separator, joining them gives the string back,
      and there is one more piece than there are separators. */
  lemma {:induction false} SplitJoin(s: string, ch: char)
    ensures Join(Split(s, ch), ch) == s
    ensures |Split(s, ch)| == Occurrences(s, ch) + 1
    ensures Clean(Split(s, ch), ch)
  {
    if s == [] {
      assert Split(s, ch) == [[]];
    } else {
      hide Join, Clean;
      var c := s[|s| - 1];
      var front := Split(s[..|s| - 1], ch);
      SplitJoin(s[..|s| - 1], ch);
      assert s == s[..|s| - 1] + [c];
      if c == ch {
        JoinNext(front, [], ch);
        assert Join(front, ch) + [ch] + [] == Join(front, ch) + [ch];
        CleanNext(front, ch);
      } else {
        JoinLonger(front, c, ch);
        CleanLonger(front, c, ch);
      }
    }
  }

  lemma CleanNext(pieces: seq<string>, ch: char)
    requires Clean(pieces, ch)
    ensures Clean(pieces + [[]], ch)
  {
  }

  /** Joining separator-free pieces and splitting again gives the pieces. */
  lemma {:induction false} JoinSplit(pieces: seq<string>, ch: char)
    requires pieces != [] && Clean(pieces, ch)
    ensures Split(Join(pieces, ch), ch) == pieces
  {
    hide Split, Clean;
    var n := |pieces| - 1;
    CleanParts(pieces, ch);
    if n == 0 {
      SplitPlain(pieces[0], ch);
      assert pieces == [pieces[0]];
    } else {
      var front, last := pieces[..n], pieces[n];
      assert pieces == front + [last];
      JoinSplit(front, ch);
      JoinNext(front, last, ch);
      hide Join;
      SplitAppend(Join(front, ch), last, ch);
    }
  }

  lemma CleanParts(pieces: seq<string>, ch: char)
    requires pieces != [] && Clean(pieces, ch)
    ensures Clean(pieces[..|pieces| - 1], ch) && ch !in pieces[|pieces| - 1]
  {
  }

  lemma {:induction false} SplitPlain(s: string, ch: char)
    requires ch !in s
    ensures Split(s, ch) == [s]
  {
    if s != [] {
      SplitPlain(s[..|s| - 1], ch);
      assert s == s[..|s| - 1] + [s[|s| - 1]];
    }
  }

  lemma {:induction false} SplitAppend(s: string, piece: string, ch: char)
    requires ch !in piece
    ensures Split(s + [ch] + piece, ch) == Split(s, ch) + [piece]
    decreases |piece|
  {
    var t := s + [ch] + piece;
    if piece == [] {
      assert t[..|t| - 1] == s;
    } else {
      var shorter := piece[..|piece| - 1];
      SplitAppend(s, shorter, ch);
      assert t[..|t| - 1] == s + [ch] + shorter;
      assert shorter + [piece[|piece| - 1]] == piece;
    }
  }

  const CH_ARRAY := 32

  /** The code's loop. A piece is collected in a 32-byte array, so pieces of more than 31 characters are
      the caller's error. The table grows by one entry for each separator; the caller gives it one. */
  method Separate(ch: char, sequence: string, initial: array<string>) returns (table: array<string>, count: nat)
    requires forall i :: 0 <= i < |Split(sequence, ch)| ==> |Split(sequence, ch)[i]| < 32
    requires initial.Length == 1
    modifies initial
    ensures count <= table.Length && table[..count] == Split(sequence, ch)
  {
    hide Split;
    var chArray := new char[CH_ARRAY](_ => 0 as char);
    table := initial;
    count := 0;
    var i, j := 0, 0;
    SplitNothing(sequence[..0], ch);
    while i < |sequence|
      invariant 0 <= i <= |sequence| && j < CH_ARRAY
      invariant table.Length == count + 1 && (table == initial || fresh(table))
      invariant fresh(chArray)
      invariant Split(sequence[..i], ch) == table[..count] + [chArray[..j]]
    {
      SplitStep(sequence, i, ch);
      PrefixPieces(sequence, i + 1, ch);
      ghost var done, piece := table[..count], chArray[..j];
      assert (done + [piece])[..count] == done;
      if sequence[i] == ch {
        table[count] := chArray[..j];
        count := count + 1;
        assert table[..] == done + [piece];
        table := Grow(table);
        j := 0;
        ClearArray(chArray);
        assert table[..count] == done + [piece] && chArray[..j] == [];
      } else {
        assert Split(sequence[..i + 1], ch)[count] == piece + [sequence[i]];
        chArray[j] := sequence[i];
        j := j + 1;
        assert table[..count] == done && chArray[..j] == piece + [sequence[i]];
      }
      i := i + 1;
    }
    assert sequence[..i] == sequence;
    table[count] := chArray[..j];
    count := count + 1;
  }

  lemma SplitNothing(s: string, ch: char)
    requires s == []
    ensures Split(s, ch) == [[]]
  {
  }

  lemma SplitStep(s: string, i: nat, ch: char)
    requires i < |s|
    ensures var pieces := Split(s[..i], ch);
      var n := |pieces| - 1;
      Split(s[..i + 1], ch) == if s[i] == ch then pieces + [[]] else pieces[..n] + [pieces[n] + [s[i]]]
  {
    assert s[..i + 1][..i] == s[..i];
  }

  /** realloc to one more entry. */
  method Grow(table: array<string>) returns (larger: array<string>)
    ensures fresh(larger) && larger.Length == table.Length + 1
    ensures larger[..table.Length] == table[..]
  {
    larger := new string[table.Length + 1](_ => "");
    var k := 0;
    while k < table.Length
      invariant 0 <= k <= table.Length && larger[..k] == table[..k]
    {
      larger[k] := table[k];
      k := k + 1;
    }
  }

  method ClearArray(chArray: array<char>)
    modifies chArray
  {
    var k := 0;
    while k < chArray.Length {
      chArray[k] := 0 as char;
      k := k + 1;
    }
  }

  /** No piece of a prefix is longer than the longest piece of the whole. */
  lemma {:induction false} PrefixPieces(s: string, n: nat, ch: char)
    requires n <= |s|
    requires forall i :: 0 <= i < |Split(s, ch)| ==> |Split(s, ch)[i]| < CH_ARRAY
    ensures forall i :: 0 <= i < |Split(s[..n], ch)| ==> |Split(s[..n], ch)[i]| < CH_ARRAY
    decreases |s|
  {
    if n == |s| {
      assert s[..n] == s;
    } else {
      var front := s[..|s| - 1];
      var pieces := Split(front, ch);
      forall i | 0 <= i < |pieces| ensures |pieces[i]| < CH_ARRAY {
        assert |pieces[i]| <= |Split(s, ch)[i]|;
      }
      PrefixPieces(front, n, ch);
      assert front[..n] == s[..n];
    }
  }
}
