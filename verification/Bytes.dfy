/** Bytes as C sees them, and a few facts about byte sequences used by every module. */
module Bytes {
  type Byte = b: int | 0 <= b < 256

  /** The value of a byte read through a signed `char`. */
  function Signed(b: Byte): (s: int)
    ensures -128 <= s < 128
    ensures (s - b) % 256 == 0
  {
    if b < 128 then b else b - 256
  }

  function Zeros(n: nat): (z: seq<Byte>)
    ensures |z| == n
    ensures forall i :: 0 <= i < n ==> z[i] == 0
  {
    seq(n, _ => 0)
  }

  function Min(a: int, b: int): int {
    if a <= b then a else b
  }

  /** The concatenation of a list of strings of bytes. */
  function Flatten<T>(parts: seq<seq<T>>): seq<T> {
    if parts == [] then [] else Flatten(parts[..|parts| - 1]) + parts[|parts| - 1]
  }

  lemma {:induction false} FlattenAppend<T>(parts: seq<seq<T>>, last: seq<T>)
    ensures Flatten(parts + [last]) == Flatten(parts) + last
  {
    assert (parts + [last])[..|parts|] == parts;
  }

  lemma {:induction false} FlattenPrefix<T>(parts: seq<seq<T>>, i: nat)
    requires i <= |parts|
    ensures |Flatten(parts[..i])| <= |Flatten(parts)|
    ensures Flatten(parts[..i]) == Flatten(parts)[..|Flatten(parts[..i])|]
    decreases |parts|
  {
    if i == |parts| {
      assert parts[..i] == parts;
    } else {
      var front := parts[..|parts| - 1];
      FlattenPrefix(front, i);
      assert front[..i] == parts[..i];
    }
  }

  lemma FrontAndLast<T>(s: seq<T>)
    requires s != []
    ensures s == s[..|s| - 1] + [s[|s| - 1]]
  {
  }

  lemma SubSlice<T>(s: seq<T>, a: nat, b: nat, m: nat, n: nat)
    requires a <= b <= |s| && m <= n <= b - a
    ensures s[a..b][m..n] == s[a + m..a + n]
  {
    var left, right := s[a..b][m..n], s[a + m..a + n];
    forall i | 0 <= i < n - m ensures left[i] == right[i] {
      assert left[i] == s[a..b][m + i] == s[a + m + i];
    }
    assert left == right;
  }

  lemma FlattenLast<T>(parts: seq<seq<T>>)
    requires parts != []
    ensures Flatten(parts) == Flatten(parts[..|parts| - 1]) + parts[|parts| - 1]
  {
  }

  /** The second part of what lies from position a on in s. */
  lemma SecondPart<T>(x: seq<T>, y: seq<T>, s: seq<T>, a: nat)
    requires a <= |s| && x + y <= s[a..]
    ensures x <= s[a..] && a + |x| + |y| <= |s| && y == s[a + |x|..a + |x| + |y|]
  {
    Halves(x, y, s[a..]);
    SubSlice(s, a, |s|, |x|, |x| + |y|);
    assert s[a..|s|] == s[a..];
  }

  lemma Halves<T>(x: seq<T>, y: seq<T>, t: seq<T>)
    requires x + y <= t
    ensures x <= t && |x| + |y| <= |t| && y == t[|x|..|x| + |y|]
  {
    assert y == (x + y)[|x|..];
  }
}
