/** Rust's `[String]::join(sep)` and where each part lands in its result. */
module Strings {

  /** `parts.join(sep)`: the parts in order, `sep` between each pair of neighbours. */
  function Join(parts: seq<string>, sep: string): (r: string)
  {
    if |parts| == 0 then ""
    else if |parts| == 1 then parts[0]
    else parts[0] + sep + Join(parts[1..], sep)
  }

  /** Where part `i` starts in a join: every earlier part, each followed by one separator. */
  function Offset(parts: seq<string>, sep: string, i: nat): (r: nat)
    requires i <= |parts|
  {
    if i == 0 then 0 else |parts[0]| + |sep| + Offset(parts[1..], sep, i - 1)
  }

  /** Slicing past a prefix is slicing the rest. */
  lemma SliceAfterPrefix(a: string, b: string, lo: nat, hi: nat)
    requires lo <= hi <= |b|
    ensures (a + b)[|a| + lo..|a| + hi] == b[lo..hi]
  {
  }

  /** A join of two or more parts is the first part, a separator, then the join of the rest. */
  lemma JoinUnfold(parts: seq<string>, sep: string)
    requires |parts| > 1
    ensures Join(parts, sep) == (parts[0] + sep) + Join(parts[1..], sep)
    ensures Offset(parts, sep, 1) == |parts[0] + sep|
  {
  }

  /** Part `i` of a join sits at `Offset(parts, sep, i)`. */
  lemma {:induction false} JoinPartAt(parts: seq<string>, sep: string, i: nat)
    requires i < |parts|
    ensures Offset(parts, sep, i) + |parts[i]| <= |Join(parts, sep)|
    ensures Join(parts, sep)[Offset(parts, sep, i)..Offset(parts, sep, i) + |parts[i]|] == parts[i]
  {
    if |parts| > 1 {
      JoinUnfold(parts, sep);
      var head, tail := parts[0] + sep, parts[1..];
      if i == 0 {
        assert Join(parts, sep)[..|parts[0]|] == parts[0];
      } else {
        JoinPartAt(tail, sep, i - 1);
        var lo := Offset(tail, sep, i - 1);
        SliceAfterPrefix(head, Join(tail, sep), lo, lo + |tail[i - 1]|);
      }
    }
  }

  /** Between part `i` and part `i + 1` of a join there is exactly one separator. */
  lemma {:induction false} JoinSeparatorAt(parts: seq<string>, sep: string, i: nat)
    requires i + 1 < |parts|
    ensures Offset(parts, sep, i + 1) == Offset(parts, sep, i) + |parts[i]| + |sep|
    ensures Offset(parts, sep, i + 1) <= |Join(parts, sep)|
    ensures Join(parts, sep)[Offset(parts, sep, i) + |parts[i]|..Offset(parts, sep, i + 1)] == sep
  {
    JoinUnfold(parts, sep);
    var head, tail := parts[0] + sep, parts[1..];
    if i == 0 {
      assert Join(parts, sep)[|parts[0]|..|head|] == sep;
    } else {
      JoinSeparatorAt(tail, sep, i - 1);
      var lo := Offset(tail, sep, i - 1) + |tail[i - 1]|;
      SliceAfterPrefix(head, Join(tail, sep), lo, Offset(tail, sep, i));
    }
  }

  /** The last part of a join ends it: its length is every part plus a separator between each pair. */
  lemma {:induction false} JoinLength(parts: seq<string>, sep: string)
    requires |parts| > 0
    ensures |Join(parts, sep)| == Offset(parts, sep, |parts| - 1) + |parts[|parts| - 1]|
  {
    if |parts| > 1 {
      JoinUnfold(parts, sep);
      JoinLength(parts[1..], sep);
    }
  }
}
