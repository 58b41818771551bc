/**
 * The byte-string helpers the parser relies on: `bytes.IndexByte`,
 * `strings.Split` and `strings.Join` with a one-byte separator.
 * A `string` stands for a Go byte slice: each `char` is one byte.
 */
module Strings {
  import opened Wrappers

  /** The index of the first occurrence of `c` in `s`, as `bytes.IndexByte` (None for -1). */
  function IndexOf(s: string, c: char): (r: Option<nat>)
    ensures r.Some? ==> r.value < |s| && s[r.value] == c && c !in s[..r.value]
    ensures r.None? <==> c !in s
  {
    if s == [] then None
    else if s[0] == c then Some(0)
    else match IndexOf(s[1..], c)
      case None => None
      case Some(i) =>
        assert s[..i + 1] == [s[0]] + s[1..][..i];
        Some(i + 1)
  }

  /** The first occurrence is unique: any index before which `c` does not occur is it. */
  lemma IndexOfAt(s: string, c: char, i: nat)
    requires i < |s| && s[i] == c && c !in s[..i]
    ensures IndexOf(s, c) == Some(i)
  {
    assert s[..i + 1][i] == c;
    var j := IndexOf(s, c).value;
    assert forall k | 0 <= k < i :: s[..i][k] == s[k];
    assert forall k | 0 <= k < j :: s[..j][k] == s[k];
  }

  /**
   * `bytes.Cut(s, []byte{c})`: the text before and after the first `c`, or
   * None when `c` does not occur.
   */
  function Cut(s: string, c: char): (r: Option<(string, string)>)
    ensures r.None? <==> c !in s
    ensures r.Some? ==> c !in r.value.0 && s == r.value.0 + [c] + r.value.1
  {
    match IndexOf(s, c)
    case None => None
    case Some(i) =>
      assert s == s[..i] + [c] + s[i + 1..];
      Some((s[..i], s[i + 1..]))
  }

  /** The cut is at the first `c`: text free of `c`, then `c`, cuts into that text and the rest. */
  lemma CutAt(a: string, c: char, b: string)
    requires c !in a
    ensures Cut(a + [c] + b, c) == Some((a, b))
  {
    var s := a + [c] + b;
    assert s[..|a|] == a;
    IndexOfAt(s, c, |a|);
    assert s[|a| + 1..] == b;
  }

  /** The number of occurrences of `c` in `s`. */
  function Count(s: string, c: char): nat
  {
    if s == [] then 0 else (if s[0] == c then 1 else 0) + Count(s[1..], c)
  }

  lemma {:induction false} CountAbsent(s: string, c: char)
    requires c !in s
    ensures Count(s, c) == 0
  {
    if s != [] {
      assert c !in s[1..];
      CountAbsent(s[1..], c);
    }
  }

  lemma {:induction false} CountAtFirst(s: string, c: char, i: nat)
    requires i < |s| && s[i] == c && c !in s[..i]
    ensures Count(s, c) == 1 + Count(s[i + 1..], c)
  {
    if i > 0 {
      assert s[1..][..i - 1] == s[1..i];
      assert s[1..][i - 1 + 1..] == s[i + 1..];
      assert s[0] == s[..i][0];
      CountAtFirst(s[1..], c, i - 1);
    }
  }

  /**
   * `strings.Join(parts, string([sep]))`; the join of no parts is empty. It
   * starts with the first part, and separator-free parts are joined by
   * exactly one separator between each two.
   */
  function Join(parts: seq<string>, sep: char): (r: string)
    ensures |parts| > 0 ==> parts[0] <= r
    ensures (forall i | 0 <= i < |parts| :: sep !in parts[i]) ==> Count(r, sep) == if |parts| == 0 then 0 else |parts| - 1
  {
    if |parts| == 0 then []
    else if |parts| == 1 then
      if sep !in parts[0] then CountAbsent(parts[0], sep); parts[0] else parts[0]
    else
      var r := parts[0] + [sep] + Join(parts[1..], sep);
      assert r[..|parts[0]|] == parts[0];
      assert r[|parts[0]| + 1..] == Join(parts[1..], sep);
      if sep !in parts[0] then CountAtFirst(r, sep, |parts[0]|); r else r
  }

  /**
   * `strings.Split(s, string([sep]))`: the pieces of `s` between occurrences of
   * `sep`. There is one piece more than there are separators, so the empty
   * string splits into one empty piece and adjacent separators give empty pieces.
   */
  function Split(s: string, sep: char): (parts: seq<string>)
    ensures |parts| == Count(s, sep) + 1
    ensures forall i | 0 <= i < |parts| :: sep !in parts[i]
    ensures Join(parts, sep) == s
    decreases |s|
  {
    match IndexOf(s, sep)
    case None =>
      CountAbsent(s, sep);
      [s]
    case Some(i) =>
      CountAtFirst(s, sep, i);
      var rest := Split(s[i + 1..], sep);
      assert s == s[..i] + [sep] + s[i + 1..];
      [s[..i]] + rest
  }

  /** Splitting a piece off the front: the first piece is everything before the first separator. */
  lemma SplitCons(a: string, sep: char, rest: string)
    requires sep !in a
    ensures Split(a + [sep] + rest, sep) == [a] + Split(rest, sep)
  {
    var s := a + [sep] + rest;
    assert s[..|a|] == a;
    IndexOfAt(s, sep, |a|);
    assert s[|a| + 1..] == rest;
  }

  /** Split inverts Join on pieces that contain no separator. */
  lemma {:induction false} SplitJoin(parts: seq<string>, sep: char)
    requires |parts| >= 1
    requires forall i | 0 <= i < |parts| :: sep !in parts[i]
    ensures Split(Join(parts, sep), sep) == parts
  {
    if |parts| > 1 {
      var tail := parts[1..];
      assert parts == [parts[0]] + tail;
      assert forall i | 0 <= i < |tail| :: sep !in tail[i] by {
        forall i | 0 <= i < |tail| ensures sep !in tail[i] {
          assert tail[i] == parts[i + 1];
        }
      }
      SplitJoin(tail, sep);
      var j := Join(tail, sep);
      assert Join(parts, sep) == parts[0] + [sep] + j;
      SplitCons(parts[0], sep, j);
    } else {
      assert sep !in parts[0];
    }
  }
}
