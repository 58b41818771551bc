/**
 * The parts of `bufio` the parser uses, on bytes: the whitespace set of
 * `ScanWords` (here the ASCII whitespace bytes; the word scan itself is
 * `GitObject.ParseType`), the `ScanLines` split function (lines end at
 * `\n`, one trailing `\r` is dropped, and text after the last `\n` is a
 * final line only when it is not empty), and a `Scanner` that hands out
 * the lines one `Scan` at a time.
 */
module Bufio {
  import opened Strings
  import opened Bytes

  /** Tab, newline, vertical tab, form feed, carriage return and space. */
  predicate IsSpace(c: char)
  {
    c == ' ' || '\t' <= c <= '\r'
  }

  predicate AllSpace(s: string) { forall i | 0 <= i < |s| :: IsSpace(s[i]) }

  predicate NoSpace(s: string) { forall i | 0 <= i < |s| :: !IsSpace(s[i]) }

  function DropCR(s: string): string
  {
    if |s| > 0 && s[|s| - 1] == '\r' then s[..|s| - 1] else s
  }

  predicate EndsWithCR(s: string) { |s| > 0 && s[|s| - 1] == '\r' }

  /** The tokens `ScanLines` produces from `s`, in order. */
  function Lines(s: string): (ls: seq<string>)
    ensures ls == [] <==> s == []
    ensures forall i | 0 <= i < |ls| :: '\n' !in ls[i]
    decreases |s|
  {
    if s == [] then []
    else match IndexOf(s, '\n')
      case None => [DropCR(s)]
      case Some(i) => [DropCR(s[..i])] + Lines(s[i + 1..])
  }

  /** The first line of a text is everything before its first newline. */
  lemma LinesCons(l: string, rest: string)
    requires '\n' !in l
    ensures Lines(l + "\n" + rest) == [DropCR(l)] + Lines(rest)
  {
    var s := l + "\n" + rest;
    assert s[..|l|] == l;
    IndexOfAt(s, '\n', |l|);
    assert s[|l| + 1..] == rest;
  }

  /** A carriage return just before the newline is dropped with it. */
  lemma LinesCRLF(l: string, rest: string)
    requires '\n' !in l
    ensures Lines(l + "\r\n" + rest) == [l] + Lines(rest)
  {
    assert l + "\r\n" + rest == (l + "\r") + "\n" + rest;
    assert '\n' !in l + "\r";
    LinesCons(l + "\r", rest);
    assert (l + "\r")[..|l|] == l;
  }

  /** Text after the last newline is a final line of its own, less one trailing carriage return. */
  lemma LinesFinal(l: string)
    requires l != [] && '\n' !in l
    ensures Lines(l) == [DropCR(l)]
  {
    assert IndexOf(l, '\n').None?;
  }

  /**
   * One `ScanLines` call at the end of the input: how far to advance and the
   * line, which runs to the first newline (dropped, with a `\r` before it) or
   * to the end of `data` when there is none.
   */
  function ScanLine(data: string): (r: (nat, string))
    requires data != []
    ensures 0 < r.0 <= |data|
    ensures Lines(data) != [] && Lines(data)[0] == r.1 && Lines(data)[1..] == Lines(data[r.0..])
  {
    match IndexOf(data, '\n')
    case Some(j) =>
      var line, rest := DropCR(data[..j]), Lines(data[j + 1..]);
      assert Lines(data) == [line] + rest;
      assert ([line] + rest)[1..] == rest;
      (j + 1, line)
    case None =>
      assert Lines(data) == [DropCR(data)];
      assert data[|data|..] == [];
      (|data|, DropCR(data))
  }

  /** Lines written one after another, each ended by a newline. */
  function Unlines(ls: seq<string>): string
  {
    if ls == [] then [] else ls[0] + "\n" + Unlines(ls[1..])
  }

  /** ScanLines gives back the lines that were written, when none holds a newline or ends in a carriage return. */
  lemma {:induction false} LinesUnlines(ls: seq<string>)
    requires forall i | 0 <= i < |ls| :: '\n' !in ls[i] && !EndsWithCR(ls[i])
    ensures Lines(Unlines(ls)) == ls
  {
    if ls != [] {
      LinesUnlines(ls[1..]);
      LinesCons(ls[0], Unlines(ls[1..]));
      assert !EndsWithCR(ls[0]);
    }
  }

  /**
   * A `bufio.Scanner` with the `ScanLines` split function. It holds the bytes
   * it has read from its reader and the position of the next unread byte;
   * `Remaining()` is the list of lines still to come.
   */
  class Scanner {
    var src: string
    var pos: nat
    var token: string

    ghost predicate Valid()
      reads this
    {
      pos <= |src| && '\n' !in token
    }

    ghost function Remaining(): seq<string>
      reads this
      requires Valid()
    {
      Lines(src[pos..])
    }

    /** `bufio.NewScanner(r)`; the bytes are read from `r` up front rather than in chunks. */
    constructor (r: Buffer)
      requires r.Valid()
      modifies r
      ensures Valid() && Remaining() == Lines(old(r.Bytes()))
      ensures r.Valid() && r.buf == [] && r.off == 0
    {
      var b := r.ReadAll();
      src, pos, token := b, 0, [];
    }

    /** The most recent line `Scan` produced; a line never holds its newline. */
    function Text(): (t: string)
      reads this
      requires Valid()
      ensures '\n' !in t
    {
      token
    }

    /** `Scan()`: moves to the next line; false once no line is left. */
    method Scan() returns (more: bool)
      requires Valid()
      modifies this
      ensures Valid() && src == old(src)
      ensures more <==> old(Remaining()) != []
      ensures more ==> token == old(Remaining())[0] && Remaining() == old(Remaining())[1..]
      ensures more ==> old(Remaining()) == [token] + Remaining()
      ensures !more ==> Remaining() == []
    {
      if pos == |src| {
        token := [];
        return false;
      }
      ghost var rest := src[pos..];
      var (advance, line) := ScanLine(src[pos..]);
      token, pos := line, pos + advance;
      assert src[pos..] == rest[advance..];
      more := true;
    }
  }
}
