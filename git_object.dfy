/**
 * The loose-object parser of main.go. A decompressed object is
 * `<type> <size>\0<body>`; Parse reads the type word and the size text
 * from a byte buffer, then scans the body line by line as a commit,
 * whatever the type word says.
 */
module GitObject {
  import opened Wrappers
  import opened Strings
  import opened Strconv
  import opened Bytes
  import opened Bufio

  /** The `person` record behind the `Author` and `Committer` types. */
  datatype Person = Person(username: string, email: string, timestamp: string)

  /** A `Commit`: `author` and `committer` are the nil-able pointers. */
  datatype Commit = Commit(tree: string, parents: seq<string>, author: Option<Person>, committer: Option<Person>)

  /** The zero `Commit` that parsing starts from. */
  const EmptyCommit := Commit("", [], None, None)

  /** An `Object`: the type word, the declared size and the commit read from the body. */
  datatype Object = Object(objType: string, size: int, body: Commit)

  /** Why a parse gives no object. */
  datatype Error =
    | EOF                   // `io.EOF` from ReadBytes: no NUL byte after the type word
    | NumError(err: NumErr) // `strconv.Atoi` rejected the size text
    | IndexPanic            // the index-out-of-range panic of a `tree`, `parent` or `committer` line with too few fields

  /** What one `bufio.ScanWords` call reports: how far to advance, and the word. */
  datatype Scanned = Scanned(advance: nat, token: string)

  function SkipSpace(data: string, i: nat): (j: nat)
    requires i <= |data|
    ensures i <= j <= |data| && AllSpace(data[i..j])
    ensures j < |data| ==> !IsSpace(data[j])
    decreases |data| - i
  {
    if i < |data| && IsSpace(data[i]) then
      var j := SkipSpace(data, i + 1);
      assert data[i..j] == [data[i]] + data[i + 1..j];
      j
    else i
  }

  function FindSpace(data: string, i: nat): (j: nat)
    requires i <= |data|
    ensures i <= j <= |data| && NoSpace(data[i..j])
    ensures j < |data| ==> IsSpace(data[j])
    decreases |data| - i
  {
    if i < |data| && !IsSpace(data[i]) then
      var j := FindSpace(data, i + 1);
      assert data[i..j] == [data[i]] + data[i + 1..j];
      j
    else i
  }

  /**
   * parseType: `bufio.ScanWords(buf.Bytes(), false)` on the unread bytes `data`.
   * Leading whitespace is skipped; a word ended by a whitespace byte is
   * returned with an advance just past that byte. Without a terminating
   * whitespace byte the word is empty and only the leading whitespace is
   * consumed (ScanWords asks for more data; it never reports an error).
   */
  function ParseType(data: string): (r: Scanned)
    ensures r.advance <= |data| && NoSpace(r.token)
    ensures r.token != [] ==>
              && |r.token| < r.advance
              && AllSpace(data[..r.advance - |r.token| - 1])
              && data[r.advance - |r.token| - 1..r.advance - 1] == r.token
              && IsSpace(data[r.advance - 1])
    ensures r.token == [] ==> AllSpace(data[..r.advance]) && NoSpace(data[r.advance..])
  {
    var start := SkipSpace(data, 0);
    var end := FindSpace(data, start);
    assert data[..start] == data[0..start];
    if end < |data| then
      assert end != start;
      Scanned(end + 1, data[start..end])
    else
      assert data[start..] == data[start..end];
      Scanned(start, [])
  }

  /**
   * parseSize: the bytes before the first NUL, with the buffer moved past
   * that NUL; `EOF` and an emptied buffer when there is no NUL.
   */
  method ParseSize(buf: Buffer) returns (r: Result<string, Error>)
    requires buf.Valid()
    modifies buf
    ensures buf.Valid() && buf.buf == old(buf.buf)
    ensures r.Err? <==> '\0' !in old(buf.Bytes())
    ensures r.Err? ==> r.error == EOF && buf.Bytes() == []
    ensures r.Ok? ==> '\0' !in r.value && old(buf.Bytes()) == r.value + "\0" + buf.Bytes()
  {
    var b, eof := buf.ReadBytes('\0');
    if eof {
      return Err(EOF);
    }
    assert b == b[..|b| - 1] + "\0";
    r := Ok(b[..|b| - 1]);
  }

  /** The first space-separated field of a line. */
  function Keyword(line: string): string
  {
    Split(line, ' ')[0]
  }

  /** A line on which parseCommit indexes past the end of its fields. */
  predicate Panics(line: string)
  {
    || (Keyword(line) in {"tree", "parent"} && Count(line, ' ') < 1)
    || (Keyword(line) == "committer" && Count(line, ' ') < 2)
  }

  /**
   * parseCommit's switch on the space-separated fields of one line: `tree`
   * sets the tree, `parent` appends a parent, `committer` sets the committer
   * from fields 2 and 3 and the rest re-joined with spaces, and every other
   * keyword, `author` included, leaves the commit as it is. `None` is the
   * index-out-of-range panic on a line with too few fields.
   */
  function ApplyFields(c: Commit, sp: seq<string>): (r: Option<Commit>)
    requires |sp| >= 1
    ensures r.Some? ==> r.value.author == c.author
    ensures r.Some? ==> c.parents <= r.value.parents && |r.value.parents| <= |c.parents| + 1
  {
    if sp[0] == "tree" then
      if |sp| < 2 then None else Some(c.(tree := sp[1]))
    else if sp[0] == "parent" then
      if |sp| < 2 then None else Some(c.(parents := c.parents + [sp[1]]))
    else if sp[0] == "author" then
      Some(c)
    else if sp[0] == "committer" then
      if |sp| < 3 then None
      else Some(c.(committer := Some(Person(sp[1], sp[2], Join(sp[3..], ' ')))))
    else
      Some(c)
  }

  /** The switch, case by case. */
  lemma SwitchCases(c: Commit, sp: seq<string>)
    requires |sp| >= 1
    ensures ApplyFields(c, sp).None? <==> (sp[0] in {"tree", "parent"} && |sp| < 2) || (sp[0] == "committer" && |sp| < 3)
    ensures sp[0] == "tree" && |sp| >= 2 ==> ApplyFields(c, sp) == Some(c.(tree := sp[1]))
    ensures sp[0] == "parent" && |sp| >= 2 ==> ApplyFields(c, sp) == Some(c.(parents := c.parents + [sp[1]]))
    ensures sp[0] == "committer" && |sp| >= 3 ==>
              ApplyFields(c, sp) == Some(c.(committer := Some(Person(sp[1], sp[2], Join(sp[3..], ' ')))))
    ensures sp[0] !in {"tree", "parent", "committer"} ==> ApplyFields(c, sp) == Some(c)
  {
  }

  /** The effect of one line on the commit built so far; it fails exactly on a line that panics. */
  function ApplyLine(c: Commit, line: string): (r: Option<Commit>)
    ensures r.None? <==> Panics(line)
  {
    SwitchCases(c, Split(line, ' '));
    ApplyFields(c, Split(line, ' '))
  }

  /**
   * A line panics exactly when it is a `tree` or `parent` line without a
   * second field or a `committer` line without a third; no line sets the
   * author; and a line with any other keyword leaves the commit unchanged.
   */
  lemma ApplyLineEffect(c: Commit, line: string)
    ensures ApplyLine(c, line).None? <==> Panics(line)
    ensures ApplyLine(c, line).Some? ==> ApplyLine(c, line).value.author == c.author
    ensures ApplyLine(c, line).Some? && Keyword(line) !in {"tree", "parent", "committer"} ==> ApplyLine(c, line).value == c
  {
    SwitchCases(c, Split(line, ' '));
  }

  /** `step` applied to each line in order, stopping at the first that fails. */
  function Steps(step: (Commit, string) -> Option<Commit>, c: Commit, lines: seq<string>): Option<Commit>
    decreases |lines|
  {
    if lines == [] then Some(c)
    else match Steps(step, c, lines[..|lines| - 1])
      case None => None
      case Some(c') => step(c', lines[|lines| - 1])
  }

  lemma {:induction false} StepsAppend(step: (Commit, string) -> Option<Commit>, c: Commit, xs: seq<string>, ys: seq<string>)
    ensures Steps(step, c, xs).None? ==> Steps(step, c, xs + ys).None?
    ensures Steps(step, c, xs).Some? ==> Steps(step, c, xs + ys) == Steps(step, Steps(step, c, xs).value, ys)
    decreases |ys|
  {
    if ys == [] {
      assert xs + ys == xs;
    } else {
      var zs := xs + ys;
      assert zs[..|zs| - 1] == xs + ys[..|ys| - 1];
      StepsAppend(step, c, xs, ys[..|ys| - 1]);
    }
  }

  /** The lines applied in order, stopping at the first that panics. */
  function ApplyLines(c: Commit, lines: seq<string>): Option<Commit>
  {
    Steps(ApplyLine, c, lines)
  }

  /** Applying two runs of lines is applying the second to the outcome of the first. */
  lemma ApplyLinesAppend(c: Commit, xs: seq<string>, ys: seq<string>)
    ensures ApplyLines(c, xs).None? ==> ApplyLines(c, xs + ys).None?
    ensures ApplyLines(c, xs).Some? ==> ApplyLines(c, xs + ys) == ApplyLines(ApplyLines(c, xs).value, ys)
  {
    StepsAppend(ApplyLine, c, xs, ys);
  }

  /** One more line is applied to the outcome of the lines before it. */
  lemma ApplyLinesSnoc(c: Commit, xs: seq<string>, l: string, c1: Commit)
    requires ApplyLines(c, xs) == Some(c1)
    ensures ApplyLines(c, xs + [l]) == ApplyLine(c1, l)
  {
    assert (xs + [l])[..|xs|] == xs;
  }

  /** The first line is applied first, and the rest to its outcome. */
  lemma ApplyLinesCons(c: Commit, l: string, rest: seq<string>)
    ensures ApplyLine(c, l).None? ==> ApplyLines(c, [l] + rest).None?
    ensures ApplyLine(c, l).Some? ==> ApplyLines(c, [l] + rest) == ApplyLines(ApplyLine(c, l).value, rest)
  {
    assert ApplyLines(c, [l]) == ApplyLine(c, l) by {
      ApplyLinesSnoc(c, [], l, c);
      assert [] + [l] == [l];
    }
    ApplyLinesAppend(c, [l], rest);
  }

  /**
   * parseCommit: scans every remaining line, applying each in turn to a zero
   * Commit. Its error result is always nil, so it is not modelled; `None`
   * is the runtime panic on a line with too few fields.
   */
  method ParseCommit(s: Scanner) returns (r: Option<Commit>)
    requires s.Valid()
    modifies s
    ensures s.Valid()
    ensures r == ApplyLines(EmptyCommit, old(s.Remaining()))
    ensures r.Some? ==> s.Remaining() == []
  {
    var commit := EmptyCommit;
    ghost var all := s.Remaining();
    var more := s.Scan();
    while more
      invariant s.Valid()
      invariant more ==> ApplyLines(EmptyCommit, all) == ApplyLines(commit, [s.token] + s.Remaining())
      invariant !more ==> ApplyLines(EmptyCommit, all) == Some(commit) && s.Remaining() == []
      decreases if more then |s.Remaining()| + 1 else 0
    {
      var line := s.Text();
      ghost var rest := s.Remaining();
      ghost var prev := commit;
      ApplyLinesCons(prev, line, rest);
      var sp := Split(line, ' ');
      assert ApplyLine(prev, line) == ApplyFields(prev, sp);
      if sp[0] == "tree" {
        if |sp| < 2 {
          return None;
        }
        commit := commit.(tree := sp[1]);
      } else if sp[0] == "parent" {
        if |sp| < 2 {
          return None;
        }
        commit := commit.(parents := commit.parents + [sp[1]]);
      } else if sp[0] == "author" {
        // The case is empty: Go does not fall through, so an author line changes nothing.
      } else if sp[0] == "committer" {
        if |sp| < 3 {
          return None;
        }
        var username, email, timestamp := sp[1], sp[2], Join(sp[3..], ' ');
        // Only "committer" reaches here, so the source's `sp[0] == "author"` test is always false.
        commit := commit.(committer := Some(Person(username, email, timestamp)));
      }
      assert ApplyLine(prev, line) == Some(commit);
      more := s.Scan();
    }
    r := Some(commit);
  }

  function Tail(lines: seq<string>): seq<string>
  {
    if lines == [] then [] else lines[1..]
  }

  /**
   * What Parse yields once the size text and the body after its NUL are
   * known: the Atoi error, or the panic of a body line after the first (the
   * first is skipped unread), or the object.
   */
  function DecodeSized(objType: string, sizeText: string, body: string): Result<Object, Error>
  {
    match Atoi(sizeText)
    case Err(e) => Err(NumError(e))
    case Ok(size) =>
      match ApplyLines(EmptyCommit, Tail(Lines(body)))
      case None => Err(IndexPanic)
      case Some(c) => Ok(Object(objType, size, c))
  }

  /**
   * What Parse yields for the decompressed bytes `input`: the type word, then
   * EOF when no NUL follows it, or else the outcome for the text before the
   * first NUL as the size and everything after it as the body.
   */
  function Decode(input: string): Result<Object, Error>
  {
    var t := ParseType(input);
    match Cut(input[t.advance..], '\0')
    case None => Err(EOF)
    case Some((sizeText, body)) => DecodeSized(t.token, sizeText, body)
  }

  /**
   * What Parse leaves unread in its buffer: the body after the NUL when Atoi
   * rejects the size text, and nothing otherwise (ReadBytes empties the
   * buffer when there is no NUL, and the scanner reads it to its end).
   */
  function Unread(input: string): string
  {
    var t := ParseType(input);
    match Cut(input[t.advance..], '\0')
    case None => []
    case Some((sizeText, body)) => if Atoi(sizeText).Err? then body else []
  }

  /**
   * The body part of Parse: a line scanner over the rest of the buffer, one
   * line skipped, and parseCommit over the lines after it. The scanner reads
   * the buffer to its end and so resets it.
   */
  method ScanBody(buf: Buffer) returns (commit: Option<Commit>)
    requires buf.Valid()
    modifies buf
    ensures commit == ApplyLines(EmptyCommit, Tail(Lines(old(buf.Bytes()))))
    ensures buf.Valid() && buf.buf == [] && buf.off == 0
  {
    var s := new Scanner(buf);
    var _ := s.Scan(); // skip header
    commit := ParseCommit(s);
  }

  /**
   * Parse: consumes the header from `buf`, skips one line, and parses the
   * remaining lines as a commit. A size text Atoi rejects leaves the bytes
   * after the NUL unread; every other outcome has read the buffer to its end,
   * and a parsed object's scanner has also reset it.
   */
  method Parse(buf: Buffer) returns (r: Result<Object, Error>)
    requires buf.Valid()
    modifies buf
    ensures r == Decode(old(buf.Bytes()))
    ensures buf.Valid() && buf.Bytes() == Unread(old(buf.Bytes()))
    ensures r.Ok? ==> buf.buf == []
    ensures r.Err? && r.error != IndexPanic ==> buf.buf == old(buf.buf)
  {
    ghost var input := buf.Bytes();
    var scanned := ParseType(buf.Bytes());
    var _ := buf.Next(scanned.advance);
    // The error of parseType is always nil, so the check after it never fires.
    var objType := scanned.token;

    var sizeText := ParseSize(buf);
    if sizeText.Err? {
      assert Cut(input[scanned.advance..], '\0').None?;
      return Err(sizeText.error);
    }
    ghost var body := buf.Bytes();
    assert Cut(input[scanned.advance..], '\0') == Some((sizeText.value, body)) by {
      assert input[scanned.advance..] == sizeText.value + "\0" + body;
      CutAt(sizeText.value, '\0', body);
    }
    assert Decode(input) == DecodeSized(objType, sizeText.value, body);
    assert Unread(input) == if Atoi(sizeText.value).Err? then body else [];
    var size := Atoi(sizeText.value);
    if size.Err? {
      return Err(NumError(size.error));
    }

    var commit := ScanBody(buf);
    if commit.None? {
      return Err(IndexPanic);
    }
    r := Ok(Object(objType, size.value, commit.value));
  }
}
