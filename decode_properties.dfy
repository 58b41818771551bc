/**
 * What Parse makes of whole inputs: how the header is read, which inputs
 * give which error, and that the first body line never counts.
 */
module DecodeProperties {
  import opened Wrappers
  import opened Strings
  import opened Strconv
  import opened Bufio
  import opened GitObject
  import opened CommitProperties

  /** The type word is the first whitespace-free run after any leading whitespace, and the cursor moves one byte past it. */
  lemma {:induction false} SkipSpaceTo(data: string, i: nat, j: nat)
    requires i <= j <= |data| && AllSpace(data[i..j])
    requires j < |data| ==> !IsSpace(data[j])
    ensures SkipSpace(data, i) == j
    decreases j - i
  {
    if i < j {
      assert data[i..j][0] == data[i];
      assert data[i + 1..j] == data[i..j][1..];
      SkipSpaceTo(data, i + 1, j);
    }
  }

  lemma {:induction false} FindSpaceTo(data: string, i: nat, j: nat)
    requires i <= j <= |data| && NoSpace(data[i..j])
    requires j < |data| ==> IsSpace(data[j])
    ensures FindSpace(data, i) == j
    decreases j - i
  {
    if i < j {
      assert data[i..j][0] == data[i];
      assert data[i + 1..j] == data[i..j][1..];
      FindSpaceTo(data, i + 1, j);
    }
  }

  /** The type word is the first whitespace-free run after the leading whitespace, and the cursor moves one byte past its end. */
  lemma ParseTypeOf(lead: string, word: string, ws: char, rest: string)
    requires AllSpace(lead) && word != [] && NoSpace(word) && IsSpace(ws)
    ensures ParseType(lead + word + [ws] + rest) == Scanned(|lead| + |word| + 1, word)
  {
    var data := lead + word + [ws] + rest;
    var e := |lead| + |word|;
    assert data[..|lead|] == lead;
    assert data[|lead|..e] == word;
    SkipSpaceTo(data, 0, |lead|);
    FindSpaceTo(data, |lead|, e);
  }

  /** Without a whitespace byte after the leading whitespace the type word is empty and only that whitespace is consumed. */
  lemma UnterminatedTypeWord(lead: string, rest: string)
    requires AllSpace(lead) && NoSpace(rest)
    ensures ParseType(lead + rest) == Scanned(|lead|, [])
  {
    var data := lead + rest;
    assert data[..|lead|] == lead;
    assert data[|lead|..] == rest;
    SkipSpaceTo(data, 0, |lead|);
    FindSpaceTo(data, |lead|, |data|);
  }

  /** Decode once the first NUL after the type word is located. */
  lemma DecodeSplit(input: string, sizeText: string, body: string)
    requires '\0' !in sizeText
    requires input[ParseType(input).advance..] == sizeText + "\0" + body
    ensures Decode(input) == DecodeSized(ParseType(input).token, sizeText, body)
  {
    CutAt(sizeText, '\0', body);
  }

  /** After a whitespace-terminated type word, the size text runs to the first NUL and the body is all that follows it. */
  lemma DecodeAfterWord(lead: string, word: string, ws: char, sizeText: string, body: string)
    requires AllSpace(lead) && word != [] && NoSpace(word) && IsSpace(ws)
    requires '\0' !in sizeText
    ensures Decode(lead + word + [ws] + sizeText + "\0" + body) == DecodeSized(word, sizeText, body)
  {
    var input := lead + word + [ws] + sizeText + "\0" + body;
    var rest := sizeText + "\0" + body;
    assert ParseType(input) == Scanned(|lead| + |word| + 1, word) && input[|lead| + |word| + 1..] == rest by {
      var header := lead + word + [ws];
      assert input == header + rest;
      assert input[|header|..] == rest;
      ParseTypeOf(lead, word, ws, rest);
    }
    DecodeSplit(input, sizeText, body);
  }

  /**
   * A well-formed header round-trips: for a type word, any whitespace byte
   * after it and the decimal text of any signed 64-bit size, Parse returns
   * that word and that size, and the commit read from the body lines after
   * the first, whatever the word is and whatever the body length.
   */
  lemma DecodeHeader(lead: string, word: string, ws: char, n: int, body: string)
    requires AllSpace(lead) && word != [] && NoSpace(word) && IsSpace(ws)
    requires MinInt64 <= n <= MaxInt64
    ensures Decode(lead + word + [ws] + Itoa(n) + "\0" + body) ==
            match ApplyLines(EmptyCommit, Tail(Lines(body)))
            case None => Err(IndexPanic)
            case Some(c) => Ok(Object(word, n, c))
  {
    assert '\0' !in Itoa(n) by { ItoaChars(n); }
    DecodeAfterWord(lead, word, ws, Itoa(n), body);
    AtoiItoa(n);
  }

  /**
   * The error cases. There is no NUL after the type word: EOF. The size text
   * before that NUL is not an Atoi integer: its NumError, and the value is
   * otherwise the one Atoi gives. A body line after the first panics: IndexPanic.
   */
  lemma DecodeErrors(input: string, sizeText: string, body: string)
    requires '\0' !in sizeText
    requires input[ParseType(input).advance..] == sizeText + "\0" + body
    ensures Decode(input) != Err(EOF)
    ensures Atoi(sizeText).Err? ==> Decode(input) == Err(NumError(Atoi(sizeText).error))
    ensures Atoi(sizeText).Ok? ==>
              (Decode(input) == Err(IndexPanic) <==>
               exists i | 0 <= i < |Tail(Lines(body))| :: Panics(Tail(Lines(body))[i]))
    ensures Decode(input).Ok? ==>
              && IsInteger(sizeText)
              && Decode(input).value.size == IntegerValue(sizeText)
              && Decode(input).value.objType == ParseType(input).token
  {
    DecodeSplit(input, sizeText, body);
    DecodeSizedCases(ParseType(input).token, sizeText, body);
  }

  lemma DecodeSizedCases(objType: string, sizeText: string, body: string)
    ensures DecodeSized(objType, sizeText, body) != Err(EOF)
    ensures Atoi(sizeText).Err? ==> DecodeSized(objType, sizeText, body) == Err(NumError(Atoi(sizeText).error))
    ensures Atoi(sizeText).Ok? ==>
              (DecodeSized(objType, sizeText, body) == Err(IndexPanic) <==>
               exists i | 0 <= i < |Tail(Lines(body))| :: Panics(Tail(Lines(body))[i]))
    ensures DecodeSized(objType, sizeText, body).Ok? ==>
              && IsInteger(sizeText)
              && DecodeSized(objType, sizeText, body).value.size == IntegerValue(sizeText)
              && DecodeSized(objType, sizeText, body).value.objType == objType
  {
    var ls := Tail(Lines(body));
    ApplyLinesSucceeds(EmptyCommit, ls);
    AtoiSpec(sizeText);
    if Atoi(sizeText).Ok? {
      assert DecodeSized(objType, sizeText, body) == Err(IndexPanic) <==> ApplyLines(EmptyCommit, ls).None?;
      assert ApplyLines(EmptyCommit, ls).None? <==> exists i | 0 <= i < |ls| :: Panics(ls[i]);
      assert ls == Tail(Lines(body));
    }
  }

  /** With no NUL byte after the type word Parse reports EOF, and only then. */
  lemma MissingNul(input: string)
    ensures Decode(input) == Err(EOF) <==> '\0' !in input[ParseType(input).advance..]
  {
  }

  /**
   * Once the type word is ended by a whitespace byte, the first line after
   * the NUL is skipped unread: replacing it never changes the result, whatever
   * the size text, whether that line ends in a newline or is the whole body.
   */
  lemma FirstBodyLineIgnored(lead: string, word: string, ws: char, sizeText: string, l1: string, l2: string, rest: string)
    requires AllSpace(lead) && word != [] && NoSpace(word) && IsSpace(ws)
    requires '\0' !in sizeText && '\n' !in l1 && '\n' !in l2
    ensures Decode(lead + word + [ws] + sizeText + "\0" + (l1 + "\n" + rest))
         == Decode(lead + word + [ws] + sizeText + "\0" + (l2 + "\n" + rest))
    ensures Decode(lead + word + [ws] + sizeText + "\0" + l1)
         == Decode(lead + word + [ws] + sizeText + "\0" + l2)
  {
    assert Decode(lead + word + [ws] + sizeText + "\0" + (l1 + "\n" + rest))
        == Decode(lead + word + [ws] + sizeText + "\0" + (l2 + "\n" + rest)) by {
      DecodeAfterWord(lead, word, ws, sizeText, l1 + "\n" + rest);
      DecodeAfterWord(lead, word, ws, sizeText, l2 + "\n" + rest);
      LinesCons(l1, rest);
      LinesCons(l2, rest);
    }
    DecodeOneLine(lead, word, ws, sizeText, l1);
    DecodeOneLine(lead, word, ws, sizeText, l2);
  }

  /** A body that is one line without a newline yields no lines after the skipped one. */
  lemma DecodeOneLine(lead: string, word: string, ws: char, sizeText: string, l: string)
    requires AllSpace(lead) && word != [] && NoSpace(word) && IsSpace(ws)
    requires '\0' !in sizeText && '\n' !in l
    ensures Decode(lead + word + [ws] + sizeText + "\0" + l) == DecodeSized(word, sizeText, [])
  {
    DecodeAfterWord(lead, word, ws, sizeText, l);
    assert Tail(Lines(l)) == [] by {
      if l != [] { LinesFinal(l); }
    }
    assert Tail(Lines([])) == [];
  }

  /**
   * A `tree` line that is the first body line is skipped: when no later line
   * is a `tree` line, a parsed object's tree is empty.
   */
  lemma TreeOnFirstLineNotRecorded(lead: string, word: string, ws: char, sizeText: string, h: string, rest: string)
    requires AllSpace(lead) && word != [] && NoSpace(word) && IsSpace(ws)
    requires '\0' !in sizeText && '\n' !in h
    requires forall i | 0 <= i < |Lines(rest)| :: Keyword(Lines(rest)[i]) != "tree"
    ensures var r := Decode(lead + word + [ws] + sizeText + "\0" + ("tree " + h + "\n" + rest));
            r.Ok? ==> r.value.body.tree == ""
  {
    DecodeAfterWord(lead, word, ws, sizeText, "tree " + h + "\n" + rest);
    FirstTreeLineSkipped(word, sizeText, h, rest);
  }

  /** The body half of TreeOnFirstLineNotRecorded, once the size text and the body are split. */
  lemma FirstTreeLineSkipped(word: string, sizeText: string, h: string, rest: string)
    requires '\n' !in h
    requires forall i | 0 <= i < |Lines(rest)| :: Keyword(Lines(rest)[i]) != "tree"
    ensures var r := DecodeSized(word, sizeText, "tree " + h + "\n" + rest);
            r.Ok? ==> r.value.body.tree == ""
  {
    var body := "tree " + h + "\n" + rest;
    var r := DecodeSized(word, sizeText, body);
    assert Tail(Lines(body)) == Lines(rest) by {
      LinesCons("tree " + h, rest);
    }
    if r.Ok? {
      assert ApplyLines(EmptyCommit, Lines(rest)) == Some(r.value.body);
      TreeUnchanged(EmptyCommit, Lines(rest));
    }
  }

  /** Every object Parse returns has a nil Author. */
  lemma DecodedAuthorIsNil(input: string)
    requires Decode(input).Ok?
    ensures Decode(input).value.body.author == None
  {
    var cut := Cut(input[ParseType(input).advance..], '\0').value;
    AuthorNeverSet(EmptyCommit, Tail(Lines(cut.1)));
  }

  /** Parents come out in the order of their `parent` lines, the first body line excluded. */
  lemma DecodedParents(input: string, sizeText: string, body: string)
    requires '\0' !in sizeText
    requires input[ParseType(input).advance..] == sizeText + "\0" + body
    requires Decode(input).Ok?
    ensures Decode(input).value.body.parents == ParentFields(Tail(Lines(body)))
  {
    DecodeSplit(input, sizeText, body);
    ParentsInOrder(EmptyCommit, Tail(Lines(body)));
  }

  /** A header with no whitespace byte at all still parses: the type is empty and the size is read from the start. */
  lemma UnterminatedTypeExample()
    ensures Decode("12\0") == Ok(Object("", 12, EmptyCommit))
  {
    var input := "12\0";
    assert ParseType(input) == Scanned(0, []) by {
      assert [] + input == input;
      UnterminatedTypeWord([], input);
    }
    assert input[0..] == "12" + "\0" + [];
    DecodeSplit(input, "12", []);
    AtoiTwelve();
    assert Tail(Lines([])) == [];
  }

  lemma AtoiTwelve()
    ensures Atoi("12") == Ok(12)
  {
    assert "12"[1..] == "2" && "2"[1..] == [];
    assert ScanDigits("2", 1) == Ok(12);
  }

  /** Text that stays one line: no newline, and no carriage return at its end for ScanLines to drop. */
  predicate PlainText(x: string) { '\n' !in x && !EndsWithCR(x) }

  lemma PlainAppend(a: string, b: string)
    requires '\n' !in a && !EndsWithCR(a) && PlainText(b)
    ensures PlainText(a + b)
  {
    if b != [] {
      assert (a + b)[|a + b| - 1] == b[|b| - 1];
    } else {
      assert a + b == a;
    }
  }

  /** The lines of a typical commit body, in the order a commit writer emits them. */
  function TypicalLines(tree: string, p1: string, p2: string, author: string, u: string, e: string, ts: string, msg: string): seq<string>
  {
    ["tree " + tree, "parent " + p1, "parent " + p2, "author " + author, "committer " + u + " " + e + " " + ts, "", msg]
  }

  lemma TypicalLinesScan(tree: string, p1: string, p2: string, author: string, u: string, e: string, ts: string, msg: string)
    requires PlainText(tree) && PlainText(p1) && PlainText(p2) && PlainText(author)
    requires PlainText(u) && PlainText(e) && PlainText(ts) && PlainText(msg)
    ensures var ls := TypicalLines(tree, p1, p2, author, u, e, ts, msg);
            Lines(Unlines(ls)) == ls
  {
    var ls := TypicalLines(tree, p1, p2, author, u, e, ts, msg);
    PlainAppend("tree ", tree);
    PlainAppend("parent ", p1);
    PlainAppend("parent ", p2);
    PlainAppend("author ", author);
    PlainAppend(" ", ts);
    PlainAppend(e, " " + ts);
    PlainAppend(" ", e + " " + ts);
    PlainAppend(u, " " + e + " " + ts);
    PlainAppend("committer ", u + " " + e + " " + ts);
    assert "committer " + u + " " + e + " " + ts == "committer " + (u + (" " + (e + (" " + ts))));
    LinesUnlines(ls);
  }

  lemma ApplyFourThenIgnored(c0: Commit, l1: string, l2: string, l3: string, l4: string, rest: seq<string>, c1: Commit, c2: Commit, c3: Commit, c4: Commit)
    requires ApplyLine(c0, l1) == Some(c1) && ApplyLine(c1, l2) == Some(c2)
    requires ApplyLine(c2, l3) == Some(c3) && ApplyLine(c3, l4) == Some(c4)
    requires ApplyLines(c4, rest) == Some(c4)
    ensures ApplyLines(c0, [l1, l2, l3, l4] + rest) == Some(c4)
  {
    ApplyLinesSnoc(c0, [], l1, c0);
    assert [] + [l1] == [l1];
    ApplyLinesSnoc(c0, [l1], l2, c1);
    assert [l1] + [l2] == [l1, l2];
    ApplyLinesSnoc(c0, [l1, l2], l3, c2);
    assert [l1, l2] + [l3] == [l1, l2, l3];
    ApplyLinesSnoc(c0, [l1, l2, l3], l4, c3);
    assert [l1, l2, l3] + [l4] == [l1, l2, l3, l4];
    ApplyLinesAppend(c0, [l1, l2, l3, l4], rest);
  }

  lemma TypicalLinesApply(tree: string, p1: string, p2: string, author: string, u: string, e: string, ts: string, msg: string)
    requires ' ' !in p1 && ' ' !in p2 && ' ' !in u && ' ' !in e
    requires Keyword(msg) !in {"tree", "parent", "committer"}
    ensures ApplyLines(EmptyCommit, TypicalLines(tree, p1, p2, author, u, e, ts, msg)[1..])
         == Some(Commit("", [p1, p2], None, Some(Person(u, e, ts))))
  {
    var l1, l2, l3 := "parent " + p1, "parent " + p2, "author " + author;
    var l4 := "committer " + u + " " + e + " " + ts;
    var c0 := EmptyCommit;
    var c1 := c0.(parents := c0.parents + [p1]);
    var c2 := c1.(parents := c1.parents + [p2]);
    var c3 := c2.(committer := Some(Person(u, e, ts)));
    assert TypicalLines(tree, p1, p2, author, u, e, ts, msg)[1..] == [l1, l2, l3, l4] + ["", msg];
    assert c3 == Commit("", [p1, p2], None, Some(Person(u, e, ts)));
    assert ApplyLine(c0, l1) == Some(c1) by { ParentLine(c0, p1); }
    assert ApplyLine(c1, l2) == Some(c2) by { ParentLine(c1, p2); }
    assert ApplyLine(c2, l3) == Some(c2) by { AuthorLine(c2, author); }
    assert ApplyLine(c2, l4) == Some(c3) by { CommitterLine(c2, u, e, ts); }
    assert ApplyLines(c3, ["", msg]) == Some(c3) by {
      assert ApplyLine(c3, "") == Some(c3) by {
        assert Split("", ' ') == [""];
        SwitchCases(c3, [""]);
      }
      assert ApplyLine(c3, msg) == Some(c3) by {
        SwitchCases(c3, Split(msg, ' '));
      }
      ApplyLinesCons(c3, msg, []);
      assert [msg] + [] == [msg];
      ApplyLinesCons(c3, "", [msg]);
      assert [""] + [msg] == ["", msg];
    }
    ApplyFourThenIgnored(c0, l1, l2, l3, l4, ["", msg], c1, c2, c2, c3);
  }

  /**
   * A typical commit object: the tree line is the skipped first line, so the
   * tree stays empty; parents keep their order; the author line is ignored;
   * the committer is split positionally (the email keeps its angle brackets
   * and the timestamp keeps everything after it); the blank line and the
   * message line change nothing.
   */
  lemma TypicalCommit(lead: string, word: string, ws: char, n: int, tree: string, p1: string, p2: string, author: string, u: string, e: string, ts: string, msg: string)
    requires AllSpace(lead) && word != [] && NoSpace(word) && IsSpace(ws)
    requires MinInt64 <= n <= MaxInt64
    requires PlainText(tree) && PlainText(p1) && PlainText(p2) && PlainText(author)
    requires PlainText(u) && PlainText(e) && PlainText(ts) && PlainText(msg)
    requires ' ' !in p1 && ' ' !in p2 && ' ' !in u && ' ' !in e
    requires Keyword(msg) !in {"tree", "parent", "committer"}
    ensures Decode(lead + word + [ws] + Itoa(n) + "\0" + Unlines(TypicalLines(tree, p1, p2, author, u, e, ts, msg)))
         == Ok(Object(word, n, Commit("", [p1, p2], None, Some(Person(u, e, ts)))))
  {
    var ls := TypicalLines(tree, p1, p2, author, u, e, ts, msg);
    var body := Unlines(ls);
    assert Tail(Lines(body)) == ls[1..] by { TypicalLinesScan(tree, p1, p2, author, u, e, ts, msg); }
    TypicalLinesApply(tree, p1, p2, author, u, e, ts, msg);
    DecodeHeader(lead, word, ws, n, body);
  }
}
