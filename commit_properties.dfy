/**
 * What parseCommit's loop does to a commit, line by line and over a whole
 * run of lines: which lines panic, the order of parents, which `tree` and
 * `committer` line wins, and that `author` lines and unknown lines change
 * nothing.
 */
module CommitProperties {
  import opened Wrappers
  import opened Strings
  import opened GitObject

  /** A run of lines succeeds exactly when none of its lines panics. */
  lemma {:induction false} ApplyLinesSucceeds(c: Commit, ls: seq<string>)
    ensures ApplyLines(c, ls).Some? <==> forall i | 0 <= i < |ls| :: !Panics(ls[i])
    decreases |ls|
  {
    if ls != [] {
      var init, last := ls[..|ls| - 1], ls[|ls| - 1];
      ApplyLinesSucceeds(c, init);
      assert forall i | 0 <= i < |init| :: init[i] == ls[i];
      assert (forall i | 0 <= i < |ls| :: !Panics(ls[i])) <==>
             (forall i | 0 <= i < |init| :: !Panics(init[i])) && !Panics(last);
      match ApplyLines(c, init)
      case None =>
      case Some(c1) =>
        ApplyLineEffect(c1, last);
        assert ApplyLines(c, ls) == ApplyLine(c1, last);
    }
  }

  /** The second fields of the `parent` lines, in the order they appear. */
  function ParentFields(ls: seq<string>): seq<string>
  {
    if ls == [] then []
    else
      var last := ls[|ls| - 1];
      var sp := Split(last, ' ');
      ParentFields(ls[..|ls| - 1]) + (if sp[0] == "parent" && |sp| >= 2 then [sp[1]] else [])
  }

  /** Parents are appended in encounter order, and only `parent` lines add one. */
  lemma {:induction false} ParentsInOrder(c: Commit, ls: seq<string>)
    requires ApplyLines(c, ls).Some?
    ensures ApplyLines(c, ls).value.parents == c.parents + ParentFields(ls)
    decreases |ls|
  {
    if ls != [] {
      ParentsInOrder(c, ls[..|ls| - 1]);
      SwitchCases(ApplyLines(c, ls[..|ls| - 1]).value, Split(ls[|ls| - 1], ' '));
    }
  }

  /** Neither `author` lines nor any other line set the author. */
  lemma {:induction false} AuthorNeverSet(c: Commit, ls: seq<string>)
    requires ApplyLines(c, ls).Some?
    ensures ApplyLines(c, ls).value.author == c.author
    decreases |ls|
  {
    if ls != [] {
      AuthorNeverSet(c, ls[..|ls| - 1]);
      ApplyLineEffect(ApplyLines(c, ls[..|ls| - 1]).value, ls[|ls| - 1]);
    }
  }

  /** Lines whose first field is not `tree`, `parent` or `committer` (blank lines, message lines, `author` lines) change nothing. */
  lemma {:induction false} IgnoredLinesChangeNothing(c: Commit, ls: seq<string>)
    requires forall i | 0 <= i < |ls| :: Keyword(ls[i]) !in {"tree", "parent", "committer"}
    ensures ApplyLines(c, ls) == Some(c)
    decreases |ls|
  {
    if ls != [] {
      IgnoredLinesChangeNothing(c, ls[..|ls| - 1]);
      ApplyLineEffect(c, ls[|ls| - 1]);
      assert Keyword(ls[|ls| - 1]) !in {"tree", "parent", "committer"};
    }
  }

  lemma {:induction false} TreeUnchanged(c: Commit, ls: seq<string>)
    requires forall i | 0 <= i < |ls| :: Keyword(ls[i]) != "tree"
    requires ApplyLines(c, ls).Some?
    ensures ApplyLines(c, ls).value.tree == c.tree
    decreases |ls|
  {
    if ls != [] {
      TreeUnchanged(c, ls[..|ls| - 1]);
      SwitchCases(ApplyLines(c, ls[..|ls| - 1]).value, Split(ls[|ls| - 1], ' '));
    }
  }

  /** The last `tree` line decides the tree; with no `tree` line it stays as it was. */
  lemma LastTreeLineWins(c: Commit, ls: seq<string>, j: nat)
    requires j < |ls| && Keyword(ls[j]) == "tree"
    requires forall k | j < k < |ls| :: Keyword(ls[k]) != "tree"
    requires ApplyLines(c, ls).Some?
    ensures |Split(ls[j], ' ')| >= 2 && ApplyLines(c, ls).value.tree == Split(ls[j], ' ')[1]
  {
    var xs, ys := ls[..j + 1], ls[j + 1..];
    assert ls == xs + ys;
    ApplyLinesAppend(c, xs, ys);
    var c1 := ApplyLines(c, xs).value;
    assert xs[..j] == ls[..j];
    SwitchCases(ApplyLines(c, ls[..j]).value, Split(ls[j], ' '));
    TreeUnchanged(c1, ys);
  }

  lemma {:induction false} CommitterUnchanged(c: Commit, ls: seq<string>)
    requires forall i | 0 <= i < |ls| :: Keyword(ls[i]) != "committer"
    requires ApplyLines(c, ls).Some?
    ensures ApplyLines(c, ls).value.committer == c.committer
    decreases |ls|
  {
    if ls != [] {
      CommitterUnchanged(c, ls[..|ls| - 1]);
      SwitchCases(ApplyLines(c, ls[..|ls| - 1]).value, Split(ls[|ls| - 1], ' '));
    }
  }

  /**
   * The last `committer` line decides the committer: field 2 is the username,
   * field 3 the email, and the fields after them re-joined with single spaces
   * the timestamp. With no `committer` line it stays as it was.
   */
  lemma LastCommitterLineWins(c: Commit, ls: seq<string>, j: nat)
    requires j < |ls| && Keyword(ls[j]) == "committer"
    requires forall k | j < k < |ls| :: Keyword(ls[k]) != "committer"
    requires ApplyLines(c, ls).Some?
    ensures var sp := Split(ls[j], ' ');
            |sp| >= 3 && ApplyLines(c, ls).value.committer == Some(Person(sp[1], sp[2], Join(sp[3..], ' ')))
  {
    var xs, ys := ls[..j + 1], ls[j + 1..];
    assert ls == xs + ys;
    ApplyLinesAppend(c, xs, ys);
    var c1 := ApplyLines(c, xs).value;
    assert xs[..j] == ls[..j];
    SwitchCases(ApplyLines(c, ls[..j]).value, Split(ls[j], ' '));
    CommitterUnchanged(c1, ys);
  }

  /** A `tree` line with one value sets the tree to it. */
  lemma TreeLine(c: Commit, h: string)
    requires ' ' !in h
    ensures ApplyLine(c, "tree " + h) == Some(c.(tree := h))
  {
    SplitCons("tree", ' ', h);
    assert "tree" + [' '] + h == "tree " + h;
  }

  /** A `parent` line with one value appends it to the parents. */
  lemma ParentLine(c: Commit, p: string)
    requires ' ' !in p
    ensures ApplyLine(c, "parent " + p) == Some(c.(parents := c.parents + [p]))
  {
    SplitCons("parent", ' ', p);
    assert "parent" + [' '] + p == "parent " + p;
  }

  /** An `author` line, whatever follows the keyword, leaves the commit unchanged. */
  lemma AuthorLine(c: Commit, rest: string)
    ensures ApplyLine(c, "author " + rest) == Some(c)
  {
    SplitCons("author", ' ', rest);
    assert "author" + [' '] + rest == "author " + rest;
  }

  lemma SplitThree(k: string, u: string, e: string, ts: string)
    requires ' ' !in k && ' ' !in u && ' ' !in e
    ensures Split(k + [' '] + (u + [' '] + (e + [' '] + ts)), ' ') == [k] + ([u] + ([e] + Split(ts, ' ')))
  {
    SplitCons(e, ' ', ts);
    SplitCons(u, ' ', e + [' '] + ts);
    SplitCons(k, ' ', u + [' '] + (e + [' '] + ts));
  }

  lemma CommitterFields(c: Commit, line: string, u: string, e: string, ts: string)
    requires Split(line, ' ') == ["committer"] + ([u] + ([e] + Split(ts, ' ')))
    ensures ApplyLine(c, line) == Some(c.(committer := Some(Person(u, e, ts))))
  {
    var sp := Split(line, ' ');
    assert |sp| >= 3 && sp[0] == "committer" && sp[1] == u && sp[2] == e;
    assert Join(sp[3..], ' ') == ts by {
      assert sp[3..] == Split(ts, ' ');
    }
    SwitchCases(c, sp);
  }

  /**
   * A `committer` line takes its username and email positionally, as the two
   * space-free fields after the keyword, and keeps all the rest, spaces
   * included, as the timestamp.
   */
  lemma CommitterLine(c: Commit, u: string, e: string, ts: string)
    requires ' ' !in u && ' ' !in e
    ensures ApplyLine(c, "committer " + u + " " + e + " " + ts) == Some(c.(committer := Some(Person(u, e, ts))))
  {
    var line := "committer " + u + " " + e + " " + ts;
    assert line == "committer" + [' '] + (u + [' '] + (e + [' '] + ts));
    SplitThree("committer", u, e, ts);
    CommitterFields(c, line, u, e, ts);
  }
}
