/** The scanners of check-markdown-links.py: fenced code blocks, backslash escapes, and the
    destinations of inline links and reference definitions.
 */
module MarkdownLinks {
  import opened Wrappers

  // ----- Fenced code blocks -----

  datatype Fence = Fence(character: char, length: nat)

  /** How often `c` is repeated in `line` from position `i` on. */
  function RunLength(line: string, i: nat, c: char): (n: nat)
    requires i <= |line|
    ensures i + n <= |line|
    decreases |line| - i
  {
    if i < |line| && line[i] == c then 1 + RunLength(line, i + 1, c) else 0
  }

  lemma {:induction false} RunIsMaximal(line: string, i: nat, c: char)
    requires i <= |line|
    ensures var n := RunLength(line, i, c);
      (forall j | i <= j < i + n :: line[j] == c) && (i + n < |line| ==> line[i + n] != c)
    decreases |line| - i
  {
    if i < |line| && line[i] == c {
      RunIsMaximal(line, i + 1, c);
    }
  }

  /** The fence a line opens: at most three spaces, then three or more of one fence character. */
  function Opener(line: string): Option<Fence> {
    var n := RunLength(line, 0, ' ');
    if n <= 3 && n < |line| && line[n] in {'`', '~'} && RunLength(line, n, line[n]) >= 3 then
      Some(Fence(line[n], RunLength(line, n, line[n])))
    else
      None
  }

  predicate IsTrailing(c: char) {
    c in {' ', '\t', '\r', '\n'}
  }

  /** A line closes a fence: at most three spaces, at least as many fence characters, then only blanks. */
  predicate Closes(line: string, fence: Fence) {
    var n := RunLength(line, 0, ' ');
    var k := RunLength(line, n, fence.character);
    n <= 3 && k >= fence.length && forall j | n + k <= j < |line| :: IsTrailing(line[j])
  }

  /** The first line from `i` on that closes the fence, or the end of the input. */
  function FirstCloser(lines: seq<string>, i: nat, fence: Fence): (closer: nat)
    requires i <= |lines|
    ensures i <= closer <= |lines|
    ensures closer < |lines| ==> Closes(lines[closer], fence)
    ensures forall j | i <= j < closer :: !Closes(lines[j], fence)
    decreases |lines| - i
  {
    if i == |lines| || Closes(lines[i], fence) then i else FirstCloser(lines, i + 1, fence)
  }

  /** The numbered lines from `i` on that no fence contains: a fence takes its opener, its closer
      (or the end of the input), and everything in between. */
  function Outside(lines: seq<string>, i: nat): seq<(nat, string)>
    requires i <= |lines|
    decreases |lines| - i
  {
    if i == |lines| then []
    else match Opener(lines[i])
      case Some(fence) =>
        var closer := FirstCloser(lines, i + 1, fence);
        if closer == |lines| then [] else Outside(lines, closer + 1)
      case None => [(i + 1, lines[i])] + Outside(lines, i + 1)
  }

  /** `visible` are lines after the first `i`, with their numbers, in increasing order. */
  predicate Numbered(lines: seq<string>, i: nat, visible: seq<(nat, string)>) {
    && (forall k | 0 <= k < |visible| :: i < visible[k].0 <= |lines| && visible[k].1 == lines[visible[k].0 - 1])
    && (forall k, m | 0 <= k < m < |visible| :: visible[k].0 < visible[m].0)
  }

  lemma NumberedCons(lines: seq<string>, i: nat, visible: seq<(nat, string)>)
    requires i < |lines| && Numbered(lines, i + 1, visible)
    ensures Numbered(lines, i, [(i + 1, lines[i])] + visible)
  {
  }

  lemma NumberedLater(lines: seq<string>, i: nat, j: nat, visible: seq<(nat, string)>)
    requires i <= j && Numbered(lines, j, visible)
    ensures Numbered(lines, i, visible)
  {
  }

  lemma {:induction false} VisibleLinesAreNumbered(lines: seq<string>, i: nat)
    requires i <= |lines|
    ensures Numbered(lines, i, Outside(lines, i))
    decreases |lines| - i
  {
    if i < |lines| {
      match Opener(lines[i]) {
        case Some(fence) =>
          var closer := FirstCloser(lines, i + 1, fence);
          if closer < |lines| {
            VisibleLinesAreNumbered(lines, closer + 1);
            NumberedLater(lines, i, closer + 1, Outside(lines, closer + 1));
          }
        case None =>
          VisibleLinesAreNumbered(lines, i + 1);
          NumberedCons(lines, i, Outside(lines, i + 1));
      }
    }
  }

  method LStripSpaces(line: string) returns (rest: string)
    ensures rest == line[RunLength(line, 0, ' ')..]
  {
    var i := 0;
    while i < |line| && line[i] == ' '
      invariant 0 <= i <= |line|
      invariant RunLength(line, 0, ' ') == i + RunLength(line, i, ' ')
    {
      i := i + 1;
    }
    rest := line[i..];
  }

  method RStripTrailing(text: string) returns (rest: string)
    ensures rest <= text
    ensures forall j | |rest| <= j < |text| :: IsTrailing(text[j])
    ensures rest != [] ==> !IsTrailing(rest[|rest| - 1])
  {
    var n := |text|;
    while n > 0 && IsTrailing(text[n - 1])
      invariant 0 <= n <= |text|
      invariant forall j | n <= j < |text| :: IsTrailing(text[j])
    {
      n := n - 1;
    }
    rest := text[..n];
  }

  /** The test of the fence automaton's closing branch. */
  method ClosesFence(line: string, fence: Fence) returns (closes: bool)
    requires fence.length > 0 && !IsTrailing(fence.character)
    ensures closes == Closes(line, fence)
  {
    var candidate := LStripSpaces(line);
    RunIsMaximal(line, RunLength(line, 0, ' '), fence.character);
    ghost var n := RunLength(line, 0, ' ');
    ghost var k := RunLength(line, n, fence.character);
    assert forall j | 0 <= j < |candidate| :: candidate[j] == line[n + j];
    if |line| - |candidate| > 3 {
      return false;
    }
    var marker := RStripTrailing(candidate);
    closes := marker != [] && (forall c | c in marker :: c == fence.character) && |marker| >= fence.length;
    if closes {
      assert forall j | 0 <= j < |marker| :: marker[j] in marker;
      assert forall j | n <= j < n + |marker| :: line[j] == candidate[j - n] == marker[j - n];
      RunLengthIs(line, n, fence.character, |marker|);
      assert forall j | n + k <= j < |line| :: line[j] == candidate[j - n];
    }
    if Closes(line, fence) {
      ClosingMarker(line, fence, candidate, marker);
    }
  }

  /** What is left of a closing line between its indentation and its trailing blanks. */
  lemma ClosingMarker(line: string, fence: Fence, candidate: string, marker: string)
    requires fence.length > 0 && !IsTrailing(fence.character) && Closes(line, fence)
    requires candidate == line[RunLength(line, 0, ' ')..] && marker <= candidate
    requires forall j | |marker| <= j < |candidate| :: IsTrailing(candidate[j])
    requires marker != [] ==> !IsTrailing(marker[|marker| - 1])
    ensures |marker| >= fence.length && forall c | c in marker :: c == fence.character
  {
    var n := RunLength(line, 0, ' ');
    var k := RunLength(line, n, fence.character);
    RunIsMaximal(line, n, fence.character);
    assert forall j | 0 <= j < |candidate| :: candidate[j] == line[n + j];
    assert candidate[k - 1] == fence.character;
    assert |marker| >= k;
    assert forall j | k <= j < |candidate| :: IsTrailing(candidate[j]);
  }

  lemma {:induction false} RunLengthIs(line: string, i: nat, c: char, n: nat)
    requires i + n <= |line| && forall j | i <= j < i + n :: line[j] == c
    requires i + n < |line| ==> line[i + n] != c
    ensures RunLength(line, i, c) == n
    decreases n
  {
    if n > 0 {
      RunLengthIs(line, i + 1, c, n - 1);
    }
  }

  /** What is still visible from line `i` on, given the fence that is open there, if any. */
  function Remaining(lines: seq<string>, i: nat, open: Option<Fence>): seq<(nat, string)>
    requires i <= |lines|
  {
    match open
    case None => Outside(lines, i)
    case Some(fence) =>
      var closer := FirstCloser(lines, i, fence);
      if closer == |lines| then [] else Outside(lines, closer + 1)
  }

  /** The fence that is open after a line. */
  function NextOpen(line: string, open: Option<Fence>): Option<Fence> {
    if open.None? then Opener(line) else if Closes(line, open.value) then None else open
  }

  predicate IsVisible(line: string, open: Option<Fence>) {
    open.None? && Opener(line).None?
  }

  /** What line `i` contributes. */
  function Shown(lines: seq<string>, i: nat, open: Option<Fence>): seq<(nat, string)>
    requires i < |lines|
  {
    if IsVisible(lines[i], open) then [(i + 1, lines[i])] else []
  }

  lemma RemainingStep(lines: seq<string>, i: nat, open: Option<Fence>)
    requires i < |lines|
    ensures Remaining(lines, i, open) == Shown(lines, i, open) + Remaining(lines, i + 1, NextOpen(lines[i], open))
  {
    if open.Some? {
      InsideStep(lines, i, open.value);
    } else {
      OutsideStep(lines, i);
    }
  }

  lemma InsideStep(lines: seq<string>, i: nat, fence: Fence)
    requires i < |lines|
    ensures Remaining(lines, i, Some(fence))
         == Remaining(lines, i + 1, if Closes(lines[i], fence) then None else Some(fence))
  {
    if Closes(lines[i], fence) {
      assert FirstCloser(lines, i, fence) == i;
    } else {
      assert FirstCloser(lines, i, fence) == FirstCloser(lines, i + 1, fence);
    }
  }

  lemma OutsideStep(lines: seq<string>, i: nat)
    requires i < |lines|
    ensures Outside(lines, i)
         == (if Opener(lines[i]).None? then [(i + 1, lines[i])] else []) + Remaining(lines, i + 1, Opener(lines[i]))
  {
  }

  lemma ReadOneLine(all: seq<(nat, string)>, visible: seq<(nat, string)>, lines: seq<string>, i: nat, open: Option<Fence>)
    requires i < |lines| && all == visible + Remaining(lines, i, open)
    ensures all == (visible + Shown(lines, i, open)) + Remaining(lines, i + 1, NextOpen(lines[i], open))
  {
    RemainingStep(lines, i, open);
    Regroup(visible, Shown(lines, i, open), Remaining(lines, i + 1, NextOpen(lines[i], open)));
  }

  lemma Regroup(a: seq<(nat, string)>, b: seq<(nat, string)>, c: seq<(nat, string)>)
    ensures a + (b + c) == (a + b) + c
  {
  }

  predicate IsFence(open: Option<Fence>) {
    open.Some? ==> open.value.length >= 3 && open.value.character in {'`', '~'}
  }

  /** What the automaton does with one line. */
  method ReadLine(line: string, open: Option<Fence>) returns (next: Option<Fence>, visible: bool)
    requires IsFence(open)
    ensures next == NextOpen(line, open) && visible == IsVisible(line, open) && IsFence(next)
  {
    next, visible := open, false;
    if open.None? {
      next := Opener(line);
      visible := next.None?;
    } else {
      var closes := ClosesFence(line, open.value);
      if closes {
        next := None;
      }
    }
  }

  /** The fence automaton keeps exactly the lines outside every fence, with their numbers. */
  method OutsideFences(lines: seq<string>) returns (visible: seq<(nat, string)>)
    ensures visible == Outside(lines, 0)
    ensures exists blocks :: Fencing(lines, 0, blocks) && Leaves(lines, 0, blocks, visible)
    ensures Numbered(lines, 0, visible)
  {
    visible := [];
    var open: Option<Fence> := None;
    ghost var all := Outside(lines, 0);
    for i := 0 to |lines|
      invariant IsFence(open) && all == visible + Remaining(lines, i, open)
    {
      ReadOneLine(all, visible, lines, i, open);
      var next, show := ReadLine(lines[i], open);
      visible := visible + if show then [(i + 1, lines[i])] else [];
      open := next;
    }
    ghost var blocks := BlocksOf(lines, 0);
    VisibleLinesAreNumbered(lines, 0);
  }

  /** `all` repeats `visible` and goes on with lines numbered above `last` only. */
  predicate GoesOn(visible: seq<(nat, string)>, all: seq<(nat, string)>, last: nat) {
    && visible <= all
    && forall k | |visible| <= k < |all| :: all[k].0 > last
  }

  lemma GoesOnAfter(first: seq<(nat, string)>, visible: seq<(nat, string)>, all: seq<(nat, string)>, last: nat)
    requires GoesOn(visible, all, last)
    ensures GoesOn(first + visible, first + all, last)
  {
    assert forall k | |first| + |visible| <= k < |first| + |all| :: (first + all)[k] == all[k - |first|];
  }

  lemma RemainingIsNumbered(lines: seq<string>, i: nat, open: Option<Fence>)
    requires i <= |lines|
    ensures Numbered(lines, i, Remaining(lines, i, open))
  {
    if open.None? {
      VisibleLinesAreNumbered(lines, i);
    } else {
      var closer := FirstCloser(lines, i, open.value);
      if closer < |lines| {
        VisibleLinesAreNumbered(lines, closer + 1);
      }
    }
  }

  lemma {:induction false} AppendKeepsRemaining(lines: seq<string>, more: seq<string>, i: nat, open: Option<Fence>)
    requires i <= |lines|
    ensures GoesOn(Remaining(lines, i, open), Remaining(lines + more, i, open), |lines|)
    decreases |lines| - i
  {
    if i < |lines| {
      AppendKeepsRemaining(lines, more, i + 1, NextOpen(lines[i], open));
      AppendKeepsLine(lines, more, i, open);
    } else {
      AppendAtEnd(lines, more, open);
    }
  }

  lemma AppendKeepsLine(lines: seq<string>, more: seq<string>, i: nat, open: Option<Fence>)
    requires i < |lines|
    requires var next := NextOpen(lines[i], open);
      GoesOn(Remaining(lines, i + 1, next), Remaining(lines + more, i + 1, next), |lines|)
    ensures GoesOn(Remaining(lines, i, open), Remaining(lines + more, i, open), |lines|)
  {
    var all := lines + more;
    assert all[i] == lines[i];
    var next := NextOpen(lines[i], open);
    RemainingStep(lines, i, open);
    RemainingStep(all, i, open);
    GoesOnAfter(Shown(lines, i, open), Remaining(lines, i + 1, next), Remaining(all, i + 1, next), |lines|);
  }

  lemma AppendAtEnd(lines: seq<string>, more: seq<string>, open: Option<Fence>)
    ensures GoesOn(Remaining(lines, |lines|, open), Remaining(lines + more, |lines|, open), |lines|)
  {
    RemainingIsNumbered(lines + more, |lines|, open);
    assert Remaining(lines, |lines|, open) == [];
  }

  /** Appending lines changes no verdict on the lines already there. */
  lemma AppendKeepsVerdicts(lines: seq<string>, more: seq<string>)
    ensures GoesOn(Outside(lines, 0), Outside(lines + more, 0), |lines|)
  {
    AppendKeepsRemaining(lines, more, 0, None);
    assert Remaining(lines, 0, None) == Outside(lines, 0);
    assert Remaining(lines + more, 0, None) == Outside(lines + more, 0);
  }

  // ----- What a fence is, without the automaton -----

  /** The line is at most three spaces, at least three of one fence character, and then another one. */
  predicate StartsFence(line: string, n: nat, k: nat) {
    && n <= 3 <= k && n + k <= |line|
    && (forall j | 0 <= j < n :: line[j] == ' ')
    && line[n] in {'`', '~'}
    && (forall j | n <= j < n + k :: line[j] == line[n])
    && (n + k < |line| ==> line[n + k] != line[n])
  }

  lemma OpenersAreThePattern(line: string, fence: Fence)
    ensures Opener(line) == Some(fence) <==>
              exists n: nat :: StartsFence(line, n, fence.length) && line[n] == fence.character
  {
    var n := RunLength(line, 0, ' ');
    RunIsMaximal(line, 0, ' ');
    if n < |line| {
      RunIsMaximal(line, n, line[n]);
    }
    if Opener(line) == Some(fence) {
      assert StartsFence(line, n, fence.length);
    }
    if m: nat :| StartsFence(line, m, fence.length) && line[m] == fence.character {
      RunLengthIs(line, 0, ' ', m);
      RunLengthIs(line, m, line[m], fence.length);
    }
  }

  /** The line is at most three spaces, at least as many fence characters as opened it, and blanks. */
  predicate EndsFence(line: string, fence: Fence, n: nat, k: nat) {
    && n <= 3 && fence.length <= k && n + k <= |line|
    && (forall j | 0 <= j < n :: line[j] == ' ')
    && (forall j | n <= j < n + k :: line[j] == fence.character)
    && (forall j | n + k <= j < |line| :: IsTrailing(line[j]))
  }

  lemma ClosersAreThePattern(line: string, fence: Fence)
    requires fence.length > 0 && !IsTrailing(fence.character)
    ensures Closes(line, fence) <==> exists n: nat, k: nat :: EndsFence(line, fence, n, k)
  {
    var n := RunLength(line, 0, ' ');
    RunIsMaximal(line, 0, ' ');
    RunIsMaximal(line, n, fence.character);
    if Closes(line, fence) {
      assert EndsFence(line, fence, n, RunLength(line, n, fence.character));
    }
    if m: nat, k: nat :| EndsFence(line, fence, m, k) {
      RunLengthIs(line, 0, ' ', m);
      RunLengthIs(line, m, fence.character, k);
    }
  }

  /** A fenced block: the line that opens it and the one that closes it, or the end of the input. */
  datatype Block = Block(open: nat, close: nat)

  predicate BlockOk(lines: seq<string>, b: Block) {
    && b.open < b.close <= |lines|
    && Opener(lines[b.open]).Some?
    && (forall j | b.open < j < b.close :: !Closes(lines[j], Opener(lines[b.open]).value))
    && (b.close < |lines| ==> Closes(lines[b.close], Opener(lines[b.open]).value))
  }

  predicate Inside(blocks: seq<Block>, j: nat) {
    exists k :: 0 <= k < |blocks| && blocks[k].open <= j <= blocks[k].close
  }

  /** `blocks` are fenced blocks among the lines from `i` on, one after the other, and no line
      outside them opens a fence. */
  predicate Fencing(lines: seq<string>, i: nat, blocks: seq<Block>) {
    && (forall k | 0 <= k < |blocks| :: i <= blocks[k].open && BlockOk(lines, blocks[k]))
    && (forall k, m | 0 <= k < m < |blocks| :: blocks[k].close < blocks[m].open)
    && (forall j {:trigger Inside(blocks, j)} | i <= j < |lines| && !Inside(blocks, j) :: Opener(lines[j]).None?)
  }

  /** `visible` are the lines from `i` on outside the blocks. */
  predicate Leaves(lines: seq<string>, i: nat, blocks: seq<Block>, visible: seq<(nat, string)>) {
    forall j {:trigger Inside(blocks, j)} | i <= j < |lines| :: (j + 1, lines[j]) in visible <==> !Inside(blocks, j)
  }

  lemma InsideFirstOrRest(b: Block, rest: seq<Block>)
    ensures forall j: nat :: Inside([b] + rest, j) <==> b.open <= j <= b.close || Inside(rest, j)
  {
    var blocks := [b] + rest;
    forall j: nat ensures Inside(blocks, j) <==> b.open <= j <= b.close || Inside(rest, j) {
      if b.open <= j <= b.close {
        assert blocks[0] == b;
      }
      if Inside(rest, j) {
        var k :| 0 <= k < |rest| && rest[k].open <= j <= rest[k].close;
        assert blocks[k + 1] == rest[k];
      }
    }
  }

  lemma FencingFrom(lines: seq<string>, i: nat, b: Block, rest: seq<Block>)
    requires i < |lines| && BlockOk(lines, b) && b.open == i
    requires if b.close == |lines| then rest == [] else Fencing(lines, b.close + 1, rest)
    ensures Fencing(lines, i, [b] + rest)
    ensures forall j: nat :: Inside([b] + rest, j) <==> b.open <= j <= b.close || Inside(rest, j)
  {
    InsideFirstOrRest(b, rest);
  }

  lemma {:induction false} BlocksOf(lines: seq<string>, i: nat) returns (blocks: seq<Block>)
    requires i <= |lines|
    ensures Fencing(lines, i, blocks) && Leaves(lines, i, blocks, Outside(lines, i))
    decreases |lines| - i
  {
    blocks := [];
    if i < |lines| {
      if Opener(lines[i]).None? {
        blocks := BlocksOf(lines, i + 1);
        LeavesOneMore(lines, i, blocks);
      } else {
        var closer := FirstCloser(lines, i + 1, Opener(lines[i]).value);
        if closer < |lines| {
          blocks := BlocksOf(lines, closer + 1);
        }
        FoundBlockOk(lines, i, closer);
        FencingFrom(lines, i, Block(i, closer), blocks);
        LeavesAfterBlock(lines, i, closer, blocks);
        blocks := [Block(i, closer)] + blocks;
      }
    }
  }

  lemma LeavesAfterBlock(lines: seq<string>, i: nat, closer: nat, rest: seq<Block>)
    requires i < |lines| && Opener(lines[i]).Some? && closer == FirstCloser(lines, i + 1, Opener(lines[i]).value)
    requires if closer == |lines| then rest == [] else Leaves(lines, closer + 1, rest, Outside(lines, closer + 1))
    ensures Leaves(lines, i, [Block(i, closer)] + rest, Outside(lines, i))
  {
    OutsideAfterBlock(lines, i, closer);
    if closer < |lines| {
      VisibleFrom(lines, closer + 1);
      LeavesSkips(lines, Block(i, closer), rest, Outside(lines, closer + 1));
    } else {
      LeavesNothing(lines, Block(i, closer));
    }
  }

  lemma FoundBlockOk(lines: seq<string>, i: nat, closer: nat)
    requires i < |lines| && Opener(lines[i]).Some? && closer == FirstCloser(lines, i + 1, Opener(lines[i]).value)
    ensures BlockOk(lines, Block(i, closer))
  {
  }

  lemma OutsideAfterBlock(lines: seq<string>, i: nat, closer: nat)
    requires i < |lines| && Opener(lines[i]).Some? && closer == FirstCloser(lines, i + 1, Opener(lines[i]).value)
    ensures Outside(lines, i) == if closer == |lines| then [] else Outside(lines, closer + 1)
  {
  }

  lemma LeavesNothing(lines: seq<string>, b: Block)
    requires b.open < b.close == |lines|
    ensures Leaves(lines, b.open, [b] + [], [])
  {
    InsideFirstOrRest(b, []);
  }

  /** Visible lines from `i` on have higher numbers than `i`. */
  lemma VisibleFrom(lines: seq<string>, i: nat)
    requires i <= |lines|
    ensures forall v | v in Outside(lines, i) :: i < v.0
  {
    VisibleLinesAreNumbered(lines, i);
  }

  lemma LeavesSkips(lines: seq<string>, b: Block, rest: seq<Block>, visible: seq<(nat, string)>)
    requires b.open < b.close < |lines| && Leaves(lines, b.close + 1, rest, visible)
    requires forall v | v in visible :: b.close + 1 < v.0
    ensures Leaves(lines, b.open, [b] + rest, visible)
  {
    InsideFirstOrRest(b, rest);
    forall j | b.open <= j < |lines| ensures (j + 1, lines[j]) in visible <==> !Inside([b] + rest, j) {
      if j <= b.close {
        assert (j + 1, lines[j]) !in visible;
      } else {
        assert (j + 1, lines[j]) in visible <==> !Inside(rest, j);
      }
    }
  }

  lemma LeavesOneMore(lines: seq<string>, i: nat, blocks: seq<Block>)
    requires i < |lines| && Opener(lines[i]).None?
    requires Fencing(lines, i + 1, blocks) && Leaves(lines, i + 1, blocks, Outside(lines, i + 1))
    ensures Fencing(lines, i, blocks) && Leaves(lines, i, blocks, Outside(lines, i))
  {
    VisibleFrom(lines, i + 1);
    assert !Inside(blocks, i);
    assert Outside(lines, i) == [(i + 1, lines[i])] + Outside(lines, i + 1);
  }

  /** The fenced blocks of a text are determined by that description. */
  lemma {:induction false} FencingIsUnique(lines: seq<string>, i: nat, a: seq<Block>, b: seq<Block>)
    requires Fencing(lines, i, a) && Fencing(lines, i, b)
    ensures a == b
    decreases |a|
  {
    if a != [] {
      OpensNoLater(lines, i, a, b);
      OpensNoLater(lines, i, b, a);
      SameBlock(lines, a[0], b[0]);
      FencingRest(lines, i, a);
      FencingRest(lines, i, b);
      FencingIsUnique(lines, a[0].close + 1, a[1..], b[1..]);
      assert a == [a[0]] + a[1..] && b == [b[0]] + b[1..];
    } else if b != [] {
      OpensNoLater(lines, i, b, a);
    }
  }

  lemma OpensNoLater(lines: seq<string>, i: nat, a: seq<Block>, b: seq<Block>)
    requires Fencing(lines, i, a) && Fencing(lines, i, b) && a != []
    ensures b != [] && b[0].open <= a[0].open
  {
    assert BlockOk(lines, a[0]);
    assert Inside(b, a[0].open);
    var k :| 0 <= k < |b| && b[k].open <= a[0].open <= b[k].close;
    assert k > 0 ==> b[0].close < b[k].open;
    assert BlockOk(lines, b[0]);
  }

  lemma SameBlock(lines: seq<string>, a: Block, b: Block)
    requires BlockOk(lines, a) && BlockOk(lines, b) && a.open == b.open
    ensures a == b
  {
  }

  lemma FencingRest(lines: seq<string>, i: nat, blocks: seq<Block>)
    requires Fencing(lines, i, blocks) && blocks != []
    ensures Fencing(lines, blocks[0].close + 1, blocks[1..])
  {
    var b, rest := blocks[0], blocks[1..];
    assert BlockOk(lines, b) && blocks == [b] + rest;
    forall k | 0 <= k < |rest| ensures b.close + 1 <= rest[k].open && BlockOk(lines, rest[k]) {
      assert rest[k] == blocks[k + 1];
    }
    forall j | b.close + 1 <= j < |lines| && !Inside(rest, j) ensures Opener(lines[j]).None? {
      InsideFirstOrRest(b, rest);
      assert !Inside(blocks, j);
    }
  }

  /** Exactly the lines outside the fenced blocks are left visible, with their numbers. */
  lemma OutsideIsOutsideAllBlocks(lines: seq<string>, blocks: seq<Block>)
    requires Fencing(lines, 0, blocks)
    ensures Leaves(lines, 0, blocks, Outside(lines, 0)) && Numbered(lines, 0, Outside(lines, 0))
  {
    var found := BlocksOf(lines, 0);
    FencingIsUnique(lines, 0, found, blocks);
    VisibleLinesAreNumbered(lines, 0);
  }

  // ----- Fences by the CommonMark standard -----

  /** A backtick fence whose info string, what follows the backticks, contains a backtick. The
      standard excludes it (section 4.5 of CommonMark 0.31.2); the scanner's pattern does not. */
  predicate Misread(line: string) {
    match Opener(line)
    case None => false
    case Some(fence) => fence.character == '`' && '`' in line[RunLength(line, 0, ' ') + fence.length..]
  }

  /** The fence a line opens by the standard. */
  function CommonMarkOpener(line: string): Option<Fence> {
    var n := RunLength(line, 0, ' ');
    if n <= 3 && n < |line| && line[n] == '`' && RunLength(line, n, '`') >= 3
       && '`' !in line[n + RunLength(line, n, '`')..] then
      Some(Fence('`', RunLength(line, n, '`')))
    else if n <= 3 && n < |line| && line[n] == '~' && RunLength(line, n, '~') >= 3 then
      Some(Fence('~', RunLength(line, n, '~')))
    else
      None
  }

  /** The numbered lines from `i` on that no fence of the standard contains. */
  function CommonMarkOutside(lines: seq<string>, i: nat): seq<(nat, string)>
    requires i <= |lines|
    decreases |lines| - i
  {
    if i == |lines| then []
    else match CommonMarkOpener(lines[i])
      case Some(fence) =>
        var closer := FirstCloser(lines, i + 1, fence);
        if closer == |lines| then [] else CommonMarkOutside(lines, closer + 1)
      case None => [(i + 1, lines[i])] + CommonMarkOutside(lines, i + 1)
  }

  /** Line `j` is one that the scanner, started at line `i`, meets while no fence is open. */
  predicate Meets(lines: seq<string>, i: nat, j: nat): (met: bool)
    requires i <= |lines|
    ensures met ==> i <= j < |lines|
    decreases |lines| - i
  {
    i < |lines| &&
    (i == j ||
     match Opener(lines[i])
     case Some(fence) =>
       var closer := FirstCloser(lines, i + 1, fence);
       closer < |lines| && Meets(lines, closer + 1, j)
     case None => Meets(lines, i + 1, j))
  }

  lemma OpenersDiffer(line: string)
    ensures if Misread(line) then Opener(line).Some? && CommonMarkOpener(line).None?
            else CommonMarkOpener(line) == Opener(line)
  {
  }

  /** None of the lines met while no fence is open is a backtick fence with a backtick in its info string. */
  ghost predicate NoneMisread(lines: seq<string>, i: nat)
    requires i <= |lines|
  {
    forall j: nat | Meets(lines, i, j) :: !Misread(lines[j])
  }

  /** A misread opener is a visible line by the standard and hidden by the scanner. */
  lemma MisreadLineShows(lines: seq<string>, i: nat)
    requires i < |lines| && Misread(lines[i])
    ensures Outside(lines, i) != CommonMarkOutside(lines, i) && !NoneMisread(lines, i)
  {
    OpenersDiffer(lines[i]);
    RemainingIsNumbered(lines, i + 1, Opener(lines[i]));
    OutsideStep(lines, i);
    assert [] + Remaining(lines, i + 1, Opener(lines[i])) == Remaining(lines, i + 1, Opener(lines[i]));
    assert CommonMarkOutside(lines, i)[0] == (i + 1, lines[i]);
    assert Meets(lines, i, i);
  }

  /** Past a line that opens nothing by either reading, both go on with the next line. */
  lemma VisibleAlike(lines: seq<string>, i: nat)
    requires i < |lines| && Opener(lines[i]).None? && CommonMarkOpener(lines[i]).None? && !Misread(lines[i])
    ensures Outside(lines, i) == CommonMarkOutside(lines, i) <==>
              Outside(lines, i + 1) == CommonMarkOutside(lines, i + 1)
    ensures NoneMisread(lines, i) <==> NoneMisread(lines, i + 1)
  {
    assert Outside(lines, i)[1..] == Outside(lines, i + 1);
    assert CommonMarkOutside(lines, i)[1..] == CommonMarkOutside(lines, i + 1);
    assert forall j: nat :: Meets(lines, i, j) <==> j == i || Meets(lines, i + 1, j);
  }

  /** Past a fence both read alike, both go on at the same place. */
  lemma FencedAlike(lines: seq<string>, i: nat, fence: Fence)
    requires i < |lines| && Opener(lines[i]) == Some(fence) == CommonMarkOpener(lines[i]) && !Misread(lines[i])
    ensures var closer := FirstCloser(lines, i + 1, fence);
      if closer < |lines| then
        && Outside(lines, i) == Outside(lines, closer + 1)
        && CommonMarkOutside(lines, i) == CommonMarkOutside(lines, closer + 1)
        && (NoneMisread(lines, i) <==> NoneMisread(lines, closer + 1))
      else
        Outside(lines, i) == [] == CommonMarkOutside(lines, i) && NoneMisread(lines, i)
  {
    var closer := FirstCloser(lines, i + 1, fence);
    OutsideAfterBlock(lines, i, closer);
    CommonMarkOutsideAfterBlock(lines, i, closer);
    NoneMisreadAfterBlock(lines, i, closer);
  }

  lemma CommonMarkOutsideAfterBlock(lines: seq<string>, i: nat, closer: nat)
    requires i < |lines| && CommonMarkOpener(lines[i]).Some?
    requires closer == FirstCloser(lines, i + 1, CommonMarkOpener(lines[i]).value)
    ensures CommonMarkOutside(lines, i) == if closer == |lines| then [] else CommonMarkOutside(lines, closer + 1)
  {
  }

  lemma NoneMisreadAfterBlock(lines: seq<string>, i: nat, closer: nat)
    requires i < |lines| && Opener(lines[i]).Some? && !Misread(lines[i])
    requires closer == FirstCloser(lines, i + 1, Opener(lines[i]).value)
    ensures NoneMisread(lines, i) <==> closer == |lines| || NoneMisread(lines, closer + 1)
  {
    MeetsAfterBlock(lines, i, closer);
  }

  lemma MeetsAfterBlock(lines: seq<string>, i: nat, closer: nat)
    requires i < |lines| && Opener(lines[i]).Some? && closer == FirstCloser(lines, i + 1, Opener(lines[i]).value)
    ensures forall j: nat :: Meets(lines, i, j) <==> j == i || (closer < |lines| && Meets(lines, closer + 1, j))
  {
  }

  /** The theorem below, for the lines from `i` on. */
  ghost predicate AlikeIffNoneMisread(lines: seq<string>, i: nat)
    requires i <= |lines|
  {
    Outside(lines, i) == CommonMarkOutside(lines, i) <==> NoneMisread(lines, i)
  }

  lemma AlikeAtMisread(lines: seq<string>, i: nat)
    requires i < |lines| && Misread(lines[i])
    ensures AlikeIffNoneMisread(lines, i)
  {
    MisreadLineShows(lines, i);
  }

  lemma AlikeAtVisible(lines: seq<string>, i: nat)
    requires i < |lines| && !Misread(lines[i]) && Opener(lines[i]).None? && AlikeIffNoneMisread(lines, i + 1)
    ensures AlikeIffNoneMisread(lines, i)
  {
    OpenersDiffer(lines[i]);
    VisibleAlike(lines, i);
  }

  lemma AlikeAtFence(lines: seq<string>, i: nat, fence: Fence)
    requires i < |lines| && !Misread(lines[i]) && Opener(lines[i]) == Some(fence)
    requires var closer := FirstCloser(lines, i + 1, fence);
      closer < |lines| ==> AlikeIffNoneMisread(lines, closer + 1)
    ensures AlikeIffNoneMisread(lines, i)
  {
    OpenersDiffer(lines[i]);
    FencedAlike(lines, i, fence);
  }

  lemma {:induction false} ScannerMeetsTheStandardFrom(lines: seq<string>, i: nat)
    requires i <= |lines|
    ensures AlikeIffNoneMisread(lines, i)
    decreases |lines| - i
  {
    if i < |lines| {
      if Misread(lines[i]) {
        AlikeAtMisread(lines, i);
      } else if Opener(lines[i]).None? {
        ScannerMeetsTheStandardFrom(lines, i + 1);
        AlikeAtVisible(lines, i);
      } else {
        var fence := Opener(lines[i]).value;
        var closer := FirstCloser(lines, i + 1, fence);
        if closer < |lines| {
          ScannerMeetsTheStandardFrom(lines, closer + 1);
        }
        AlikeAtFence(lines, i, fence);
      }
    }
  }

  /** The scanner shows what the standard shows exactly when none of the lines it meets while no
      fence is open is a backtick fence with a backtick in its info string. */
  lemma ScannerMeetsTheStandard(lines: seq<string>)
    ensures Outside(lines, 0) == CommonMarkOutside(lines, 0) <==>
              forall j: nat | Meets(lines, 0, j) :: !Misread(lines[j])
  {
    ScannerMeetsTheStandardFrom(lines, 0);
  }

  const INFO_WITH_BACKTICK := "```a`b"

  /** One such line is enough: the scanner hides it, the standard shows it. */
  lemma ScannerBreaksTheStandard()
    ensures Misread(INFO_WITH_BACKTICK)
    ensures Outside([INFO_WITH_BACKTICK], 0) == []
    ensures CommonMarkOutside([INFO_WITH_BACKTICK], 0) == [(1, INFO_WITH_BACKTICK)]
  {
    var line := INFO_WITH_BACKTICK;
    assert RunLength(line, 0, ' ') == 0;
    RunLengthIs(line, 0, '`', 3);
    assert line[3..][1] == '`';
    OpenersDiffer(line);
    OutsideStep([line], 0);
    assert CommonMarkOutside([line], 1) == [];
  }

  // ----- Escapes -----

  /** A backslash escapes the character after it unless it is itself escaped. */
  predicate EscapedAt(value: string, i: nat)
    requires i <= |value|
  {
    i > 0 && value[i - 1] == '\\' && !EscapedAt(value, i - 1)
  }

  /** Exactly `n` backslashes stand before position `i`. */
  predicate BackslashesBefore(value: string, i: nat, n: nat)
    requires i <= |value|
  {
    n <= i && (forall j | i - n <= j < i :: value[j] == '\\') && (n < i ==> value[i - n - 1] != '\\')
  }

  /** Counting the backslashes before a position tells whether it is escaped. */
  method Escaped(value: string, index: nat) returns (escaped: bool)
    requires index <= |value|
    ensures escaped == EscapedAt(value, index)
    ensures exists n: nat :: BackslashesBefore(value, index, n) && (escaped <==> n % 2 == 1)
  {
    var backslashes := 0;
    var i := index - 1;
    while i >= 0 && value[i] == '\\'
      invariant -1 <= i < index
      invariant backslashes == index - 1 - i
      invariant forall j | i < j < index :: value[j] == '\\'
      invariant EscapedAt(value, index) == (EscapedAt(value, i + 1) != (backslashes % 2 == 1))
    {
      backslashes := backslashes + 1;
      i := i - 1;
    }
    assert BackslashesBefore(value, index, backslashes);
    escaped := backslashes % 2 == 1;
  }

  /** `str.isspace` of one character. */
  predicate IsSpace(c: char): (space: bool)
    ensures space <==> c as int in {0x09, 0x0a, 0x0b, 0x0c, 0x0d, 0x1c, 0x1d, 0x1e, 0x1f, 0x20, 0x85, 0xa0, 0x1680, 0x2000,
                                    0x2001, 0x2002, 0x2003, 0x2004, 0x2005, 0x2006, 0x2007, 0x2008, 0x2009, 0x200a,
                                    0x2028, 0x2029, 0x202f, 0x205f, 0x3000}
  {
    || '\t' <= c <= '\r' || '\U{1c}' <= c <= ' '
    || c in {'\U{85}', '\U{a0}', '\U{1680}', '\U{2028}', '\U{2029}', '\U{202f}', '\U{205f}', '\U{3000}'}
    || '\U{2000}' <= c <= '\U{200a}'
  }

  // ----- Reference definitions -----

  function SkipSpace(value: string, i: nat): (k: nat)
    requires i <= |value|
    ensures i <= k <= |value|
    ensures forall j | i <= j < k :: IsSpace(value[j])
    ensures k < |value| ==> !IsSpace(value[k])
    decreases |value| - i
  {
    if i < |value| && IsSpace(value[i]) then SkipSpace(value, i + 1) else i
  }

  /** `i` is the first unescaped position from `start` on that satisfies `stop`, or the end. */
  ghost predicate FirstUnescaped(value: string, start: nat, i: nat, stop: char -> bool)
    requires start <= i <= |value|
  {
    && (i < |value| ==> stop(value[i]) && !EscapedAt(value, i))
    && forall j | start <= j < i :: !stop(value[j]) || EscapedAt(value, j)
  }

  /** The destination of a reference definition: between angle brackets up to the first unescaped
      `>`, or up to the first unescaped white space; none if nothing or no `>` is there. */
  method DefinitionDestination(text: string) returns (destination: Option<string>)
    ensures var value := text[SkipSpace(text, 0)..];
      && (destination.None? <==>
            value == [] || (value[0] == '<' && forall j | 1 <= j < |value| :: value[j] != '>' || EscapedAt(value, j)))
      && (destination.Some? && value[0] == '<' ==>
            exists end :: 1 <= end < |value| && FirstUnescaped(value, 1, end, c => c == '>')
                          && destination.value == value[1..end])
      && (destination.Some? && value[0] != '<' ==>
            exists end :: 0 <= end <= |value| && FirstUnescaped(value, 0, end, IsSpace)
                          && destination.value == value[..end])
  {
    var value := text[SkipSpace(text, 0)..];
    if value == [] {
      return None;
    }
    if value[0] == '<' {
      for index := 1 to |value|
        invariant forall j | 1 <= j < index :: value[j] != '>' || EscapedAt(value, j)
      {
        var escaped := Escaped(value, index);
        if value[index] == '>' && !escaped {
          assert FirstUnescaped(value, 1, index, c => c == '>');
          return Some(value[1..index]);
        }
      }
      return None;
    }
    var index := 0;
    while index < |value|
      invariant 0 <= index <= |value|
      invariant forall j | 0 <= j < index :: !IsSpace(value[j]) || EscapedAt(value, j)
    {
      var escaped := Escaped(value, index);
      if IsSpace(value[index]) && !escaped {
        break;
      }
      index := index + 1;
    }
    assert FirstUnescaped(value, 0, index, IsSpace);
    return Some(value[..index]);
  }

  // ----- Inline links -----

  /** Unescaped opening minus unescaped closing parentheses in `value[start..i]`. */
  function Depth(value: string, start: nat, i: nat): int
    requires start <= i <= |value|
    decreases i
  {
    if i == start then 0
    else
      Depth(value, start, i - 1)
        + (if EscapedAt(value, i - 1) then 0
           else if value[i - 1] == '(' then 1
           else if value[i - 1] == ')' then -1
           else 0)
  }

  /** The unescaped occurrences of a character in `value[start..i]`. */
  function Unescaped(value: string, start: nat, i: nat, c: char): set<nat>
    requires start <= i <= |value|
  {
    set j: nat | start <= j < i && value[j] == c && !EscapedAt(value, j)
  }

  lemma {:induction false} DepthCounts(value: string, start: nat, i: nat)
    requires start <= i <= |value|
    ensures Depth(value, start, i) == |Unescaped(value, start, i, '(')| - |Unescaped(value, start, i, ')')|
    decreases i
  {
    if start < i {
      DepthCounts(value, start, i - 1);
      OneMoreUnescaped(value, start, i - 1, '(');
      OneMoreUnescaped(value, start, i - 1, ')');
    }
  }

  lemma OneMoreUnescaped(value: string, start: nat, i: nat, c: char)
    requires start <= i < |value|
    ensures |Unescaped(value, start, i + 1, c)|
         == |Unescaped(value, start, i, c)| + if value[i] == c && !EscapedAt(value, i) then 1 else 0
  {
    var found := Unescaped(value, start, i, c);
    assert i !in found;
    assert Unescaped(value, start, i + 1, c) == if value[i] == c && !EscapedAt(value, i) then found + {i} else found;
  }

  /** A bare destination that starts at `start` ends here: outside nested parentheses, an
      unescaped `)` or white space. */
  predicate Stops(value: string, start: nat, i: nat)
    requires start <= i < |value|
  {
    !EscapedAt(value, i) && Depth(value, start, i) == 0 && (value[i] == ')' || IsSpace(value[i]))
  }

  /** An unescaped `](`. */
  predicate Opens(value: string, m: nat) {
    m + 1 < |value| && value[m] == ']' && value[m + 1] == '(' && !EscapedAt(value, m)
  }

  predicate IsBlank(c: char) {
    c == ' ' || c == '\t'
  }

  function SkipBlanks(value: string, i: nat): (k: nat)
    requires i <= |value|
    ensures i <= k <= |value|
    ensures forall j | i <= j < k :: IsBlank(value[j])
    ensures k < |value| ==> !IsBlank(value[k])
    decreases |value| - i
  {
    if i < |value| && IsBlank(value[i]) then SkipBlanks(value, i + 1) else i
  }

  /** An extracted link: the position of its `](`, and its destination `value[start..end]`. */
  datatype Span = Span(marker: nat, start: nat, end: nat)

  ghost predicate AngleSpan(value: string, s: Span)
    requires Opens(value, s.marker)
  {
    var open := SkipBlanks(value, s.marker + 2);
    && open < |value| && value[open] == '<'
    && s.start == open + 1 <= s.end < |value|
    && FirstUnescaped(value, s.start, s.end, c => c == '>')
  }

  predicate BareSpan(value: string, s: Span)
    requires Opens(value, s.marker)
  {
    && s.start == SkipBlanks(value, s.marker + 2) < |value| && value[s.start] != '<'
    && s.start <= s.end <= |value|
    && (s.end < |value| ==> Stops(value, s.start, s.end))
    && forall i | s.start <= i < s.end :: !Stops(value, s.start, i)
  }

  ghost predicate SpanOk(value: string, s: Span) {
    Opens(value, s.marker) && (AngleSpan(value, s) || BareSpan(value, s))
  }

  /** `](` at `m` starts a link: something follows its blanks, and an opening `<` has a closing `>`. */
  predicate StartsLink(value: string, m: nat) {
    && Opens(value, m)
    && var open := SkipBlanks(value, m + 2);
       open < |value|
       && (value[open] == '<' ==> exists j :: open < j < |value| && value[j] == '>' && !EscapedAt(value, j))
  }

  /** Position `m` is where a span starts or lies within one. */
  predicate Taken(spans: seq<Span>, m: nat) {
    exists k :: 0 <= k < |spans| && spans[k].marker <= m < spans[k].end
  }

  predicate InOrder(spans: seq<Span>) {
    && (forall k | 0 <= k < |spans| :: spans[k].marker < spans[k].start <= spans[k].end)
    && (forall k, m | 0 <= k < m < |spans| :: spans[k].end <= spans[m].marker)
  }

  /** While a bare destination has not ended, its unescaped parentheses never close more than they open. */
  lemma {:induction false} DepthNeverNegative(value: string, start: nat, i: nat)
    requires start <= i <= |value| && forall j | start <= j < i :: !Stops(value, start, j)
    ensures Depth(value, start, i) >= 0
    decreases i
  {
    if start < i {
      DepthNeverNegative(value, start, i - 1);
      assert !Stops(value, start, i - 1);
    }
  }

  /** In every extracted bare destination the parentheses are balanced from the left, and fully
      balanced unless the text ends inside it. */
  lemma BareSpansBalance(value: string, s: Span, i: nat)
    requires Opens(value, s.marker) && BareSpan(value, s) && s.start <= i <= s.end
    ensures Depth(value, s.start, i) >= 0
    ensures i < s.end && !EscapedAt(value, i) && (value[i] == ')' || IsSpace(value[i])) ==> Depth(value, s.start, i) > 0
    ensures s.end < |value| ==>
              Depth(value, s.start, s.end) == 0 && !EscapedAt(value, s.end) && (value[s.end] == ')' || IsSpace(value[s.end]))
  {
    DepthNeverNegative(value, s.start, i);
    if i < s.end {
      assert !Stops(value, s.start, i);
    }
  }

  /** Finds the first `](` at or after `cursor`; the length of the text if there is none. */
  method FindMarker(value: string, cursor: nat) returns (marker: nat)
    ensures marker >= cursor || marker == |value|
    ensures marker < |value| ==> marker + 1 < |value| && value[marker] == ']' && value[marker + 1] == '('
    ensures marker <= |value|
    ensures forall m | cursor <= m < marker && m + 1 < |value| :: !(value[m] == ']' && value[m + 1] == '(')
  {
    marker := cursor;
    while marker + 1 < |value|
      invariant forall m | cursor <= m < marker && m + 1 < |value| :: !(value[m] == ']' && value[m + 1] == '(')
      invariant marker >= cursor
      decreases |value| - marker
    {
      if value[marker] == ']' && value[marker + 1] == '(' {
        return;
      }
      marker := marker + 1;
    }
    marker := |value|;
  }

  /** The forward scan of a bare destination, which steps over a backslash and the character after
      it, visits exactly the positions that counting backslashes calls unescaped. */
  method ScanBare(value: string, start: nat) returns (end: nat, ghost visited: set<nat>)
    requires start < |value| && !EscapedAt(value, start)
    ensures start <= end <= |value|
    ensures end < |value| ==> Stops(value, start, end)
    ensures end < |value| ==>
              Depth(value, start, end) == 0 && !EscapedAt(value, end) && (value[end] == ')' || IsSpace(value[end]))
    ensures forall i | start <= i < end :: !Stops(value, start, i)
    ensures forall i | start <= i < end && !EscapedAt(value, i) && (value[i] == ')' || IsSpace(value[i])) ::
              Depth(value, start, i) != 0
    ensures visited == set i: nat | start <= i < end && !EscapedAt(value, i)
  {
    var cursor := start;
    var nested := 0;
    visited := {};
    while cursor < |value|
      invariant start <= cursor <= |value| + 1
      invariant cursor <= |value| ==> !EscapedAt(value, cursor) && nested == Depth(value, start, cursor) >= 0
      invariant forall i | start <= i < cursor && i < |value| :: !Stops(value, start, i)
      invariant visited == set i: nat | start <= i < cursor && i < |value| && !EscapedAt(value, i)
      decreases |value| + 1 - cursor
    {
      var character := value[cursor];
      ghost var before := cursor;
      if character == '\\' {
        if cursor + 1 < |value| {
          assert EscapedAt(value, cursor + 1);
          assert Depth(value, start, cursor + 2) == Depth(value, start, cursor + 1) == Depth(value, start, cursor);
        }
        cursor := cursor + 2;
      } else {
        if character == '(' {
          nested := nested + 1;
        } else if character == ')' {
          if nested == 0 {
            break;
          }
          nested := nested - 1;
        } else if IsSpace(character) && nested == 0 {
          break;
        }
        cursor := cursor + 1;
      }
      visited := visited + {before};
    }
    end := if cursor < |value| then cursor else |value|;
    forall i | start <= i < end && !EscapedAt(value, i) && (value[i] == ')' || IsSpace(value[i]))
      ensures Depth(value, start, i) != 0
    {
      assert !Stops(value, start, i);
    }
  }

  /** Reads the destination that follows the unescaped `](` at `marker`, if there is one, and says
      where to go on looking. */
  method ReadLink(value: string, marker: nat) returns (link: Option<Span>, cursor: nat)
    requires Opens(value, marker)
    ensures marker + 2 <= cursor <= |value|
    ensures link.Some? ==>
              && link.value.marker == marker < link.value.start <= link.value.end <= cursor
              && SpanOk(value, link.value)
    ensures forall m: nat | StartsLink(value, m) && marker <= m < cursor :: link.Some? && m < link.value.end
  {
    cursor := marker + 2;
    while cursor < |value| && IsBlank(value[cursor])
      invariant marker + 2 <= cursor <= |value|
      invariant SkipBlanks(value, cursor) == SkipBlanks(value, marker + 2)
      invariant forall j | marker + 2 <= j < cursor :: IsBlank(value[j])
    {
      cursor := cursor + 1;
    }
    if cursor == |value| {
      return None, cursor;
    }
    if value[cursor] == '<' {
      var end := FindAngleEnd(value, cursor + 1);
      if end < |value| {
        return Some(Span(marker, cursor + 1, end)), end + 1;
      }
      return None, cursor;
    }
    assert !EscapedAt(value, cursor);
    var end, _ := ScanBare(value, cursor);
    return Some(Span(marker, cursor, end)), end;
  }

  method FindAngleEnd(value: string, start: nat) returns (end: nat)
    requires start <= |value|
    ensures start <= end <= |value| && FirstUnescaped(value, start, end, c => c == '>')
  {
    end := start;
    var escaped := Escaped(value, end);
    while end < |value| && (value[end] != '>' || escaped)
      invariant start <= end <= |value|
      invariant escaped == EscapedAt(value, end)
      invariant forall j | start <= j < end :: value[j] != '>' || EscapedAt(value, j)
    {
      end := end + 1;
      escaped := Escaped(value, end);
    }
  }

  /** Each destination is the text of its span. */
  ghost predicate AreTexts(value: string, destinations: seq<string>, spans: seq<Span>) {
    && |destinations| == |spans|
    && forall k | 0 <= k < |spans| ::
         SpanOk(value, spans[k]) && destinations[k] == value[spans[k].start..spans[k].end]
  }

  /** The destinations extracted so far, with no link before `cursor` missed. */
  ghost predicate Extracted(value: string, destinations: seq<string>, spans: seq<Span>, cursor: nat) {
    && AreTexts(value, destinations, spans) && InOrder(spans)
    && (spans != [] ==> spans[|spans| - 1].end <= cursor)
    && (forall m: nat | StartsLink(value, m) && m < cursor :: Taken(spans, m))
  }

  lemma TakenLasts(spans: seq<Span>, s: Span, m: nat)
    requires Taken(spans, m) || s.marker <= m < s.end
    ensures Taken(spans + [s], m)
  {
    if Taken(spans, m) {
      var k :| 0 <= k < |spans| && spans[k].marker <= m < spans[k].end;
      assert (spans + [s])[k] == spans[k];
    } else {
      assert (spans + [s])[|spans|] == s;
    }
  }

  lemma OneMoreText(value: string, destinations: seq<string>, spans: seq<Span>, s: Span)
    requires AreTexts(value, destinations, spans) && SpanOk(value, s)
    ensures AreTexts(value, destinations + [value[s.start..s.end]], spans + [s])
  {
  }

  lemma OneMoreInOrder(spans: seq<Span>, s: Span)
    requires InOrder(spans) && s.marker < s.start <= s.end
    requires spans != [] ==> spans[|spans| - 1].end <= s.marker
    ensures InOrder(spans + [s])
  {
  }

  /** Looking further without finding a link. */
  lemma ExtractedSkips(value: string, destinations: seq<string>, spans: seq<Span>, cursor: nat, next: nat)
    requires Extracted(value, destinations, spans, cursor) && cursor <= next
    requires forall m: nat | cursor <= m < next :: !StartsLink(value, m)
    ensures Extracted(value, destinations, spans, next)
  {
  }

  lemma ExtractedOneMore(value: string, destinations: seq<string>, spans: seq<Span>, s: Span, next: nat)
    requires Extracted(value, destinations, spans, s.marker)
    requires SpanOk(value, s) && s.marker < s.start <= s.end <= next
    requires forall m: nat | StartsLink(value, m) && s.marker <= m < next :: m < s.end
    ensures Extracted(value, destinations + [value[s.start..s.end]], spans + [s], next)
  {
    OneMoreText(value, destinations, spans, s);
    OneMoreInOrder(spans, s);
    forall m: nat | StartsLink(value, m) && m < next ensures Taken(spans + [s], m) {
      TakenLasts(spans, s, m);
    }
  }

  /** `destinations` are the texts of `spans`, which lie in order without overlapping, each after an
      unescaped `](` and blanks, and miss no link that starts outside all of them. */
  ghost predicate IsExtraction(value: string, destinations: seq<string>, spans: seq<Span>) {
    && AreTexts(value, destinations, spans) && InOrder(spans)
    && forall m: nat | StartsLink(value, m) :: Taken(spans, m)
  }

  /** Where a link's destination begins: an unescaped `](` at `m`, blanks, and something else at `b`. */
  predicate LeadsTo(value: string, m: nat, b: nat) {
    && m + 2 <= b < |value| && value[m] == ']' && value[m + 1] == '(' && !EscapedAt(value, m)
    && (forall j | m + 2 <= j < b :: value[j] == ' ' || value[j] == '\t')
    && value[b] != ' ' && value[b] != '\t'
  }

  /** A destination stands after such a beginning: bare, or between `<` and the first unescaped `>`. */
  predicate Delimited(value: string, s: Span) {
    || (LeadsTo(value, s.marker, s.start) && value[s.start] != '<')
    || (s.start > 0 && LeadsTo(value, s.marker, s.start - 1) && value[s.start - 1] == '<'
        && s.end < |value| && value[s.end] == '>' && !EscapedAt(value, s.end)
        && forall j | s.start <= j < s.end && value[j] == '>' :: EscapedAt(value, j))
  }

  lemma SpansAreDelimited(value: string, s: Span)
    requires SpanOk(value, s)
    ensures Delimited(value, s)
  {
  }

  /** The beginning is that of a link: not a `<` without a `>`. */
  predicate Links(value: string, m: nat, b: nat) {
    && LeadsTo(value, m, b)
    && (value[b] == '<' ==> exists j :: b < j < |value| && value[j] == '>' && !EscapedAt(value, j))
  }

  lemma LinksStart(value: string, m: nat, b: nat)
    requires Links(value, m, b)
    ensures StartsLink(value, m)
  {
    SkipsTo(value, m + 2, b);
  }

  /** Every extracted destination is so delimited, and every link begins one or lies within one. */
  lemma LinksExplained(value: string, destinations: seq<string>, spans: seq<Span>)
    requires IsExtraction(value, destinations, spans)
    ensures forall k | 0 <= k < |spans| :: Delimited(value, spans[k])
    ensures forall m: nat, b: nat | Links(value, m, b) :: exists i :: 0 <= i < |spans| && spans[i].marker <= m < spans[i].end
  {
    forall k | 0 <= k < |spans| ensures Delimited(value, spans[k]) {
      SpansAreDelimited(value, spans[k]);
    }
    forall m: nat, b: nat | Links(value, m, b) ensures Taken(spans, m) {
      LinksStart(value, m, b);
    }
  }

  lemma {:induction false} SkipsTo(value: string, i: nat, b: nat)
    requires i <= b < |value| && (forall j | i <= j < b :: IsBlank(value[j])) && !IsBlank(value[b])
    ensures SkipBlanks(value, i) == b
    decreases b - i
  {
    if i < b {
      SkipsTo(value, i + 1, b);
    }
  }

  /** That description leaves no choice: a text has only one extraction. */
  lemma ExtractionIsUnique(value: string, d: seq<string>, s: seq<Span>, e: seq<string>, t: seq<Span>)
    requires IsExtraction(value, d, s) && IsExtraction(value, e, t)
    ensures s == t && d == e
  {
    SamePrefix(value, d, s, e, t, |s|);
    if |s| < |t| {
      SpanIsNotLate(value, e, t, d, s, |s|);
    }
  }

  lemma {:induction false} SamePrefix(value: string, d: seq<string>, s: seq<Span>, e: seq<string>, t: seq<Span>, k: nat)
    requires IsExtraction(value, d, s) && IsExtraction(value, e, t) && k <= |s|
    ensures k <= |t| && s[..k] == t[..k]
    decreases k
  {
    if k > 0 {
      SamePrefix(value, d, s, e, t, k - 1);
      SameSpan(value, d, s, e, t, k - 1);
      PrefixGrows(s, t, k - 1);
    }
  }

  lemma SameSpan(value: string, d: seq<string>, s: seq<Span>, e: seq<string>, t: seq<Span>, k: nat)
    requires IsExtraction(value, d, s) && IsExtraction(value, e, t)
    requires k < |s| && k <= |t| && s[..k] == t[..k]
    ensures k < |t| && s[k] == t[k]
  {
    SpanIsNotLate(value, d, s, e, t, k);
    SpanIsNotLate(value, e, t, d, s, k);
    SameMarkerSameSpan(value, s[k], t[k]);
  }

  lemma PrefixGrows(s: seq<Span>, t: seq<Span>, k: nat)
    requires k < |s| && k < |t| && s[..k] == t[..k] && s[k] == t[k]
    ensures s[..k + 1] == t[..k + 1]
  {
    assert s[..k + 1] == s[..k] + [s[k]] && t[..k + 1] == t[..k] + [t[k]];
  }

  /** Where two extractions agree so far, the second has its next span no later than the first. */
  lemma SpanIsNotLate(value: string, d: seq<string>, s: seq<Span>, e: seq<string>, t: seq<Span>, k: nat)
    requires IsExtraction(value, d, s) && IsExtraction(value, e, t)
    requires k < |s| && k <= |t| && s[..k] == t[..k]
    ensures k < |t| && t[k].marker <= s[k].marker
  {
    SpanStartsLink(value, s[k]);
    TakenByNext(s, t, k);
  }

  lemma TakenByNext(s: seq<Span>, t: seq<Span>, k: nat)
    requires InOrder(s) && InOrder(t)
    requires k < |s| && k <= |t| && s[..k] == t[..k] && Taken(t, s[k].marker)
    ensures k < |t| && t[k].marker <= s[k].marker
  {
    var j :| 0 <= j < |t| && t[j].marker <= s[k].marker < t[j].end;
    assert forall i | 0 <= i < k :: t[i] == t[..k][i] == s[..k][i] == s[i];
    assert forall i | 0 <= i < k :: s[i].end <= s[k].marker;
    assert j > k ==> t[k].end <= t[j].marker;
  }

  lemma SpanStartsLink(value: string, s: Span)
    requires SpanOk(value, s)
    ensures StartsLink(value, s.marker)
  {
  }

  lemma SameMarkerSameSpan(value: string, s: Span, t: Span)
    requires SpanOk(value, s) && SpanOk(value, t) && s.marker == t.marker
    ensures s == t
  {
  }

  /** Extracts the destinations of a line's inline links. */
  method InlineDestinations(value: string) returns (destinations: seq<string>)
    ensures exists spans :: IsExtraction(value, destinations, spans)
  {
    destinations := [];
    ghost var spans: seq<Span> := [];
    var cursor := 0;
    while true
      invariant cursor <= |value| && Extracted(value, destinations, spans, cursor)
      decreases |value| - cursor
    {
      var marker := FindMarker(value, cursor);
      ExtractedSkips(value, destinations, spans, cursor, marker);
      if marker == |value| {
        assert IsExtraction(value, destinations, spans);
        return;
      }
      var escaped := Escaped(value, marker);
      if escaped {
        ExtractedSkips(value, destinations, spans, marker, marker + 2);
        cursor := marker + 2;
        continue;
      }
      var link, next := ReadLink(value, marker);
      if link.Some? {
        var s := link.value;
        ExtractedOneMore(value, destinations, spans, s, next);
        destinations, spans := destinations + [value[s.start..s.end]], spans + [s];
      } else {
        ExtractedSkips(value, destinations, spans, marker, next);
      }
      cursor := next;
    }
  }
}
