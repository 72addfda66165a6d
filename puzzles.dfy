/**
 * The puzzle collection page: puzzles carry one of four difficulties, the
 * page offers a difficulty filter (or "All"), shows the matching puzzles in
 * their original order, and an empty-state message when none match.
 */
module Puzzles {

  datatype Difficulty = Easy | Experienced | Advanced | Pro

  /** The filter selection: a difficulty, or "All". */
  datatype Selection = All | Only(difficulty: Difficulty)

  datatype Puzzle = Puzzle(
    id: string,
    title: string,
    description: string,
    difficulty: Difficulty,
    creator: string,
    solvedCount: int)

  /** The filter buttons, in display order. */
  const DIFFICULTY_OPTIONS: seq<Selection> := [All, Only(Easy), Only(Experienced), Only(Advanced), Only(Pro)]

  /** Whether a puzzle passes the selection. */
  predicate Matches(selection: Selection, puzzle: Puzzle)
  {
    selection.All? || puzzle.difficulty == selection.difficulty
  }

  /** `puzzles.filter(p => p.difficulty === d)`. */
  function OfDifficulty(puzzles: seq<Puzzle>, d: Difficulty): (r: seq<Puzzle>)
    ensures |r| <= |puzzles|
    ensures forall p :: p in r <==> p in puzzles && p.difficulty == d
  {
    if puzzles == [] then []
    else if puzzles[0].difficulty == d then [puzzles[0]] + OfDifficulty(puzzles[1..], d)
    else OfDifficulty(puzzles[1..], d)
  }

  /** `filteredPuzzles`: the whole list for "All", otherwise the puzzles of the chosen difficulty. */
  function FilteredPuzzles(puzzles: seq<Puzzle>, selection: Selection): (r: seq<Puzzle>)
    ensures selection == All ==> r == puzzles
    ensures forall p :: p in r <==> p in puzzles && Matches(selection, p)
  {
    if selection == All then puzzles else OfDifficulty(puzzles, selection.difficulty)
  }

  /** Every index of `s` shifted up by one. */
  function Shift(s: seq<nat>): (r: seq<nat>)
    ensures |r| == |s|
    ensures forall k :: 0 <= k < |s| ==> r[k] == s[k] + 1
  {
    if s == [] then [] else [s[0] + 1] + Shift(s[1..])
  }

  /**
   * `r` is `puzzles` read at the strictly increasing positions `idx`, and
   * those positions are exactly the ones whose puzzle passes `selection`.
   */
  ghost predicate ReadAtMatchingPositions(puzzles: seq<Puzzle>, selection: Selection, r: seq<Puzzle>, idx: seq<nat>)
  {
    |idx| == |r| &&
    (forall k :: 0 <= k < |idx| ==> idx[k] < |puzzles| && r[k] == puzzles[idx[k]]) &&
    Increasing(idx) &&
    (forall i: nat :: i in idx <==> i < |puzzles| && Matches(selection, puzzles[i]))
  }

  ghost predicate Increasing(s: seq<nat>)
  {
    forall k, l :: 0 <= k < l < |s| ==> s[k] < s[l]
  }

  /** Shifting keeps the order, and a leading 0 can go in front of a shifted run. */
  lemma ShiftIncreasing(s: seq<nat>)
    requires Increasing(s)
    ensures Increasing(Shift(s)) && Increasing([0] + Shift(s))
  {
    var t := [0] + Shift(s);
    forall k, l | 0 <= k < l < |t| ensures t[k] < t[l] {
      assert t[l] == s[l - 1] + 1;
      if k > 0 {
        assert t[k] == s[k - 1] + 1;
      }
    }
  }

  lemma ShiftMembers(s: seq<nat>)
    ensures forall i: nat :: i in Shift(s) <==> i > 0 && i - 1 in s
  {
    var shifted := Shift(s);
    forall i: nat ensures i in shifted <==> i > 0 && i - 1 in s {
      if i in shifted {
        var k :| 0 <= k < |shifted| && shifted[k] == i;
        assert s[k] == i - 1;
      }
      if i > 0 && i - 1 in s {
        var k :| 0 <= k < |s| && s[k] == i - 1;
        assert shifted[k] == i;
      }
    }
  }

  /** Reading at shifted positions past a new first element, which is read at 0. */
  lemma ConsReadAt<T>(x: T, tail: seq<T>, r: seq<T>, idx: seq<nat>)
    requires |idx| == |r|
    requires forall k :: 0 <= k < |idx| ==> idx[k] < |tail| && r[k] == tail[idx[k]]
    ensures var positions := [0] + Shift(idx);
            forall k :: 0 <= k < |positions| ==>
              positions[k] < |tail| + 1 && ([x] + r)[k] == ([x] + tail)[positions[k]]
  {
    var positions := [0] + Shift(idx);
    forall k | 0 <= k < |positions|
      ensures positions[k] < |tail| + 1 && ([x] + r)[k] == ([x] + tail)[positions[k]]
    {
      if k > 0 {
        var j := idx[k - 1];
        assert positions[k] == j + 1;
        assert ([x] + tail)[j + 1] == tail[j];
        assert ([x] + r)[k] == r[k - 1];
      }
    }
  }

  /** The positions passing the selection, once one puzzle is put in front. */
  lemma MembersCons(p: Puzzle, tail: seq<Puzzle>, selection: Selection, idx: seq<nat>)
    requires forall i: nat :: i in idx <==> i < |tail| && Matches(selection, tail[i])
    ensures Matches(selection, p) ==>
              forall i: nat :: i in [0] + Shift(idx) <==> i < |tail| + 1 && Matches(selection, ([p] + tail)[i])
    ensures !Matches(selection, p) ==>
              forall i: nat :: i in Shift(idx) <==> i < |tail| + 1 && Matches(selection, ([p] + tail)[i])
  {
    ShiftMembers(idx);
    var puzzles := [p] + tail;
    forall i: nat | 0 < i < |puzzles|
      ensures puzzles[i] == tail[i - 1]
    {
    }
  }

  /** Reading at shifted positions past a new first element that is not read. */
  lemma ConsShiftReadAt<T>(x: T, tail: seq<T>, r: seq<T>, idx: seq<nat>)
    requires |idx| == |r|
    requires forall k :: 0 <= k < |idx| ==> idx[k] < |tail| && r[k] == tail[idx[k]]
    ensures forall k :: 0 <= k < |Shift(idx)| ==> Shift(idx)[k] < |tail| + 1 && r[k] == ([x] + tail)[Shift(idx)[k]]
  {
    forall k | 0 <= k < |idx|
      ensures Shift(idx)[k] < |tail| + 1 && r[k] == ([x] + tail)[Shift(idx)[k]]
    {
      assert ([x] + tail)[idx[k] + 1] == tail[idx[k]];
    }
  }

  /** Positions for the tail carry over to a list with one more, dropped, puzzle in front. */
  lemma PositionsSkip(p: Puzzle, tail: seq<Puzzle>, selection: Selection, r: seq<Puzzle>, idx: seq<nat>)
    requires !Matches(selection, p)
    requires ReadAtMatchingPositions(tail, selection, r, idx)
    ensures ReadAtMatchingPositions([p] + tail, selection, r, Shift(idx))
  {
    ShiftIncreasing(idx);
    MembersCons(p, tail, selection, idx);
    ConsShiftReadAt(p, tail, r, idx);
  }

  /** Positions for the tail carry over to a list with one more, kept, puzzle in front. */
  lemma PositionsKeep(p: Puzzle, tail: seq<Puzzle>, selection: Selection, r: seq<Puzzle>, idx: seq<nat>)
    requires Matches(selection, p)
    requires ReadAtMatchingPositions(tail, selection, r, idx)
    ensures ReadAtMatchingPositions([p] + tail, selection, [p] + r, [0] + Shift(idx))
  {
    ShiftIncreasing(idx);
    MembersCons(p, tail, selection, idx);
    ConsReadAt(p, tail, r, idx);
  }

  /**
   * The filter keeps order and drops nothing: the result is the input read
   * at a strictly increasing run of positions, exactly the positions of the
   * puzzles of difficulty `d`; so its length is the number of those.
   */
  lemma {:induction false} OfDifficultyPositions(puzzles: seq<Puzzle>, d: Difficulty) returns (idx: seq<nat>)
    ensures ReadAtMatchingPositions(puzzles, Only(d), OfDifficulty(puzzles, d), idx)
  {
    if puzzles == [] {
      idx := [];
    } else {
      var rest := OfDifficultyPositions(puzzles[1..], d);
      assert puzzles == [puzzles[0]] + puzzles[1..];
      if puzzles[0].difficulty == d {
        PositionsKeep(puzzles[0], puzzles[1..], Only(d), OfDifficulty(puzzles[1..], d), rest);
        idx := [0] + Shift(rest);
      } else {
        PositionsSkip(puzzles[0], puzzles[1..], Only(d), OfDifficulty(puzzles[1..], d), rest);
        idx := Shift(rest);
      }
    }
  }

  /** The same for the page's filter; with "All" every position is kept. */
  lemma FilteredPositions(puzzles: seq<Puzzle>, selection: Selection) returns (idx: seq<nat>)
    ensures ReadAtMatchingPositions(puzzles, selection, FilteredPuzzles(puzzles, selection), idx)
  {
    if selection == All {
      idx := seq(|puzzles|, k => k);
      assert forall i: nat :: i < |puzzles| ==> idx[i] == i;
    } else {
      idx := OfDifficultyPositions(puzzles, selection.difficulty);
    }
  }

  /** The empty-state message shows exactly when no puzzle matches the selection. */
  function ShowsEmptyState(puzzles: seq<Puzzle>, selection: Selection): (shown: bool)
    ensures shown <==> forall i :: 0 <= i < |puzzles| ==> !Matches(selection, puzzles[i])
  {
    var r := FilteredPuzzles(puzzles, selection);
    if |r| > 0 then
      assert r[0] in r;
      false
    else
      true
  }

  /** `getDifficultyColor`: a badge class for every difficulty. */
  function DifficultyColor(d: Difficulty): (badge: string)
    ensures badge != ""
  {
    match d
    case Easy => "bg-secondary text-secondary-foreground"
    case Experienced => "bg-accent text-accent-foreground"
    case Advanced => "bg-primary text-primary-foreground"
    case Pro => "bg-destructive text-destructive-foreground"
  }

  /** The four difficulties get four different, non-empty badge classes. */
  lemma DifficultyColorsDistinct(d: Difficulty, e: Difficulty)
    ensures DifficultyColor(d) != ""
    ensures d != e ==> DifficultyColor(d) != DifficultyColor(e)
  {
  }

  /** The filter offers every selection exactly once: "All", then Easy, Experienced, Advanced and Pro. */
  lemma OptionsCoverSelections(selection: Selection)
    ensures |DIFFICULTY_OPTIONS| == 5 && DIFFICULTY_OPTIONS[0] == All
    ensures DIFFICULTY_OPTIONS[1..] == [Only(Easy), Only(Experienced), Only(Advanced), Only(Pro)]
    ensures selection in DIFFICULTY_OPTIONS
    ensures forall k, l :: 0 <= k < l < |DIFFICULTY_OPTIONS| ==> DIFFICULTY_OPTIONS[k] != DIFFICULTY_OPTIONS[l]
  {
    match selection
    case All => assert DIFFICULTY_OPTIONS[0] == selection;
    case Only(Easy) => assert DIFFICULTY_OPTIONS[1] == selection;
    case Only(Experienced) => assert DIFFICULTY_OPTIONS[2] == selection;
    case Only(Advanced) => assert DIFFICULTY_OPTIONS[3] == selection;
    case Only(Pro) => assert DIFFICULTY_OPTIONS[4] == selection;
  }
}
