/**
 * The puzzle creation form: six fields of component state, the edits that
 * change them, and submission, which refuses an incomplete puzzle, sends
 * the record to the `puzzles_test` table and resets the form unless the
 * insert call throws. The table itself is left abstract: the form reports
 * the record it sent, and whether the call threw is a parameter.
 */
module CreatePuzzle {
  import opened Wrappers

  const CHOICE_COUNT: nat := 6
  const DEFAULT_DIFFICULTY: string := "Easy"
  const EMPTY_CHOICES: seq<string> := ["", "", "", "", "", ""]

  /** The record handed to the insert call. */
  datatype PuzzleData = PuzzleData(
    title: string,
    description: string,
    difficulty: string,
    choices: seq<string>,
    correctChoice: int,
    explanation: string)

  /** `choices.some(c => !c)`: some choice is the empty string. */
  function SomeEmpty(choices: seq<string>): (r: bool)
    ensures r <==> exists i :: 0 <= i < |choices| && choices[i] == ""
  {
    if choices == [] then false
    else if choices[0] == "" then true
    else
      var rest := SomeEmpty(choices[1..]);
      assert forall i :: 1 <= i < |choices| ==> choices[i] == choices[1..][i - 1];
      rest
  }

  /**
   * The guard of `handleSubmit`: the title, the description or some choice
   * is empty. It passes exactly when all of them are filled in; the
   * explanation, difficulty and correct choice play no part.
   */
  function Incomplete(title: string, description: string, choices: seq<string>): (refused: bool)
    ensures !refused <==>
            title != "" && description != "" && forall i :: 0 <= i < |choices| ==> choices[i] != ""
  {
    title == "" || description == "" || SomeEmpty(choices)
  }

  /** The record the defaults make is incomplete: a fresh form cannot be submitted. */
  lemma FreshFormIncomplete()
    ensures Incomplete("", "", EMPTY_CHOICES)
    ensures SomeEmpty(EMPTY_CHOICES)
  {
    assert EMPTY_CHOICES[0] == "";
  }

  class PuzzleForm {
    var title: string
    var description: string
    var difficulty: string
    var choices: seq<string>
    var correctChoice: int
    var explanation: string

    /** The form always holds six choices. */
    ghost predicate Valid()
      reads this
    {
      |choices| == CHOICE_COUNT
    }

    /** The initial values, which submission also restores. */
    ghost predicate IsInitial()
      reads this
    {
      title == "" && description == "" && difficulty == DEFAULT_DIFFICULTY &&
      choices == EMPTY_CHOICES && correctChoice == 0 && explanation == ""
    }

    /** The six fields as the record `handleSubmit` sends. */
    function Data(): PuzzleData
      reads this
    {
      PuzzleData(title, description, difficulty, choices, correctChoice, explanation)
    }

    constructor ()
      ensures Valid() && IsInitial()
    {
      title := "";
      description := "";
      difficulty := DEFAULT_DIFFICULTY;
      choices := EMPTY_CHOICES;
      correctChoice := 0;
      explanation := "";
    }

    method SetTitle(value: string)
      requires Valid()
      modifies this
      ensures Valid()
      ensures Data() == old(Data()).(title := value)
    {
      title := value;
    }

    method SetDescription(value: string)
      requires Valid()
      modifies this
      ensures Valid()
      ensures Data() == old(Data()).(description := value)
    {
      description := value;
    }

    method SetDifficulty(value: string)
      requires Valid()
      modifies this
      ensures Valid()
      ensures Data() == old(Data()).(difficulty := value)
    {
      difficulty := value;
    }

    method SetExplanation(value: string)
      requires Valid()
      modifies this
      ensures Valid()
      ensures Data() == old(Data()).(explanation := value)
    {
      explanation := value;
    }

    /**
     * `updateChoice`: a copy of the choices with entry `index` replaced;
     * the length and every other entry stay as they were.
     */
    method UpdateChoice(index: nat, value: string)
      requires Valid() && index < CHOICE_COUNT
      modifies this
      ensures Valid()
      ensures choices[index] == value
      ensures forall j :: 0 <= j < CHOICE_COUNT && j != index ==> choices[j] == old(choices[j])
      ensures Data() == old(Data()).(choices := old(choices)[index := value])
    {
      var newChoices := choices;
      newChoices := newChoices[index := value];
      choices := newChoices;
    }

    /** `handleCorrectChoice`: only the correct choice changes. */
    method HandleCorrectChoice(index: int)
      requires Valid()
      modifies this
      ensures Valid()
      ensures Data() == old(Data()).(correctChoice := index)
    {
      correctChoice := index;
    }

    /**
     * `handleSubmit`. An incomplete form sends nothing and keeps every
     * field. Otherwise the current record is sent; if the insert call
     * does not throw, every field returns to its initial value, and if it
     * throws, every field is kept.
     */
    method HandleSubmit(insertThrows: bool) returns (sent: Option<PuzzleData>)
      requires Valid()
      modifies this
      ensures Valid()
      ensures sent.Some? <==> !Incomplete(old(title), old(description), old(choices))
      ensures sent.Some? ==> sent.value == old(Data())
      ensures sent.None? || insertThrows ==> Data() == old(Data())
      ensures sent.Some? && !insertThrows ==> IsInitial()
    {
      if title == "" || description == "" || SomeEmpty(choices) {
        return None;
      }
      var puzzleData := Data();
      sent := Some(puzzleData);
      if insertThrows {
        return;
      }
      title := "";
      description := "";
      difficulty := DEFAULT_DIFFICULTY;
      choices := EMPTY_CHOICES;
      correctChoice := 0;
      explanation := "";
    }
  }
}
