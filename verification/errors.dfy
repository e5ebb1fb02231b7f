/**
 * The service's error vocabulary (error/error.go): the six sentinel errors
 * and the `ErrorMessage` accumulator.
 */
module Errors {
  import opened Wrappers

  /** The sentinel errors; each constructor is one package-level `errors.New` value. */
  datatype CategoryError =
    | CategoryAlreadyExists
    | CategoryDoesntExist
    | CategoryDoesntBelongToUser
    | AtLeastOneFieldIsRequired
    | CategoryNameLengthError
    | CategoryDescriptionLengthError

  /** The text each sentinel was created with. */
  function Message(e: CategoryError): string
  {
    match e
    case CategoryAlreadyExists => "category with this name already exists"
    case CategoryDoesntExist => "category with this id doesn't exists"
    case CategoryDoesntBelongToUser => "category with this id doesn't belong to user"
    case AtLeastOneFieldIsRequired => "at least one field for updating category is required"
    case CategoryNameLengthError => "category name must be from 3 to 128 symbols long"
    case CategoryDescriptionLengthError => "category description must be less than 256 symbols long"
  }

  /** Distinct sentinels carry distinct texts, so a message identifies its error. */
  lemma MessageIdentifiesError(a: CategoryError, b: CategoryError)
    requires a != b
    ensures Message(a) != Message(b)
  {
    match a
    case CategoryAlreadyExists => assert |Message(a)| == 38;
    case CategoryDoesntExist => assert |Message(a)| == 36;
    case CategoryDoesntBelongToUser => assert |Message(a)| == 44;
    case AtLeastOneFieldIsRequired => assert |Message(a)| == 52;
    case CategoryNameLengthError => assert |Message(a)| == 48;
    case CategoryDescriptionLengthError => assert |Message(a)| == 55;
  }

  /** The separator `Append` puts between two messages. */
  const Separator := "; "

  /** The message after appending `s` to `m`. */
  function Appended(m: string, s: string): string
  {
    if m == "" then s else m + Separator + s
  }

  /** The message accumulated by appending each of `msgs`, in order, to an empty one. */
  function Accumulated(msgs: seq<string>): string
  {
    if msgs == [] then "" else Appended(Accumulated(msgs[..|msgs| - 1]), msgs[|msgs| - 1])
  }

  /** The messages joined by the separator (none for an empty list). */
  function Joined(msgs: seq<string>): string
  {
    if msgs == [] then ""
    else if |msgs| == 1 then msgs[0]
    else msgs[0] + Separator + Joined(msgs[1..])
  }

  /** `msgs` with its leading empty messages dropped. */
  function DropLeadingEmpty(msgs: seq<string>): (rest: seq<string>)
    ensures rest == [] || rest[0] != ""
  {
    if msgs == [] || msgs[0] != "" then msgs else DropLeadingEmpty(msgs[1..])
  }

  /** Appending never shortens the message: the old one is a prefix of the new one. */
  lemma AppendedExtends(m: string, s: string)
    ensures m <= Appended(m, s)
    ensures |Appended(m, s)| == if m == "" then |s| else |m| + 2 + |s|
  {
  }

  lemma {:induction false} JoinedSnoc(msgs: seq<string>, s: string)
    requires msgs != []
    ensures Joined(msgs + [s]) == Joined(msgs) + Separator + s
  {
    if |msgs| == 1 {
      assert msgs + [s] == [msgs[0], s];
      assert Joined([s]) == s;
    } else {
      assert (msgs + [s])[1..] == msgs[1..] + [s];
      JoinedSnoc(msgs[1..], s);
    }
  }

  /**
   * Accumulating a list of messages joins them with "; ", except that empty
   * messages appended while the accumulator is still empty leave no trace.
   */
  lemma {:induction false} AccumulatedIsJoined(msgs: seq<string>)
    ensures Accumulated(msgs) == Joined(DropLeadingEmpty(msgs))
  {
    if msgs != [] {
      var init, last := msgs[..|msgs| - 1], msgs[|msgs| - 1];
      assert msgs == init + [last];
      AccumulatedIsJoined(init);
      var rest := DropLeadingEmpty(init);
      if rest == [] {
        AllEmptyWhenNothingLeft(init);
        DropLeadingEmptySnocEmpty(init, last);
      } else {
        DropLeadingEmptySnoc(init, last);
        assert Joined(rest) != "" by { JoinedStartsWithHead(rest); }
        JoinedSnoc(rest, last);
      }
    }
  }

  lemma JoinedStartsWithHead(msgs: seq<string>)
    requires msgs != []
    ensures msgs[0] <= Joined(msgs)
  {
  }

  lemma {:induction false} AllEmptyWhenNothingLeft(msgs: seq<string>)
    requires DropLeadingEmpty(msgs) == []
    ensures forall i :: 0 <= i < |msgs| ==> msgs[i] == ""
  {
    if msgs != [] {
      AllEmptyWhenNothingLeft(msgs[1..]);
      forall i | 0 <= i < |msgs| ensures msgs[i] == "" {
        if i > 0 { assert msgs[i] == msgs[1..][i - 1]; }
      }
    }
  }

  lemma {:induction false} DropLeadingEmptySnocEmpty(msgs: seq<string>, s: string)
    requires DropLeadingEmpty(msgs) == []
    ensures DropLeadingEmpty(msgs + [s]) == if s == "" then [] else [s]
  {
    if msgs == [] {
      assert msgs + [s] == [s];
      if s == "" {
        assert [s][1..] == [];
      }
    } else {
      assert msgs[0] == "";
      var longer := msgs + [s];
      assert longer[0] == "" && longer[1..] == msgs[1..] + [s];
      assert DropLeadingEmpty(longer) == DropLeadingEmpty(longer[1..]);
      DropLeadingEmptySnocEmpty(msgs[1..], s);
    }
  }

  lemma {:induction false} DropLeadingEmptySnoc(msgs: seq<string>, s: string)
    requires DropLeadingEmpty(msgs) != []
    ensures DropLeadingEmpty(msgs + [s]) == DropLeadingEmpty(msgs) + [s]
  {
    if msgs[0] == "" {
      assert (msgs + [s])[1..] == msgs[1..] + [s];
      DropLeadingEmptySnoc(msgs[1..], s);
    }
  }

  /** The accumulated message is empty exactly when every appended message was empty. */
  lemma {:induction false} AccumulatedEmptyIff(msgs: seq<string>)
    ensures Accumulated(msgs) == "" <==> forall i :: 0 <= i < |msgs| ==> msgs[i] == ""
  {
    if msgs != [] {
      var init := msgs[..|msgs| - 1];
      AccumulatedEmptyIff(init);
      assert forall i :: 0 <= i < |init| ==> init[i] == msgs[i];
    }
  }

  /** What `ToError` builds: an error whose text is `format` run through fmt's formatter. */
  datatype FormattedError = Errorf(format: string)

  /** A growing `"; "`-separated message, the pointer receiver of Append and ToError. */
  class ErrorMessage {
    var text: string

    constructor ()
      ensures text == ""
    {
      text := "";
    }

    /** Appends `errMessage`, preceded by the separator when the message is already non-empty. */
    method Append(errMessage: string)
      modifies this
      ensures text == Appended(old(text), errMessage)
      ensures old(text) <= text
    {
      if text != "" {
        text := text + Separator;
      }
      text := text + errMessage;
    }

    /** nil for an empty message, otherwise an error formatted from the message; the message is left as it is. */
    method ToError() returns (err: Option<FormattedError>)
      ensures err.None? <==> text == ""
      ensures err.Some? ==> err.value.format == text
    {
      if text == "" {
        return None;
      }
      return Some(Errorf(text));
    }
  }
}
