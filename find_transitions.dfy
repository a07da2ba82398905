/** `bugzilla:find-transitions` with `--add-comment`: every bug found is
    given the nag comment once, and marked so that later runs skip it. */
module FindTransitions {
  import opened Bugzilla

  /** The whiteboard value that marks a bug as already flagged. */
  const InvalidTransition: string := "ocp_art_invalid_transition"

  /** The part of a bug the loop reads and changes. */
  datatype BugState = BugState(whiteboard: seq<string>, comments: seq<Comment>)

  function StateOf(bug: Bug): BugState
    reads bug
  {
    BugState(bug.whiteboard, bug.comments)
  }

  /** One iteration on one bug: unless it is marked already, add the private
      nag comment, then the mark. */
  function FlagOnce(s: BugState, nag: string): (r: BugState)
    ensures InvalidTransition in r.whiteboard
    ensures InvalidTransition in s.whiteboard ==> r == s
    ensures InvalidTransition !in s.whiteboard ==>
              r.comments == s.comments + [Comment(nag, true)] && r.whiteboard == s.whiteboard + [InvalidTransition]
  {
    if InvalidTransition !in s.whiteboard then
      BugState(s.whiteboard + [InvalidTransition], s.comments + [Comment(nag, true)])
    else
      s
  }

  /** Flagging a bug twice is flagging it once. */
  lemma FlagOnceIdempotent(s: BugState, nag: string, nag': string)
    ensures FlagOnce(FlagOnce(s, nag), nag') == FlagOnce(s, nag)
  {
  }

  /** A marked bug gets no comment; any other bug gets exactly one, the private nag. */
  lemma FlagOnceComments(s: BugState, nag: string)
    ensures InvalidTransition in s.whiteboard ==> FlagOnce(s, nag).comments == s.comments
    ensures InvalidTransition !in s.whiteboard ==>
              |FlagOnce(s, nag).comments| == |s.comments| + 1 && FlagOnce(s, nag).comments[|s.comments|] == Comment(nag, true)
  {
  }

  /** The loop over the bugs found. The same bug may occur more than once;
      its later occurrences find the mark and are skipped. */
  method FlagInvalidTransitions(bugs: seq<Bug>, addComment: bool, nag: string)
    modifies set i | 0 <= i < |bugs| :: bugs[i]
    ensures forall b :: b in bugs ==>
              StateOf(b) == if addComment then FlagOnce(old(StateOf(b)), nag) else old(StateOf(b))
    ensures forall b :: b in bugs ==> b.flags == old(b.flags)
  {
    if !addComment {
      return;
    }
    var i := 0;
    while i < |bugs|
      invariant 0 <= i <= |bugs|
      invariant forall b :: b in bugs[..i] ==> StateOf(b) == FlagOnce(old(StateOf(b)), nag)
      invariant forall b :: b in bugs && b !in bugs[..i] ==> StateOf(b) == old(StateOf(b))
      invariant forall b :: b in bugs ==> b.flags == old(b.flags)
    {
      var bug := bugs[i];
      if !bug.HasWhiteboardValue(InvalidTransition) {
        bug.AddComment(nag, true);
        bug.AddWhiteboardValue(InvalidTransition);
      }
      assert bugs[..i + 1] == bugs[..i] + [bug];
      i := i + 1;
    }
    assert bugs[..i] == bugs;
  }
}
