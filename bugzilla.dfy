/** The bug-tracker bug object the commands update. Only the effects the
    commands rely on are modelled: comments are appended, whiteboard values
    are added, and flags are appended. A bug built from an id starts with
    empty lists, which then record what the run appends; a bug returned by
    a search holds the tracker's current whiteboard, comments and flags. */
module Bugzilla {

  datatype Comment = Comment(text: string, isPrivate: bool)

  class Bug {
    const id: int
    var whiteboard: seq<string>
    var comments: seq<Comment>
    var flags: seq<string>

    /** `Bug(id=i)`: a bug not yet read from the tracker. */
    constructor (id: int)
      ensures this.id == id && whiteboard == [] && comments == [] && flags == []
    {
      this.id := id;
      whiteboard, comments, flags := [], [], [];
    }

    predicate HasWhiteboardValue(value: string)
      reads this
    {
      value in whiteboard
    }

    method AddComment(text: string, isPrivate: bool)
      modifies this
      ensures comments == old(comments) + [Comment(text, isPrivate)]
      ensures whiteboard == old(whiteboard) && flags == old(flags)
    {
      comments := comments + [Comment(text, isPrivate)];
    }

    method AddWhiteboardValue(value: string)
      modifies this
      ensures whiteboard == old(whiteboard) + [value]
      ensures comments == old(comments) && flags == old(flags)
    {
      whiteboard := whiteboard + [value];
    }

    method AddFlags(names: seq<string>)
      modifies this
      ensures flags == old(flags) + names
      ensures whiteboard == old(whiteboard) && comments == old(comments)
    {
      flags := flags + names;
    }
  }
}
