/** The tag node (Runtime/GameplayTag.cs): a heap object whose fields the
    registry updates in place, and the value of those fields. */
module GameplayTagEntity {

  /** A nullable value: `None` stands for a C# `null`. */
  datatype Option<T> = None | Some(value: T)

  /** The serialisable public fields of one tag, read at one moment. */
  datatype TagValue = TagValue(
    id: int,
    tag: string,
    depth: int,
    parentId: int,
    childrenIds: Option<seq<int>>,
    comment: string,
    inUse: bool)

  class GameplayTag {
    var id: int
    var tag: string
    var depth: int
    var parentId: int
    /** `None` while the list has never been created (the C# field stays null). */
    var childrenIds: Option<seq<int>>
    var comment: string
    var inUse: bool

    /** The current contents of this object's fields. */
    function Value(): TagValue
      reads this
    {
      TagValue(id, tag, depth, parentId, childrenIds, comment, inUse)
    }

    /** The five-argument constructor: stores what it is given, leaves the
        child list null and `inUse` false. */
    constructor (tag: string, id: int, depth: int, parentId: int, comment: string := "")
      ensures Value() == TagValue(id, tag, depth, parentId, None, comment, false)
    {
      this.id := id;
      this.tag := tag;
      this.depth := depth;
      this.parentId := parentId;
      this.childrenIds := None;
      this.comment := comment;
      this.inUse := false;
    }

    /** Appends one child id; the list must exist (a null list throws). */
    method AddChild(childId: int)
      requires childrenIds.Some?
      modifies this
      ensures childrenIds == Some(old(childrenIds.value) + [childId])
      ensures Value() == old(Value()).(childrenIds := childrenIds)
    {
      childrenIds := Some(childrenIds.value + [childId]);
    }
  }

  /** The values of a list of tags, element by element. */
  ghost function ValuesOf(ts: seq<GameplayTag>): (vs: seq<TagValue>)
    reads set t | t in ts
    ensures |vs| == |ts|
    ensures forall i :: 0 <= i < |ts| ==> vs[i] == ts[i].Value()
  {
    if ts == [] then [] else [ts[0].Value()] + ValuesOf(ts[1..])
  }
}
