/** The Tag schema: a trimmed, lowercased name and the `usageCount` counter
    with `incrementUsage` and a `decrementUsage` that stops at zero. */
module TagModel {
  import opened Common
  import opened Text

  /** A stored tag document. */
  datatype TagRec = TagRec(
    name: string,
    description: string,
    usageCount: int,
    createdBy: Option<UserId>,
    isModerated: bool,
    moderatedBy: Option<UserId>,
    moderatedAt: Option<Time>,
    moderationReason: Option<string>,
    createdAt: Time)

  /** `new Tag({ name, createdBy })`: the `lowercase` and `trim` setters on
      the name, an empty description and a zero count. */
  function NewTag(name: string, createdBy: Option<UserId>, now: Time): TagRec {
    TagRec(Trim(Lower(name)), "", 0, createdBy, false, None, None, None, now)
  }

  function Incremented(t: TagRec): TagRec {
    t.(usageCount := t.usageCount + 1)
  }

  function Decremented(t: TagRec): TagRec {
    if t.usageCount > 0 then t.(usageCount := t.usageCount - 1) else t
  }

  /** Incrementing raises the count by exactly one and changes nothing else. */
  lemma IncrementedCount(t: TagRec)
    ensures Incremented(t).usageCount == t.usageCount + 1
    ensures Incremented(t).(usageCount := t.usageCount) == t
  {
  }

  /** Decrementing never takes a non-negative count below zero, stays at zero,
      lowers a positive count by one, and changes nothing else. */
  lemma DecrementedCount(t: TagRec)
    ensures t.usageCount >= 0 ==> Decremented(t).usageCount >= 0
    ensures t.usageCount <= 0 ==> Decremented(t) == t
    ensures t.usageCount > 0 ==> Decremented(t).usageCount == t.usageCount - 1
    ensures Decremented(t).(usageCount := t.usageCount) == t
  {
  }

  /** A decrement undoes an increment whenever the count was not negative. */
  lemma DecrementUndoesIncrement(t: TagRec)
    requires t.usageCount >= 0
    ensures Decremented(Incremented(t)) == t
  {
  }

  /** A negative count (set outside these methods) is not restored. */
  lemma NegativeCountNotRestored(t: TagRec)
    requires t.usageCount < 0
    ensures Decremented(Incremented(t)).usageCount == t.usageCount + 1
  {
  }

  /** A new tag has a zero count and a name already in its stored form. */
  lemma NewTagDefaults(name: string, createdBy: Option<UserId>, now: Time)
    ensures NewTag(name, createdBy, now).usageCount == 0
    ensures Trim(Lower(NewTag(name, createdBy, now).name)) == NewTag(name, createdBy, now).name
  {
    NormalizeIdempotent(name);
  }

  /** A loaded Mongoose tag document. */
  class Tag {
    var name: string
    var description: string
    var usageCount: int
    var createdBy: Option<UserId>
    var isModerated: bool
    var moderatedBy: Option<UserId>
    var moderatedAt: Option<Time>
    var moderationReason: Option<string>
    var createdAt: Time

    constructor Load(r: TagRec)
      ensures Record() == r
    {
      name, description, usageCount, createdBy := r.name, r.description, r.usageCount, r.createdBy;
      isModerated, moderatedBy, moderatedAt := r.isModerated, r.moderatedBy, r.moderatedAt;
      moderationReason, createdAt := r.moderationReason, r.createdAt;
    }

    function Record(): TagRec
      reads this
    {
      TagRec(name, description, usageCount, createdBy, isModerated, moderatedBy, moderatedAt,
             moderationReason, createdAt)
    }

    method IncrementUsage()
      modifies this
      ensures Record() == Incremented(old(Record()))
    {
      usageCount := usageCount + 1;
    }

    method DecrementUsage()
      modifies this
      ensures Record() == Decremented(old(Record()))
    {
      if usageCount > 0 {
        usageCount := usageCount - 1;
      }
    }
  }
}
