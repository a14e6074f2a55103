/** The tag picker and submit guard of the "Ask a question" page: the
    component state is the tag list, the tag text box and the description,
    and each handler computes the next state from the current one. */
module AskQuestion {
  import opened Text
  import opened Seqs

  /** The page's state. */
  datatype Form = Form(tags: seq<string>, tagInput: string, description: string)

  const MaxTags := 5

  /** A tag the way the picker stores it: lowercased, then trimmed. */
  function Clean(tag: string): string {
    Trim(Lower(tag))
  }

  /** Every stored tag is non-empty and already clean, no tag occurs twice,
      and there are at most five. */
  predicate TagsWellFormed(tags: seq<string>) {
    && |tags| <= MaxTags
    && NoDup(tags)
    && forall i :: 0 <= i < |tags| ==> tags[i] != "" && Clean(tags[i]) == tags[i]
  }

  /** Whether the picker takes `tag`: non-empty once cleaned, not already
      present, and fewer than five tags so far. */
  predicate Accepts(f: Form, tag: string) {
    Clean(tag) != "" && Clean(tag) !in f.tags && |f.tags| < MaxTags
  }

  /** `handleAddTag(tag)`: appends the cleaned tag and empties the text box
      when the picker takes it, and otherwise leaves the state alone. */
  function AddTag(f: Form, tag: string): (r: Form)
    ensures Accepts(f, tag) ==> r.tags == f.tags + [Clean(tag)] && r.tagInput == ""
    ensures !Accepts(f, tag) ==> r == f
    ensures r.description == f.description
  {
    if Accepts(f, tag) then f.(tags := f.tags + [Clean(tag)], tagInput := "") else f
  }

  /** `handleRemoveTag(tag)`: keeps every other tag. */
  function RemoveTag(f: Form, tag: string): (r: Form)
    ensures forall t :: t in r.tags <==> t in f.tags && t != tag
    ensures r.tagInput == f.tagInput && r.description == f.description
  {
    f.(tags := Without(f.tags, tag))
  }

  /** The `onSubmit` guard (and the disabled state of the submit button):
      at least one tag and a description that is not blank. */
  function CanSubmit(f: Form): (ok: bool)
    ensures ok <==> |f.tags| > 0 && !AllSpace(f.description)
  {
    f.tags != [] && Trim(f.description) != ""
  }

  /** Cleaning is idempotent. */
  lemma CleanIdempotent(tag: string)
    ensures Clean(Clean(tag)) == Clean(tag)
  {
    NormalizeIdempotent(tag);
  }

  /** Adding a tag keeps the list well formed: at most five, no duplicates,
      every entry clean and non-empty. */
  lemma AddTagKeepsWellFormed(f: Form, tag: string)
    requires TagsWellFormed(f.tags)
    ensures TagsWellFormed(AddTag(f, tag).tags)
  {
    if Accepts(f, tag) {
      var c := Clean(tag);
      var ts := f.tags + [c];
      NoDupAppend(f.tags, c);
      CleanIdempotent(tag);
      forall i | 0 <= i < |ts| ensures ts[i] != "" && Clean(ts[i]) == ts[i] {
        if i < |f.tags| {
          assert ts[i] == f.tags[i];
        }
      }
    }
  }

  /** Removing a tag keeps the list well formed. */
  lemma RemoveTagKeepsWellFormed(f: Form, tag: string)
    requires TagsWellFormed(f.tags)
    ensures TagsWellFormed(RemoveTag(f, tag).tags)
  {
    var ts := RemoveTag(f, tag).tags;
    NoDupWithout(f.tags, tag);
    forall i | 0 <= i < |ts| ensures ts[i] != "" && Clean(ts[i]) == ts[i] {
      assert ts[i] in f.tags;
    }
  }

  /** Blank input, however many spaces it holds, is never added. */
  lemma BlankNotAdded(f: Form, tag: string)
    requires AllSpace(tag)
    ensures AddTag(f, tag) == f
  {
    assert AllSpace(Lower(tag));
  }

  /** A successful add puts the new tag last and keeps the earlier tags in
      their order; every call either adds or changes nothing. */
  lemma AddTagAppends(f: Form, tag: string)
    ensures AddTag(f, tag).tags == f.tags || AddTag(f, tag).tags == f.tags + [Clean(tag)]
    ensures AddTag(f, tag).tags[..|f.tags|] == f.tags
    ensures AddTag(f, tag) != f <==> Accepts(f, tag)
  {
    if Accepts(f, tag) {
      assert (f.tags + [Clean(tag)])[..|f.tags|] == f.tags;
    }
  }

  /** In a list without duplicates, removing a tag drops just the entry at
      its position and keeps the others in order. */
  lemma RemoveTagAt(f: Form, i: nat)
    requires NoDup(f.tags) && i < |f.tags|
    ensures RemoveTag(f, f.tags[i]).tags == f.tags[..i] + f.tags[i + 1..]
  {
    WithoutAtIndex(f.tags, i);
  }

  /** Removing an absent tag changes nothing. */
  lemma RemoveAbsent(f: Form, tag: string)
    requires tag !in f.tags
    ensures RemoveTag(f, tag) == f
  {
    WithoutAbsent(f.tags, tag);
  }

  /** Removing the tag just added restores the tag list. */
  lemma RemoveUndoesAdd(f: Form, tag: string)
    requires Accepts(f, tag)
    ensures RemoveTag(AddTag(f, tag), Clean(tag)).tags == f.tags
  {
    var c := Clean(tag);
    WithoutConcat(f.tags, [c], c);
    WithoutAbsent(f.tags, c);
    assert Without([c], c) == [];
  }

  /** A click or key press on the picker: add the given text, or remove a chip. */
  datatype Action = Add(tag: string) | Remove(tag: string)

  /** The state after the actions, in order. */
  function Run(f: Form, actions: seq<Action>): Form
    decreases |actions|
  {
    if actions == [] then f
    else
      var g := match actions[0]
        case Add(t) => AddTag(f, t)
        case Remove(t) => RemoveTag(f, t);
      Run(g, actions[1..])
  }

  /** Any sequence of adds and removes keeps the tag list well formed, so
      it never holds more than five tags. */
  lemma {:induction false} RunKeepsWellFormed(f: Form, actions: seq<Action>)
    requires TagsWellFormed(f.tags)
    ensures TagsWellFormed(Run(f, actions).tags)
    decreases |actions|
  {
    if actions != [] {
      match actions[0]
      case Add(t) => AddTagKeepsWellFormed(f, t); RunKeepsWellFormed(AddTag(f, t), actions[1..]);
      case Remove(t) => RemoveTagKeepsWellFormed(f, t); RunKeepsWellFormed(RemoveTag(f, t), actions[1..]);
    }
  }

  /** The page starts with no tags, so every reachable tag list is well formed. */
  lemma ReachableWellFormed(description: string, actions: seq<Action>)
    ensures TagsWellFormed(Run(Form([], "", description), actions).tags)
  {
    RunKeepsWellFormed(Form([], "", description), actions);
  }
}
