/** The express-validator chain `questionValidation` that guards creating and
    updating a question, as predicates over the request body's fields. */
module QuestionRoutes {
  import opened Common
  import opened Text
  import opened QuestionModel

  /** `title`: `isLength({ min: 10, max: 300 })`. */
  predicate TitleValid(title: string) {
    10 <= |title| <= 300
  }

  /** `description`: `isLength({ min: 20 })`, with no upper bound. */
  predicate DescriptionValid(description: string) {
    |description| >= 20
  }

  /** A character of `/^[a-zA-Z0-9-]+$/`. */
  predicate IsTagChar(c: char) {
    IsAsciiLetter(c) || IsDigit(c) || c == '-'
  }

  /** `tags.*`: `isLength({ min: 2, max: 20 })` and the tag pattern. */
  predicate TagValid(tag: string) {
    2 <= |tag| <= 20 && forall i :: 0 <= i < |tag| ==> IsTagChar(tag[i])
  }

  /** `tags`: `isArray({ min: 1, max: 5 })`, and every element valid. */
  predicate TagsValid(tags: seq<string>) {
    1 <= |tags| <= 5 && forall i :: 0 <= i < |tags| ==> TagValid(tags[i])
  }

  /** The whole chain; create and update apply the same one. */
  predicate QuestionValid(title: string, description: string, tags: seq<string>) {
    TitleValid(title) && DescriptionValid(description) && TagsValid(tags)
  }

  /** A valid tag has no spaces, so storing it only lowercases it, and the
      stored form is still a valid tag. */
  lemma ValidTagStoredLowercase(tag: string)
    requires TagValid(tag)
    ensures StoredTag(tag) == Lower(tag)
    ensures TagValid(StoredTag(tag))
  {
    var l := Lower(tag);
    assert !IsSpace(l[0]) && !IsSpace(l[|l| - 1]);
    TrimOfTrimmed(l);
  }

  /** Any request the chain accepts whose title is not all spaces makes a
      question the schema accepts, holding the lowercased tags in order. */
  lemma ValidQuestionSaves(title: string, description: string, tags: seq<string>, author: UserId, now: Time)
    requires QuestionValid(title, description, tags) && !AllSpace(title)
    ensures SchemaAccepts(NewQuestion(title, description, tags, author, now))
    ensures var q := NewQuestion(title, description, tags, author, now);
      |q.tags| == |tags| && forall i :: 0 <= i < |tags| ==> q.tags[i] == Lower(tags[i])
  {
    forall i | 0 <= i < |tags| ensures StoredTag(tags[i]) == Lower(tags[i]) {
      ValidTagStoredLowercase(tags[i]);
    }
  }

  /** The chain measures the raw title, before the schema trims it: ten spaces
      pass the validator, yet the trimmed title is empty and `required` fails. */
  lemma BlankTitlePassesValidator(description: string, tags: seq<string>, author: UserId, now: Time)
    ensures TitleValid("          ")
    ensures !SchemaAccepts(NewQuestion("          ", description, tags, author, now))
  {
    assert AllSpace("          ");
  }
}
