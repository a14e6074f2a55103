/** What a question card in the list shows: the answer count, the "Solved"
    badge, the "edited" label, and the description preview with markup
    stripped, cut at 150 characters, and an ellipsis decided on the raw
    description's length. */
module QuestionCard {
  import opened Common

  /** The fields of a question as the list endpoint returns it that the card
      reads; `answers` may be missing from the JSON. */
  datatype CardQuestion = CardQuestion(
    description: string,
    answers: Option<seq<Id>>,
    acceptedAnswer: Option<Id>,
    createdAt: Time,
    updatedAt: Time)

  const PreviewLength := 150

  /** The index of the first `>` in `s` at or after `i`, if there is one. */
  function CloseFrom(s: string, i: nat): (r: Option<nat>)
    requires i <= |s|
    ensures r.Some? ==> i <= r.value < |s| && s[r.value] == '>'
    ensures r.Some? ==> forall j :: i <= j < r.value ==> s[j] != '>'
    ensures r.None? ==> forall j :: i <= j < |s| ==> s[j] != '>'
    decreases |s| - i
  {
    if i == |s| then None
    else if s[i] == '>' then Some(i)
    else CloseFrom(s, i + 1)
  }

  /** `s.replace(/<[^>]*>/g, '')`: scanning left to right, a `<` and
      everything up to the next `>` is dropped; a `<` with no `>` after it
      is kept, and the scan moves on. */
  function StripTags(s: string): (r: string)
    ensures |r| <= |s|
    decreases |s|
  {
    if s == [] then []
    else if s[0] == '<' && CloseFrom(s, 1).Some? then StripTags(s[CloseFrom(s, 1).value + 1..])
    else [s[0]] + StripTags(s[1..])
  }

  /** No `<` in `s` is followed, anywhere later, by a `>`. */
  predicate NoTagSpan(s: string) {
    forall i, j :: 0 <= i < j < |s| && s[i] == '<' ==> s[j] != '>'
  }

  /** The preview the card renders: the stripped text cut to 150 characters
      (`substring` clamps at the end), and whether `...` follows it. */
  datatype Preview = Preview(text: string, ellipsis: bool)

  function PreviewOf(description: string): (p: Preview)
    ensures |p.text| <= PreviewLength && |p.text| <= |StripTags(description)|
    ensures p.text == StripTags(description)[..|p.text|]
    ensures |StripTags(description)| <= PreviewLength ==> p.text == StripTags(description)
    ensures p.ellipsis <==> |description| > PreviewLength
  {
    var stripped := StripTags(description);
    var n := if |stripped| < PreviewLength then |stripped| else PreviewLength;
    Preview(stripped[..n], |description| > PreviewLength)
  }

  /** `question.answers?.length || 0`. */
  function AnswerCount(q: CardQuestion): (n: nat)
    ensures q.answers.None? ==> n == 0
    ensures q.answers.Some? ==> n == |q.answers.value|
  {
    match q.answers
    case None => 0
    case Some(a) => |a|
  }

  /** The "Solved" badge: `question.acceptedAnswer` is set. */
  predicate ShowSolved(q: CardQuestion) {
    q.acceptedAnswer.Some?
  }

  /** The "edited" label: the update time differs from the creation time. */
  predicate ShowEdited(q: CardQuestion) {
    q.updatedAt != q.createdAt
  }

  /** Stripping leaves no `<` that a later `>` closes. */
  lemma {:induction false} StripTagsNoSpan(s: string)
    ensures NoTagSpan(StripTags(s))
    decreases |s|
  {
    if s != [] {
      if s[0] == '<' && CloseFrom(s, 1).Some? {
        StripTagsNoSpan(s[CloseFrom(s, 1).value + 1..]);
      } else {
        var rest := StripTags(s[1..]);
        StripTagsNoSpan(s[1..]);
        var r := [s[0]] + rest;
        assert StripTags(s) == r;
        if s[0] == '<' {
          NoCloseStrips(s[1..]);
          assert rest == s[1..];
        }
        forall i, j | 0 <= i < j < |r| && r[i] == '<' ensures r[j] != '>' {
          if i == 0 {
            assert r[j] == s[1..][j - 1] == s[j];
          } else {
            assert r[i] == rest[i - 1] && r[j] == rest[j - 1];
          }
        }
      }
    }
  }

  /** Text without any `>` is left as it is: in particular a `<` with no
      later `>` is kept. */
  lemma {:induction false} NoCloseStrips(s: string)
    requires forall j :: 0 <= j < |s| ==> s[j] != '>'
    ensures StripTags(s) == s
    decreases |s|
  {
    if s != [] {
      if s[0] == '<' {
        assert CloseFrom(s, 1).None?;
      }
      NoCloseStrips(s[1..]);
      assert s == [s[0]] + s[1..];
    }
  }

  /** Text without any `<` is only truncated. */
  lemma {:induction false} NoOpenStrips(s: string)
    requires forall j :: 0 <= j < |s| ==> s[j] != '<'
    ensures StripTags(s) == s
    decreases |s|
  {
    if s != [] {
      NoOpenStrips(s[1..]);
      assert s == [s[0]] + s[1..];
    }
  }

  /** Text with no `<…>` span is left as it is, so stripping is idempotent. */
  lemma {:induction false} NoSpanStrips(s: string)
    requires NoTagSpan(s)
    ensures StripTags(s) == s
    decreases |s|
  {
    if s != [] {
      if s[0] == '<' {
        assert forall j :: 1 <= j < |s| ==> s[j] != '>';
        CloseFromNone(s, 1);
      }
      assert NoTagSpan(s[1..]) by {
        forall i, j | 0 <= i < j < |s[1..]| && s[1..][i] == '<' ensures s[1..][j] != '>' {
          assert s[1..][i] == s[i + 1] && s[1..][j] == s[j + 1];
        }
      }
      NoSpanStrips(s[1..]);
      assert s == [s[0]] + s[1..];
    }
  }

  lemma StripTagsIdempotent(s: string)
    ensures StripTags(StripTags(s)) == StripTags(s)
  {
    StripTagsNoSpan(s);
    NoSpanStrips(StripTags(s));
  }

  /** Whenever text was cut off, the ellipsis shows: markup only shortens
      the text, so a stripped text over 150 came from a raw one over 150. */
  lemma CutImpliesEllipsis(description: string)
    requires |StripTags(description)| > PreviewLength
    ensures PreviewOf(description).ellipsis
    ensures PreviewOf(description).text == StripTags(description)[..PreviewLength]
  {
  }

  /** The converse fails: a long description that is mostly markup shows
      its whole text followed by an ellipsis. */
  lemma EllipsisWithoutCut()
    ensures var d := seq(151, i => if i == 0 then '<' else if i == 149 then '>' else if i == 150 then 'x' else 'b');
      PreviewOf(d) == Preview("x", true)
  {
    var d := seq(151, i => if i == 0 then '<' else if i == 149 then '>' else if i == 150 then 'x' else 'b');
    assert CloseFrom(d, 1) == Some(149) by {
      CloseFromAt(d, 1, 149);
    }
    assert d[150..] == "x";
    assert StripTags("x") == "x" by {
      NoOpenStrips("x");
    }
  }

  lemma {:induction false} CloseFromNone(s: string, i: nat)
    requires i <= |s| && forall j :: i <= j < |s| ==> s[j] != '>'
    ensures CloseFrom(s, i).None?
    decreases |s| - i
  {
    if i < |s| {
      CloseFromNone(s, i + 1);
    }
  }

  lemma {:induction false} CloseFromAt(s: string, i: nat, k: nat)
    requires i <= k < |s| && s[k] == '>' && forall j :: i <= j < k ==> s[j] != '>'
    ensures CloseFrom(s, i) == Some(k)
    decreases k - i
  {
    if i < k {
      CloseFromAt(s, i + 1, k);
    }
  }

  /** Text with no `<` passes through stripping unchanged, also in front of
      anything else. */
  lemma {:induction false} StripTagsKeepsPlain(a: string, b: string)
    requires '<' !in a
    ensures StripTags(a + b) == a + StripTags(b)
    decreases |a|
  {
    if a == [] {
      assert a + b == b;
    } else {
      var s := a + b;
      assert s[0] == a[0] && s[0] != '<';
      assert s[1..] == a[1..] + b;
      StripTagsKeepsPlain(a[1..], b);
      assert a == [a[0]] + a[1..];
    }
  }

  /** A `<`, the text after it up to the next `>`, and that `>` are removed,
      and nothing else around them. */
  lemma StripTagsDropsSpan(a: string, t: string, b: string)
    requires '<' !in a && '>' !in t
    ensures StripTags(a + "<" + t + ">" + b) == a + StripTags(b)
  {
    var s := ['<'] + (t + (['>'] + b));
    assert a + "<" + t + ">" + b == a + s;
    StripTagsKeepsPlain(a, s);
    assert s[1..] == t + (['>'] + b);
    assert forall j :: 1 <= j < |t| + 1 ==> s[j] == t[j - 1];
    CloseFromAt(s, 1, |t| + 1);
    assert s[|t| + 2..] == b;
  }
}
