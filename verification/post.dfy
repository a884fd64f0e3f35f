/**
 The comment thread of the `Post` component (src/components/Post.tsx) as a
 state machine. Each React event handler becomes one pure transition over an
 immutable `State`; the textarea's custom validity message, which the
 component sets imperatively on the DOM element, is a plain field of the state.
 */
module Post {
  import opened Sequences

  /** The one comment every post starts with. */
  const SeededComment: string := "Post muito bacana, heim?!"

  /** The message shown when the browser rejects an empty comment. */
  const RequiredMessage: string := "Esse campo é obrigatório!"

  /** `comments` is the thread in display order, `newCommentText` the draft in
      the textarea, `customValidity` the textarea's custom validity message. */
  datatype State = State(comments: seq<string>, newCommentText: string, customValidity: string)

  /** The state a freshly mounted post starts in. */
  function Initial(): (s: State)
    ensures |s.comments| == 1 && s.comments[0] == SeededComment
    ensures s.newCommentText == "" && s.customValidity == ""
    ensures IsNewCommentEmpty(s)
  {
    State([SeededComment], "", "")
  }

  /** Whether the draft is empty; the "Publicar" button is disabled exactly
      when this holds. */
  function IsNewCommentEmpty(s: State): (b: bool)
    ensures b <==> s.newCommentText == ""
  {
    |s.newCommentText| == 0
  }

  /** Form submission: the draft goes at the end of the thread and the draft
      is cleared. The handler itself does not look at the draft, so an empty
      draft would be appended too; only the disabled button keeps it out. */
  function CreateNewComment(s: State): (t: State)
    ensures |t.comments| == |s.comments| + 1
    ensures t.comments[..|s.comments|] == s.comments
    ensures t.comments[|s.comments|] == s.newCommentText
    ensures t.newCommentText == "" && IsNewCommentEmpty(t)
    ensures t.customValidity == s.customValidity
  {
    State(s.comments + [s.newCommentText], "", s.customValidity)
  }

  /** Typing in the textarea: the validity message is cleared and the draft
      becomes exactly what the textarea now holds. */
  function ChangeNewComment(s: State, value: string): (t: State)
    ensures t.newCommentText == value
    ensures t.customValidity == ""
    ensures t.comments == s.comments
    ensures IsNewCommentEmpty(t) <==> value == ""
  {
    State(s.comments, value, "")
  }

  /** The browser found the required textarea empty: the validity message is
      set and nothing else changes. */
  function InvalidNewComment(s: State): (t: State)
    ensures t.customValidity == RequiredMessage
    ensures t.comments == s.comments && t.newCommentText == s.newCommentText
  {
    s.(customValidity := RequiredMessage)
  }

  /** `comments.filter(comment => comment !== target)`: every comment equal to
      `target` is dropped, the others keep their relative order. */
  function Without(comments: seq<string>, target: string): (r: seq<string>)
    ensures target !in r
    ensures IsSubsequence(r, comments)
    ensures multiset(r) == multiset(comments)[target := 0]
    decreases |comments|
  {
    if |comments| == 0 then []
    else
      assert comments == [comments[0]] + comments[1..];
      if comments[0] == target then Without(comments[1..], target)
      else [comments[0]] + Without(comments[1..], target)
  }

  /** Deleting a comment, identified by its text: all comments with that text
      disappear, everything else in the thread and the form stays. */
  function DeleteComment(s: State, target: string): (t: State)
    ensures target !in t.comments
    ensures IsSubsequence(t.comments, s.comments)
    ensures forall c :: c in s.comments && c != target ==> c in t.comments
    ensures |t.comments| == |s.comments| - multiset(s.comments)[target]
    ensures t.newCommentText == s.newCommentText && t.customValidity == s.customValidity
  {
    var kept := Without(s.comments, target);
    WithoutLength(s.comments, target);
    forall c | c in s.comments && c != target
      ensures c in kept
    {
      assert c in multiset(kept);
    }
    s.(comments := kept)
  }

  /** The independent description of a deletion result: no comment equal to
      `target`, drawn from `comments` in order, and every other comment kept
      as often as it occurred. */
  ghost predicate IsDeletionOf(r: seq<string>, comments: seq<string>, target: string)
  {
    && target !in r
    && IsSubsequence(r, comments)
    && multiset(r) == multiset(comments)[target := 0]
  }

  /** `Without` counts down the length by exactly the number of removed
      comments. */
  lemma {:induction false} WithoutLength(comments: seq<string>, target: string)
    ensures |Without(comments, target)| == |comments| - multiset(comments)[target]
    decreases |comments|
  {
    if |comments| > 0 {
      assert comments == [comments[0]] + comments[1..];
      WithoutLength(comments[1..], target);
    }
  }

  /** The description in `IsDeletionOf` fits exactly one sequence, and that is
      the one `Without` computes. */
  lemma {:induction false} DeletionIsUnique(r: seq<string>, comments: seq<string>, target: string)
    requires IsDeletionOf(r, comments, target)
    ensures r == Without(comments, target)
    decreases |comments|
  {
    if |comments| == 0 {
      assert |multiset(r)| == 0;
    } else {
      var c, rest := comments[0], comments[1..];
      assert comments == [c] + rest;
      assert multiset(comments)[target := 0] == (multiset{c} + multiset(rest))[target := 0];
      if |r| == 0 {
        assert multiset(r)[c] == 0 && multiset(comments)[c] >= 1;
        assert c == target;
        assert IsDeletionOf(r, rest, target);
        DeletionIsUnique(r, rest, target);
      } else if r[0] == c {
        assert c != target by { assert r[0] in r; }
        assert r == [c] + r[1..];
        assert IsSubsequence(r[1..], rest);
        forall x
          ensures multiset(r[1..])[x] == multiset(rest)[target := 0][x]
        {
          assert multiset(r)[x] == multiset{c}[x] + multiset(r[1..])[x];
        }
        assert multiset(r[1..]) == multiset(rest)[target := 0];
        DeletionIsUnique(r[1..], rest, target);
      } else {
        assert IsSubsequence(r, rest);
        SubsequenceMultiset(r, rest);
        assert multiset(r)[c] <= multiset(rest)[c] < multiset(comments)[c];
        assert c == target;
        assert IsDeletionOf(r, rest, target);
        DeletionIsUnique(r, rest, target);
      }
    }
  }

  /** `Without` meets its independent description, and nothing else does. */
  lemma DeletionCharacterized(r: seq<string>, comments: seq<string>, target: string)
    ensures IsDeletionOf(r, comments, target) <==> r == Without(comments, target)
  {
    if IsDeletionOf(r, comments, target) {
      DeletionIsUnique(r, comments, target);
    }
  }

  /** Deleting a text that no comment has leaves the thread as it was. */
  lemma {:induction false} WithoutAbsent(comments: seq<string>, target: string)
    requires target !in comments
    ensures Without(comments, target) == comments
    decreases |comments|
  {
    if |comments| > 0 {
      WithoutAbsent(comments[1..], target);
    }
  }

  /** Deleting the same text twice is the same as deleting it once. */
  lemma DeleteIdempotent(s: State, target: string)
    ensures DeleteComment(DeleteComment(s, target), target) == DeleteComment(s, target)
  {
    WithoutAbsent(Without(s.comments, target), target);
  }

  /** Deleting a text that no comment has changes nothing. */
  lemma DeleteAbsent(s: State, target: string)
    requires target !in s.comments
    ensures DeleteComment(s, target) == s
  {
    WithoutAbsent(s.comments, target);
  }

  /** Filtering a concatenation filters each part. */
  lemma {:induction false} WithoutConcat(a: seq<string>, b: seq<string>, target: string)
    ensures Without(a + b, target) == Without(a, target) + Without(b, target)
    decreases |a|
  {
    if |a| > 0 {
      assert (a + b)[0] == a[0];
      assert (a + b)[1..] == a[1..] + b;
      WithoutConcat(a[1..], b, target);
      if a[0] != target {
        assert Without(a + b, target) == [a[0]] + Without(a[1..] + b, target);
        assert Without(a, target) == [a[0]] + Without(a[1..], target);
      }
    } else {
      assert a + b == b;
    }
  }

  /** The order of two deletions does not matter. */
  lemma {:induction false} WithoutCommutes(comments: seq<string>, x: string, y: string)
    ensures Without(Without(comments, x), y) == Without(Without(comments, y), x)
    decreases |comments|
  {
    if |comments| > 0 {
      var c, rest := comments[0], comments[1..];
      WithoutCommutes(rest, x, y);
      WithoutConcat([c], Without(rest, x), y);
      WithoutConcat([c], Without(rest, y), x);
    }
  }

  /** Comments are identified by their text: when two comments share the text
      being deleted, deleting it removes both of them, not just one. */
  lemma DeleteRemovesDuplicates(s: State, i: nat, j: nat)
    requires i < j < |s.comments| && s.comments[i] == s.comments[j]
    ensures |DeleteComment(s, s.comments[i]).comments| <= |s.comments| - 2
  {
    TwoOccurrences(s.comments, i, j);
  }

  /** Deleting the comment just published also deletes every older comment
      that has the same text. */
  lemma DeleteAfterCreate(s: State)
    ensures DeleteComment(CreateNewComment(s), s.newCommentText).comments
         == Without(s.comments, s.newCommentText)
  {
    WithoutConcat(s.comments, [s.newCommentText], s.newCommentText);
  }

  /** Only the latest keystroke counts: two edits in a row leave the draft of
      the second. */
  lemma ChangeLastWins(s: State, a: string, b: string)
    ensures ChangeNewComment(ChangeNewComment(s, a), b) == ChangeNewComment(s, b)
  {
  }

  /** Typing after a rejected empty submission clears the message again. */
  lemma ChangeAfterInvalid(s: State, value: string)
    ensures ChangeNewComment(InvalidNewComment(s), value) == ChangeNewComment(s, value)
    ensures ChangeNewComment(InvalidNewComment(s), value).customValidity == ""
  {
  }
}
