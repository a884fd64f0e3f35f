/**
 A `Post` as the user sees it: the handlers of module `Post` wired to the
 events of the rendered form (src/components/Post.tsx lines 104-133). The
 "Publicar" button is rendered with `disabled={isNewCommentEmpty}`, so pressing
 it while the draft is empty does nothing; pressing it otherwise runs the
 submit handler.
 */
module Session {
  import opened Post

  /** One user-visible event on the rendered post. */
  datatype Event =
    | PressPublish                 // click on the "Publicar" submit button
    | Type(value: string)          // textarea change; `value` is its new content
    | Reject                       // the browser's required-field check failed
    | DeleteRequest(target: string) // a `Comment` child asked to delete its text

  /** The state after one event. */
  function Dispatch(s: State, e: Event): (t: State)
    ensures e.PressPublish? ==> (t == s <==> IsNewCommentEmpty(s))
    ensures e.PressPublish? && !IsNewCommentEmpty(s) ==> t.comments == s.comments + [s.newCommentText]
    ensures e.Reject? ==> t.customValidity == RequiredMessage
    ensures e.PressPublish? || e.DeleteRequest? ==> t.customValidity == s.customValidity
    ensures !e.Type? ==> t.newCommentText == s.newCommentText || t.newCommentText == ""
    ensures |t.comments| <= |s.comments| + 1
  {
    match e
    case PressPublish => if IsNewCommentEmpty(s) then s else CreateNewComment(s)
    case Type(value) => ChangeNewComment(s, value)
    case Reject => InvalidNewComment(s)
    case DeleteRequest(target) => DeleteComment(s, target)
  }

  /** The state after a whole sequence of events, oldest first. */
  function Run(s: State, events: seq<Event>): State
    decreases |events|
  {
    if |events| == 0 then s else Run(Dispatch(s, events[0]), events[1..])
  }

  /** Facts that hold in every state a post can reach: no comment in the
      thread is empty, and the validity message is either cleared or the
      required-field message. */
  ghost predicate Valid(s: State)
  {
    && (forall i :: 0 <= i < |s.comments| ==> s.comments[i] != "")
    && (s.customValidity == "" || s.customValidity == RequiredMessage)
  }

  /** A freshly mounted post is valid. */
  lemma InitialValid()
    ensures Valid(Initial())
  {
  }

  /** Every event keeps a post valid. In particular the disabled button is
      what keeps empty comments out of the thread. */
  lemma DispatchPreservesValid(s: State, e: Event)
    requires Valid(s)
    ensures Valid(Dispatch(s, e))
  {
    match e
    case DeleteRequest(target) =>
      var t := DeleteComment(s, target);
      Sequences.SubsequenceMembers(t.comments, s.comments);
      forall i | 0 <= i < |t.comments|
        ensures t.comments[i] != ""
      {
        assert t.comments[i] in s.comments;
      }
    case _ =>
  }

  /** Any sequence of events keeps a post valid. */
  lemma {:induction false} RunPreservesValid(s: State, events: seq<Event>)
    requires Valid(s)
    ensures Valid(Run(s, events))
    decreases |events|
  {
    if |events| > 0 {
      DispatchPreservesValid(s, events[0]);
      RunPreservesValid(Dispatch(s, events[0]), events[1..]);
    }
  }

  /** Every state reachable from mounting a post is valid. */
  lemma ReachableValid(events: seq<Event>)
    ensures Valid(Run(Initial(), events))
  {
    InitialValid();
    RunPreservesValid(Initial(), events);
  }

  /** The submit handler on its own does not guard against an empty draft:
      called directly with one, it appends an empty comment. */
  lemma HandlerAppendsEmptyDraft(s: State)
    requires IsNewCommentEmpty(s)
    ensures !Valid(CreateNewComment(s))
  {
  }
}
