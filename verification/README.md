# Post comment thread

A Dafny model of the comment thread of the `Post` React component
(`src/components/Post.tsx`). A post keeps three pieces of local state:

- `comments`: the ordered list of comment texts. It starts with the single
  seeded comment "Post muito bacana, heim?!".
- `newCommentText`: the draft in the textarea. It starts empty.
- the textarea's custom validity message. The component sets it imperatively
  on the DOM element; here it is the plain field `customValidity`.

Each event handler of the component is one pure transition over an immutable
`State` (module `Post`):

- `CreateNewComment` is `handleCreateNewComment`. It appends the draft at the
  end of the thread and clears the draft.
- `ChangeNewComment` is `handleNewCommentChange`. It clears the validity
  message and sets the draft.
- `InvalidNewComment` is `handleNewCommentInvalid`. It sets the message
  "Esse campo é obrigatório!".
- `DeleteComment` is `deleteComment`. It filters the thread by text
  inequality, so a comment is identified by its text.
- `IsNewCommentEmpty` is the flag that disables the "Publicar" button.

Deletion is the interesting part. `Without` is the filter. `IsDeletionOf` is an
independent description of its result:

- the result does not contain the target;
- it is a subsequence of the old thread;
- every other text occurs in it as often as before.

`DeletionCharacterized` proves that exactly one sequence fits this description,
and that `Without` computes it. Because comments are compared by text, deleting
one of two comments with the same text deletes both (`DeleteRemovesDuplicates`).

Module `Session` wires the handlers to form events. Pressing the button while
it is disabled does nothing. It proves that every reachable state is `Valid`:
no comment in the thread is empty, and the validity message is either empty or
the required-field message. Module `Sequences` holds the subsequence facts the
proofs use.

## Model

| member | source | states |
|---|---|---|
| Post.Initial | src/components/Post.tsx:31-35 | A new post has exactly one comment, the seeded text; the draft and the validity message are empty; so the submit button starts disabled. |
| Post.IsNewCommentEmpty | src/components/Post.tsx:77 | The button-disabled flag holds exactly when the draft is the empty string. |
| Post.CreateNewComment | src/components/Post.tsx:49-56 | Submitting grows the thread by exactly one. The earlier comments are unchanged and in the same order, and the last comment is the old draft. Afterwards the draft is empty, so the button is disabled again. The validity message is untouched. |
| Post.ChangeNewComment | src/components/Post.tsx:58-63 | Typing sets the draft to exactly the new value and clears the validity message. The thread is untouched. The button is disabled afterwards iff the new value is empty. |
| Post.InvalidNewComment | src/components/Post.tsx:64-67 | A rejected empty submission sets the message "Esse campo é obrigatório!". The draft and the thread are untouched. |
| Post.Without | src/components/Post.tsx:70-72 | The filtered thread contains no comment equal to the target. It is a subsequence of the old thread. Every other text keeps its number of occurrences. |
| Post.DeleteComment | src/components/Post.tsx:69-75 | After a delete no comment equals the target. Every other comment survives, in its old relative order. The thread shrinks by exactly the number of comments with that text. The draft and the validity message are untouched. |
| Post.WithoutLength | src/components/Post.tsx:70-72 | The filter removes exactly as many comments as there were copies of the target. |
| Post.DeletionIsUnique | src/components/Post.tsx:70-72 | Any sequence that satisfies the independent description of a deletion is the filter's result. |
| Post.DeletionCharacterized | src/components/Post.tsx:70-72 | A sequence satisfies the independent description of a deletion if and only if it is the filter's result. |
| Post.WithoutAbsent | src/components/Post.tsx:70-72 | Filtering out a text that does not occur returns the thread unchanged. |
| Post.DeleteAbsent | src/components/Post.tsx:69-75 | Deleting a text that no comment has leaves the whole state unchanged. |
| Post.DeleteIdempotent | src/components/Post.tsx:69-75 | Deleting the same text twice gives the same state as deleting it once. |
| Post.WithoutConcat | src/components/Post.tsx:70-72 | Filtering a concatenation is the concatenation of the filtered parts. |
| Post.WithoutCommutes | src/components/Post.tsx:69-75 | Two deletions give the same thread in either order. |
| Post.DeleteRemovesDuplicates | src/components/Post.tsx:69-75 | When two comments share a text, deleting that text removes at least two comments, not one. |
| Post.DeleteAfterCreate | src/components/Post.tsx:49-75 | Deleting the comment just published also removes every older comment with the same text. |
| Post.ChangeLastWins | src/components/Post.tsx:58-63 | Two edits in a row leave the state of the second edit alone. |
| Post.ChangeAfterInvalid | src/components/Post.tsx:58-67 | Typing after a rejected submission clears the validity message. The result is the same as if the rejection had not happened. |
| Session.Dispatch | src/components/Post.tsx:104-133 | Pressing the button changes the state iff the draft is non-empty, and then appends the draft. A rejection sets the required-field message; pressing the button and deleting keep the message. Only typing changes the draft other than clearing it. No event grows the thread by more than one. |
| Session.InitialValid | src/components/Post.tsx:31-35 | The initial state has no empty comment and an allowed validity message. |
| Session.DispatchPreservesValid | src/components/Post.tsx:104-133 | Every form event keeps the thread free of empty comments and the validity message allowed. The disabled button is what keeps empty drafts out. |
| Session.RunPreservesValid | src/components/Post.tsx:104-133 | Any sequence of events keeps a valid state valid. |
| Session.ReachableValid | src/components/Post.tsx:31-133 | Every state reachable from mounting a post is valid. |
| Session.HandlerAppendsEmptyDraft | src/components/Post.tsx:49-56 | The submit handler has no emptiness check of its own: called with an empty draft, it appends an empty comment. |

## Left out

- Date formatting with `date-fns` (`format`, `formatDistanceToNow`, the `pt` locale) and `toISOString` (lines 38-47 and 91). These are foreign library calls, and the relative text depends on the wall clock.
- JSX rendering (lines 79-136). This covers the author header, the content lines rendered as paragraphs or links, the CSS classes, and the `Avatar` and `Comment` children. `Comment` and `Avatar` are not part of this model.
- React mechanics: `useState` setter scheduling, `key` reconciliation (including duplicate-key warnings for equal comment texts), and `event.preventDefault()`. Each handler is one atomic transition.
- Browser form validation: the `required` attribute and when the browser fires `onInvalid`. The `Reject` event can happen in any state. Only its effect on the validity message is modelled.
- The initial custom validity message is taken to be empty, the DOM default. The component never sets it before the first event.
- A press on the disabled button is modelled as an event that changes nothing. How the browser suppresses the submission is not modelled.
