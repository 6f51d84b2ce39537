# Message board state machine

A model of the `App` component of a small React message board. Its state is
a dark/light theme flag, an ordered list of messages (newest first), and the
two form fields `author` and `text`. Four handlers change that state:

- submit: posts the form as a new message, unless a field is blank;
- react: raises one emoji counter on the messages with a given id;
- delete: removes the messages with a given id;
- the theme button: flips the theme.

Files:

- `JsString.dfy`: JavaScript's `String.prototype.trim`, written over the
  ECMAScript whitespace and line-terminator code points. It also gives the
  blankness test `!s.trim()` as `IsBlank`, whose contract is that a field is
  blank exactly when every character in it is whitespace.
- `Messages.dfy`: the `Message` record and the three reaction emoji. It holds
  the pure list transformations the handlers compute: prepend, `map` with an
  object spread (`ReactTo`) and `filter` (`DeleteId`). The lemmas about them
  state what each transformation keeps and changes.
- `App.dfy`: the component as a class `Board`. Its fields are the four state
  cells, and its methods are the handlers, each one atomic update. The
  invariant `Valid()` says every message has exactly the three reaction keys.
  Four client methods run the handlers on concrete boards.

Where the code's own comment (`// Simple unique ID`, src/App.jsx:38) and its
behaviour disagree, the model follows the behaviour:

- Ids are not unique. A new id is the clock reading in milliseconds, so two
  posts in the same millisecond share one. React and delete are therefore
  specified over every message with the id.
- Deleting shortens the list by exactly one only when exactly one message
  has the id (`DeleteUniqueId`). In general it shortens the list by the
  number of messages that have the id (`DeleteIdLength`).

## Model

| member | source | states |
|---|---|---|
| `JsString.TrimStart` | src/App.jsx:34 | the result is a suffix of the input that does not start with whitespace, and everything cut off is whitespace |
| `JsString.TrimEnd` | src/App.jsx:34 | the result is a prefix of the input that does not end with whitespace, and everything cut off is whitespace |
| `JsString.Trim` | src/App.jsx:34 | `s.trim()` is the slice of `s` after its leading whitespace; everything cut off on either side is whitespace, and a non-empty result neither starts nor ends with whitespace |
| `JsString.IsBlank` | src/App.jsx:34 | `!s.trim()` holds exactly when every character of `s` is whitespace, including for the empty string |
| `JsString.TrimEmptyIffAllWhitespace` | src/App.jsx:34 | `s.trim()` is empty exactly when every character of `s` is whitespace |
| `JsString.NonWhitespaceSurvivesTrim` | src/App.jsx:34 | a field that has a non-whitespace character is not blank |
| `Messages.NewMessage` | src/App.jsx:37-43 | the new message keeps the id, timestamp, author and text exactly as given (untrimmed); its reaction keys are the three emoji, each with count 0 |
| `Messages.InitialMessages` | src/App.jsx:9-24 | the board starts with the two welcome messages, ids 1 and 2, each with its own clock stamp, its author, text and reaction counts, and both with the three reaction keys |
| `Messages.Bump` | src/App.jsx:57-63 | one more `emoji` on a message; id, author, text, timestamp, reaction keys and every other count are unchanged |
| `Messages.ReactTo` | src/App.jsx:55-66 | reacting keeps the length of the list |
| `Messages.ReactToAt` | src/App.jsx:55-66 | at every position, the message is bumped if its id matches and kept as it was otherwise |
| `Messages.ReactToFields` | src/App.jsx:56-63 | field by field at every position: same id, author, text, timestamp and keys; the emoji's count is one higher on a match; every other count is unchanged |
| `Messages.ReactToUnchangedIff` | src/App.jsx:55-66 | reacting leaves the list unchanged exactly when no message has the id |
| `Messages.ReactToKeepsStandard` | src/App.jsx:59-62 | reacting with one of the three emoji keeps every message's reaction keys equal to the three emoji |
| `Messages.DeleteId` | src/App.jsx:71 | the result is no longer than the input, and every survivor was in the input and has another id |
| `Messages.CountId` | src/App.jsx:71 | the number of messages with the id, at most the length; it is zero exactly when no message has the id |
| `Messages.DeleteIdMembership` | src/App.jsx:71 | a message is in the result exactly when it was in the input and its id differs |
| `Messages.DeleteIdLength` | src/App.jsx:71 | the length drops by exactly the number of messages with the id |
| `Messages.DeleteIdMultiset` | src/App.jsx:71 | each message occurs as often as before if its id differs, and not at all otherwise |
| `Messages.DeleteIdKeepsOrder` | src/App.jsx:71 | the survivors form a subsequence of the input: their relative order is kept |
| `Messages.DeleteIdAppend` | src/App.jsx:71 | deleting from a concatenation deletes from each part separately |
| `Messages.DeleteIdUnchangedIff` | src/App.jsx:71 | deleting leaves the list unchanged exactly when no message has the id; otherwise the list gets strictly shorter |
| `Messages.DeleteUniqueId` | src/App.jsx:71 | when exactly one message has the id, deleting shortens the list by one |
| `Messages.DeleteIdKeepsStandard` | src/App.jsx:71 | deleting keeps every message's reaction keys equal to the three emoji |
| `Messages.DeleteIdIdempotent` | src/App.jsx:71 | deleting the same id twice gives the same list as deleting it once |
| `Messages.DeleteAfterReact` | src/App.jsx:55-72 | reacting and then deleting the same id gives the same list as deleting alone |
| `Messages.DeleteUndoesPost` | src/App.jsx:37-46 | posting and then deleting the new id gives back the old list when no older message has that id |
| `App.RootClassName` | src/App.jsx:75 | the root class is `app dark` exactly when the theme is dark, and `app light` exactly when it is light |
| `App.Board.constructor` | src/App.jsx:6-28 | the initial state is the dark theme, the two welcome messages (each stamped by its own clock read) and empty form fields |
| `App.Board.EditAuthor` | src/App.jsx:111 | typing in the name field sets `author` and nothing else |
| `App.Board.EditText` | src/App.jsx:121 | typing in the message field sets `text` and nothing else |
| `App.Board.Submit` | src/App.jsx:31-51 | with a blank field, messages and both fields stay the same; otherwise the list becomes the new message followed by the whole old list, one longer, and both fields become empty; the theme is untouched and the reaction-key invariant holds |
| `App.Board.React` | src/App.jsx:54-67 | the list becomes `ReactTo` of the old one: same length; matching messages are bumped; others are untouched; nothing changes when no id matches; the invariant is kept |
| `App.Board.Delete` | src/App.jsx:70-72 | the list becomes `DeleteId` of the old one: membership is exactly the old messages with another id; the length drops by the number of matches; nothing changes when the id is absent |
| `App.Board.ToggleTheme` | src/App.jsx:88 | the theme flag is negated and the root class follows it; toggling twice restores the theme |

## Left out

- Rendering: the markup, the avatar initial, the `active` class on reaction
  buttons and the order in which the reaction buttons appear. They are view
  only. The one piece of view state kept is the root class name.
- The stylesheet import and `e.preventDefault()`. They are browser plumbing.
- `Date.now()` and `toLocaleString()`. They read the clock and the locale, so
  the new id and the display timestamp are inputs to `App.Board.Submit`, and
  the two welcome messages' timestamps (two separate clock reads) are two
  inputs to the constructor.
- Messages.Bump: promises one more on an unbounded `nat`. In JavaScript the
  count is a Number, so `msg.reactions[emoji] + 1` stops increasing at 2^53,
  a count no sequence of clicks reaches in practice.
- `App.Board.React`: requires the emoji to be one of the three keys. With any
  other key the component computes `undefined + 1`, which is NaN. The buttons
  only ever pass existing keys.
- `JsString.IsWhitespace`: the space separators are those of Unicode 15. A
  JavaScript engine built on a later Unicode version could differ.
- JavaScript strings are UTF-16 code units, while the model's strings are
  Unicode scalar values. All whitespace code points are in the Basic
  Multilingual Plane, so blankness is the same either way.
- Re-rendering, batching of state updates and stale closures. Each handler
  is modelled as one atomic update of the current state.
- Ordering of keys inside a reaction object, which only affects the display
  order of the buttons. The model uses a `map`.
