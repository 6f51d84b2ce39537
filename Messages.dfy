/** The messages of the board and the pure list transformations that the
    App component's handlers compute before storing the new list. */
module Messages {

  /** The three reaction keys a new message is created with. The heart is the
      two-code-point sequence U+2764 U+FE0F, as written in the component. */
  const ThumbsUp: string := "\U{1F44D}"
  const Heart: string := "\U{2764}\U{FE0F}"
  const Laugh: string := "\U{1F602}"
  const Emojis: set<string> := {ThumbsUp, Heart, Laugh}

  /** One posted entry. `id` comes from the clock and is not guaranteed to be
      unique; `reactions` maps an emoji to its count. */
  datatype Message = Message(
    id: int,
    author: string,
    text: string,
    timestamp: string,
    reactions: map<string, nat>)

  /** The board's data invariant: a message has exactly the three reaction keys. */
  predicate HasStandardReactions(m: Message) {
    m.reactions.Keys == Emojis
  }

  predicate AllStandard(msgs: seq<Message>) {
    forall m | m in msgs :: HasStandardReactions(m)
  }

  /** The message object built by a successful submit: the fields as typed
      (not trimmed) and every reaction count at zero. */
  function NewMessage(id: int, author: string, text: string, timestamp: string): (m: Message)
    ensures m.id == id && m.author == author && m.text == text && m.timestamp == timestamp
    ensures HasStandardReactions(m)
    ensures forall e | e in m.reactions :: m.reactions[e] == 0
  {
    Message(id, author, text, timestamp, map[ThumbsUp := 0, Heart := 0, Laugh := 0])
  }

  /** The two messages the board starts with. The clock is read once for each,
      giving `welcomeStamp` and `guideStamp`. */
  function InitialMessages(welcomeStamp: string, guideStamp: string): (msgs: seq<Message>)
    ensures |msgs| == 2 && msgs[0].id == 1 && msgs[1].id == 2
    ensures msgs[0].timestamp == welcomeStamp && msgs[1].timestamp == guideStamp
    ensures msgs[0].author == "Welcome Bot" && msgs[1].author == "Learning Guide"
    ensures msgs[0].text == "Welcome to the MERN Message Board! \U{1F389} Try the theme toggle above!"
    ensures msgs[1].text ==
      "This is your first React app. Try adding a message below! You can also react to messages."
    ensures msgs[0].reactions == map[ThumbsUp := 5, Heart := 3, Laugh := 1]
    ensures msgs[1].reactions == map[ThumbsUp := 2, Heart := 1, Laugh := 0]
    ensures AllStandard(msgs)
  {
    var welcome := Message(1, "Welcome Bot",
      "Welcome to the MERN Message Board! \U{1F389} Try the theme toggle above!",
      welcomeStamp, map[ThumbsUp := 5, Heart := 3, Laugh := 1]);
    var guide := Message(2, "Learning Guide",
      "This is your first React app. Try adding a message below! You can also react to messages.",
      guideStamp, map[ThumbsUp := 2, Heart := 1, Laugh := 0]);
    assert HasStandardReactions(welcome) && HasStandardReactions(guide);
    [welcome, guide]
  }

  // ---------------------------------------------------------------------------
  // Reacting: `messages.map(...)` with an object spread on the matching ones

  /** One more `emoji` reaction on `m`; every other field and count is kept. */
  function Bump(m: Message, emoji: string): (r: Message)
    requires emoji in m.reactions
    ensures r.id == m.id && r.author == m.author && r.text == m.text && r.timestamp == m.timestamp
    ensures r.reactions.Keys == m.reactions.Keys
    ensures r.reactions[emoji] == m.reactions[emoji] + 1
    ensures forall e | e in m.reactions && e != emoji :: r.reactions[e] == m.reactions[e]
  {
    m.(reactions := m.reactions[emoji := m.reactions[emoji] + 1])
  }

  /** Every message whose id is `id` is bumped; the others are kept as they are. */
  function ReactTo(msgs: seq<Message>, id: int, emoji: string): (r: seq<Message>)
    requires forall m | m in msgs && m.id == id :: emoji in m.reactions
    ensures |r| == |msgs|
  {
    if msgs == [] then []
    else
      var head := if msgs[0].id == id then Bump(msgs[0], emoji) else msgs[0];
      [head] + ReactTo(msgs[1..], id, emoji)
  }

  /** Position by position: the message at `i` is bumped exactly when its id matches. */
  lemma {:induction false} ReactToAt(msgs: seq<Message>, id: int, emoji: string, i: int)
    requires forall m | m in msgs && m.id == id :: emoji in m.reactions
    requires 0 <= i < |msgs|
    ensures msgs[i].id == id ==> ReactTo(msgs, id, emoji)[i] == Bump(msgs[i], emoji)
    ensures msgs[i].id != id ==> ReactTo(msgs, id, emoji)[i] == msgs[i]
  {
    if i > 0 {
      ReactToAt(msgs[1..], id, emoji, i - 1);
    }
  }

  /** The message at each position after reacting, field by field: same id,
      author, text and timestamp, same reaction keys, the count of `emoji`
      raised by one on a matching message and every other count unchanged. */
  lemma ReactToFields(msgs: seq<Message>, id: int, emoji: string, i: int)
    requires forall m | m in msgs && m.id == id :: emoji in m.reactions
    requires 0 <= i < |msgs|
    ensures var r := ReactTo(msgs, id, emoji)[i];
      && r.id == msgs[i].id && r.author == msgs[i].author
      && r.text == msgs[i].text && r.timestamp == msgs[i].timestamp
      && r.reactions.Keys == msgs[i].reactions.Keys
      && (msgs[i].id == id ==> r.reactions[emoji] == msgs[i].reactions[emoji] + 1)
      && forall e | e in msgs[i].reactions && (e != emoji || msgs[i].id != id) ::
           r.reactions[e] == msgs[i].reactions[e]
  {
    ReactToAt(msgs, id, emoji, i);
  }

  /** Reacting changes the list exactly when some message has the id. */
  lemma ReactToUnchangedIff(msgs: seq<Message>, id: int, emoji: string)
    requires forall m | m in msgs && m.id == id :: emoji in m.reactions
    ensures ReactTo(msgs, id, emoji) == msgs <==> forall m | m in msgs :: m.id != id
  {
    var r := ReactTo(msgs, id, emoji);
    if forall m | m in msgs :: m.id != id {
      forall i | 0 <= i < |msgs| ensures r[i] == msgs[i] {
        ReactToAt(msgs, id, emoji, i);
      }
    } else {
      var i :| 0 <= i < |msgs| && msgs[i].id == id;
      ReactToAt(msgs, id, emoji, i);
      assert r[i].reactions[emoji] != msgs[i].reactions[emoji];
    }
  }

  /** Reacting with one of the three emoji keeps the board's data invariant. */
  lemma ReactToKeepsStandard(msgs: seq<Message>, id: int, emoji: string)
    requires AllStandard(msgs) && emoji in Emojis
    ensures AllStandard(ReactTo(msgs, id, emoji))
  {
    var r := ReactTo(msgs, id, emoji);
    forall m | m in r ensures HasStandardReactions(m) {
      var i :| 0 <= i < |r| && r[i] == m;
      assert msgs[i] in msgs;
      ReactToAt(msgs, id, emoji, i);
    }
  }

  // ---------------------------------------------------------------------------
  // Deleting: `messages.filter(msg => msg.id !== messageId)`

  /** The messages whose id is not `id`, in their original order. */
  function DeleteId(msgs: seq<Message>, id: int): (r: seq<Message>)
    ensures |r| <= |msgs|
    ensures forall m | m in r :: m in msgs && m.id != id
  {
    if msgs == [] then []
    else if msgs[0].id == id then DeleteId(msgs[1..], id)
    else [msgs[0]] + DeleteId(msgs[1..], id)
  }

  /** How many messages carry `id`. */
  function CountId(msgs: seq<Message>, id: int): (n: nat)
    ensures n <= |msgs|
    ensures n == 0 <==> forall m | m in msgs :: m.id != id
  {
    if msgs == [] then 0
    else (if msgs[0].id == id then 1 else 0) + CountId(msgs[1..], id)
  }

  /** `a` can be obtained from `b` by dropping elements, the rest keeping their order. */
  ghost predicate IsSubsequence(a: seq<Message>, b: seq<Message>)
    decreases |b|
  {
    || a == []
    || (b != [] && ((a[0] == b[0] && IsSubsequence(a[1..], b[1..])) || IsSubsequence(a, b[1..])))
  }

  /** A message survives the deletion exactly when it was there and has another id. */
  lemma {:induction false} DeleteIdMembership(msgs: seq<Message>, id: int, m: Message)
    ensures m in DeleteId(msgs, id) <==> m in msgs && m.id != id
  {
    if msgs != [] {
      DeleteIdMembership(msgs[1..], id, m);
      assert msgs == [msgs[0]] + msgs[1..];
    }
  }

  /** Deleting removes exactly the messages carrying `id`: the length drops by
      their number. */
  lemma {:induction false} DeleteIdLength(msgs: seq<Message>, id: int)
    ensures |DeleteId(msgs, id)| == |msgs| - CountId(msgs, id)
  {
    if msgs != [] {
      DeleteIdLength(msgs[1..], id);
    }
  }

  /** Each message value occurs in the result as often as before if its id is
      not `id`, and not at all otherwise. */
  lemma {:induction false} DeleteIdMultiset(msgs: seq<Message>, id: int, m: Message)
    ensures multiset(DeleteId(msgs, id))[m] == if m.id == id then 0 else multiset(msgs)[m]
  {
    if msgs != [] {
      DeleteIdMultiset(msgs[1..], id, m);
      assert msgs == [msgs[0]] + msgs[1..];
    }
  }

  /** The survivors keep their relative order. */
  lemma {:induction false} DeleteIdKeepsOrder(msgs: seq<Message>, id: int)
    ensures IsSubsequence(DeleteId(msgs, id), msgs)
  {
    if msgs != [] {
      DeleteIdKeepsOrder(msgs[1..], id);
      var r := DeleteId(msgs, id);
      if msgs[0].id != id {
        assert r[0] == msgs[0] && r[1..] == DeleteId(msgs[1..], id);
      }
    }
  }

  /** Filtering a concatenation filters each part. */
  lemma {:induction false} DeleteIdAppend(a: seq<Message>, b: seq<Message>, id: int)
    ensures DeleteId(a + b, id) == DeleteId(a, id) + DeleteId(b, id)
  {
    if a != [] {
      DeleteIdAppend(a[1..], b, id);
      assert (a + b)[0] == a[0] && (a + b)[1..] == a[1..] + b;
      if a[0].id != id {
        calc {
          DeleteId(a + b, id);
          [a[0]] + (DeleteId(a[1..], id) + DeleteId(b, id));
          ([a[0]] + DeleteId(a[1..], id)) + DeleteId(b, id);
        }
      }
    } else {
      assert a + b == b;
    }
  }

  /** Deleting an id no message carries changes nothing, and deleting one that
      some message carries makes the list strictly shorter. */
  lemma DeleteIdUnchangedIff(msgs: seq<Message>, id: int)
    ensures DeleteId(msgs, id) == msgs <==> forall m | m in msgs :: m.id != id
    ensures (exists m | m in msgs :: m.id == id) ==> |DeleteId(msgs, id)| < |msgs|
  {
    DeleteIdLength(msgs, id);
  }

  /** When exactly one message carries the id, deleting it shortens the list by one. */
  lemma DeleteUniqueId(msgs: seq<Message>, id: int)
    requires CountId(msgs, id) == 1
    ensures |DeleteId(msgs, id)| == |msgs| - 1
  {
    DeleteIdLength(msgs, id);
  }

  /** Deleting keeps the board's data invariant. */
  lemma DeleteIdKeepsStandard(msgs: seq<Message>, id: int)
    requires AllStandard(msgs)
    ensures AllStandard(DeleteId(msgs, id))
  {
  }

  /** Deleting an id twice is the same as deleting it once. */
  lemma DeleteIdIdempotent(msgs: seq<Message>, id: int)
    ensures DeleteId(DeleteId(msgs, id), id) == DeleteId(msgs, id)
  {
    DeleteIdUnchangedIff(DeleteId(msgs, id), id);
  }

  /** Reactions on a message are lost with it: reacting and then deleting the
      same id leaves what deleting alone leaves. */
  lemma {:induction false} DeleteAfterReact(msgs: seq<Message>, id: int, emoji: string)
    requires forall m | m in msgs && m.id == id :: emoji in m.reactions
    ensures DeleteId(ReactTo(msgs, id, emoji), id) == DeleteId(msgs, id)
  {
    if msgs != [] {
      DeleteAfterReact(msgs[1..], id, emoji);
    }
  }

  /** Posting and then deleting the new message's id restores the old list,
      provided no older message shares that id. */
  lemma DeleteUndoesPost(msgs: seq<Message>, id: int, author: string, text: string, timestamp: string)
    requires forall m | m in msgs :: m.id != id
    ensures DeleteId([NewMessage(id, author, text, timestamp)] + msgs, id) == msgs
  {
    var posted := [NewMessage(id, author, text, timestamp)] + msgs;
    assert posted[1..] == msgs;
    DeleteIdUnchangedIff(msgs, id);
  }
}
