/** The App component's state and its event handlers. Each handler is one
    atomic update of the current state; the clock and the locale are inputs. */
module App {
  import opened JsString
  import opened Messages

  /** The class name of the page's root element: `dark` or `light` after `app`. */
  function RootClassName(isDark: bool): (r: string)
    ensures r == "app dark" <==> isDark
    ensures r == "app light" <==> !isDark
  {
    "app " + (if isDark then "dark" else "light")
  }

  class Board {
    var isDark: bool
    var messages: seq<Message>
    var author: string
    var text: string

    /** Every message on the board has exactly the three reaction keys. */
    ghost predicate Valid()
      reads this`messages
    {
      AllStandard(messages)
    }

    /** The state the component mounts with: dark theme, the two welcome
        messages stamped by two clock reads, empty form fields. */
    constructor (welcomeStamp: string, guideStamp: string)
      ensures Valid()
      ensures isDark && messages == InitialMessages(welcomeStamp, guideStamp)
      ensures author == "" && text == ""
    {
      isDark := true;
      messages := InitialMessages(welcomeStamp, guideStamp);
      author := "";
      text := "";
    }

    /** Typing in the name field. */
    method EditAuthor(value: string)
      modifies this`author
      ensures author == value
    {
      author := value;
    }

    /** Typing in the message field. */
    method EditText(value: string)
      modifies this`text
      ensures text == value
    {
      text := value;
    }

    /** handleSubmit. `id` stands for `Date.now()` and `timestamp` for the
        locale display of the current date. A blank field leaves everything as
        it was; otherwise the new message goes in front of the old list, which
        is kept whole, and both fields are cleared. */
    method Submit(id: int, timestamp: string)
      requires Valid()
      modifies this`messages, this`author, this`text
      ensures Valid()
      ensures IsBlank(old(author)) || IsBlank(old(text)) ==>
        messages == old(messages) && author == old(author) && text == old(text)
      ensures !IsBlank(old(author)) && !IsBlank(old(text)) ==>
        && messages == [NewMessage(id, old(author), old(text), timestamp)] + old(messages)
        && |messages| == |old(messages)| + 1
        && author == "" && text == ""
    {
      if IsBlank(author) || IsBlank(text) {
        return;
      }
      var message := NewMessage(id, author, text, timestamp);
      messages := [message] + messages;
      author := "";
      text := "";
    }

    /** handleReaction: one more `emoji` on every message whose id is
        `messageId`; nothing else on the board changes. */
    method React(messageId: int, emoji: string)
      requires Valid() && emoji in Emojis
      modifies this`messages
      ensures Valid()
      ensures messages == ReactTo(old(messages), messageId, emoji)
      ensures |messages| == |old(messages)|
      ensures forall i | 0 <= i < |messages| && old(messages)[i].id != messageId ::
        messages[i] == old(messages)[i]
      ensures forall i | 0 <= i < |messages| && old(messages)[i].id == messageId ::
        messages[i] == Bump(old(messages)[i], emoji)
      ensures (forall m | m in old(messages) :: m.id != messageId) ==> messages == old(messages)
    {
      ghost var before := messages;
      assert forall m | m in before && m.id == messageId :: emoji in m.reactions by {
        forall m | m in before && m.id == messageId ensures emoji in m.reactions {
          assert HasStandardReactions(m);
        }
      }
      messages := ReactTo(messages, messageId, emoji);
      ReactToKeepsStandard(before, messageId, emoji);
      ReactToUnchangedIff(before, messageId, emoji);
      forall i | 0 <= i < |messages|
        ensures before[i].id != messageId ==> messages[i] == before[i]
        ensures before[i].id == messageId ==> messages[i] == Bump(before[i], emoji)
      {
        ReactToAt(before, messageId, emoji, i);
      }
    }

    /** handleDelete: every message whose id is `messageId` goes, the others
        stay in their order; nothing else on the board changes. */
    method Delete(messageId: int)
      requires Valid()
      modifies this`messages
      ensures Valid()
      ensures messages == DeleteId(old(messages), messageId)
      ensures forall m :: m in messages <==> m in old(messages) && m.id != messageId
      ensures |messages| == |old(messages)| - CountId(old(messages), messageId)
      ensures (forall m | m in old(messages) :: m.id != messageId) ==> messages == old(messages)
    {
      ghost var before := messages;
      messages := DeleteId(messages, messageId);
      DeleteIdKeepsStandard(before, messageId);
      DeleteIdLength(before, messageId);
      DeleteIdUnchangedIff(before, messageId);
      forall m ensures m in messages <==> m in before && m.id != messageId {
        DeleteIdMembership(before, messageId, m);
      }
    }

    /** The theme button: flips between dark and light. */
    method ToggleTheme()
      modifies this`isDark
      ensures isDark == !old(isDark)
      ensures RootClassName(isDark) == "app dark" <==> !old(isDark)
    {
      isDark := !isDark;
    }
  }

  /** Posting with a blank message field is ignored: the board and the form
      stay as they were. */
  method BlankSubmitSession(now: string, later: string)
  {
    var board := new Board(now, now);
    board.EditAuthor("Zoe");
    board.EditText("   ");
    board.Submit(1000, later);
    assert |board.messages| == 2 && board.author == "Zoe" && board.text == "   ";
  }

  /** Posting a complete form puts the new message in front of the board,
      keeps the old messages behind it and clears the form. */
  method SubmitSession(now: string, later: string)
  {
    var board := new Board(now, now);
    var welcome := board.messages[0];
    board.EditAuthor("Zoe");
    board.EditText("hi");
    NonWhitespaceSurvivesTrim("Zoe", 0);
    NonWhitespaceSurvivesTrim("hi", 0);
    board.Submit(1000, later);
    assert |board.messages| == 3 && board.messages[1] == welcome;
    assert board.messages[0].author == "Zoe" && board.messages[0].reactions[ThumbsUp] == 0;
    assert board.author == "" && board.text == "";
  }

  /** Reacting raises one count on the welcome message; deleting an absent id
      does nothing. */
  method ReactSession(now: string)
  {
    var board := new Board(now, now);
    board.React(1, ThumbsUp);
    var welcome := board.messages[0];
    assert welcome.reactions[ThumbsUp] == 6;
    assert welcome.reactions[Heart] == 3 && welcome.reactions[Laugh] == 1;

    var before := board.messages;
    board.Delete(7);
    assert board.messages == before;
  }

  /** Two presses of the theme button restore the theme. */
  method ThemeSession(now: string)
  {
    var board := new Board(now, now);
    var theme := board.isDark;
    board.ToggleTheme();
    board.ToggleTheme();
    assert board.isDark == theme;
  }
}
