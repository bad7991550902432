/**
 * The `ChatApp` component's state (src/App.tsx) as an object whose event
 * handlers replace its four fields. Browser dialogs are parameters
 * (`prompt` answers are `Option<string>`, `confirm` answers are `bool`),
 * and the 500 ms timer of `handleSend` is the separate step `BotReply`,
 * which receives the chat id `Send` captured.
 */
module AppComponent {
  import opened Wrappers
  import opened Roles
  import opened JsText
  import opened App

  class ChatApp {
    var chats: seq<Chat>
    var activeChat: int
    var messages: seq<Message>
    var input: string

    /**
     * Chat ids are their 1-based positions (ids come from the count and no
     * chat is ever removed), the active chat and every message's chat exist.
     */
    ghost predicate Valid()
      reads this
    {
      1 <= |chats| && IdsArePositions(chats) &&
      1 <= activeChat <= |chats| &&
      ChatIdsResolve(messages, |chats|)
    }

    /** What the message pane shows: the active chat's messages in insertion order. */
    function Shown(): (v: seq<Message>)
      reads this
      ensures |v| <= |messages|
      ensures forall k :: 0 <= k < |v| ==> v[k].chatId == activeChat
    {
      View(messages, activeChat)
    }

    constructor ()
      ensures Valid()
      ensures chats == InitialChats && activeChat == 1 && messages == [] && input == ""
    {
      chats := InitialChats;
      activeChat := 1;
      messages := [];
      input := "";
      InitialIdsArePositions();
    }

    /** `handleNewChat`: append chat `|chats| + 1` named "Chat <id>" and make it active. */
    method NewChat()
      requires Valid()
      modifies this`chats, this`activeChat
      ensures Valid()
      ensures chats == old(chats) + [NewChatEntry(old(chats))]
      ensures activeChat == |old(chats)| + 1
    {
      var newId := |chats| + 1;
      chats := chats + [NewChatEntry(chats)];
      activeChat := newId;
    }

    /** Clicking the `i`-th chat in the sidebar makes it active. */
    method SelectChat(i: nat)
      requires Valid() && i < |chats|
      modifies this`activeChat
      ensures Valid() && activeChat == chats[i].id == i + 1
    {
      activeChat := chats[i].id;
    }

    /**
     * `handleEditChatName`: the prompt is pre-filled with the name of the chat
     * found for `chatId` (`suggested`, `None` for `undefined`); a cancelled
     * prompt changes nothing, any other answer (the empty string included)
     * becomes that chat's name.
     */
    method EditChatName(chatId: int, answer: Option<string>) returns (suggested: Option<string>)
      requires Valid()
      modifies this`chats
      ensures Valid()
      ensures |chats| == |old(chats)|
      ensures suggested == if 1 <= chatId <= |old(chats)| then Some(old(chats)[chatId - 1].name) else None
      ensures answer.None? ==> chats == old(chats)
      ensures answer.Some? ==> chats == Renamed(old(chats), chatId, answer.value)
      ensures answer.Some? && 1 <= chatId <= |old(chats)| ==>
        chats == old(chats)[chatId - 1 := old(chats)[chatId - 1].(name := answer.value)]
      ensures answer.Some? && !(1 <= chatId <= |old(chats)|) ==> chats == old(chats)
    {
      var found := FindChat(chats, chatId);
      FindChatByPosition(chats, chatId);
      assert found == if 1 <= chatId <= |chats| then Some(chats[chatId - 1]) else None;
      suggested := if found.Some? then Some(found.value.name) else None;
      if answer.Some? {
        var renamed := Renamed(chats, chatId, answer.value);
        RenameTouchesOneChat(chats, chatId, answer.value);
        chats := renamed;
      }
    }

    /** Typing into the input box. */
    method SetInput(text: string)
      requires Valid()
      modifies this`input
      ensures Valid()
      ensures input == text
    {
      input := text;
    }

    /**
     * `handleSend`: an input that trims to "" changes nothing and schedules no
     * reply; otherwise the untrimmed input is appended as the active chat's
     * user message, the input is cleared, and the bot reply is scheduled for
     * the chat active now (`replyTo`).
     */
    method Send() returns (replyTo: Option<int>)
      requires Valid()
      modifies this`messages, this`input
      ensures Valid()
      ensures replyTo.None? <==> forall i :: 0 <= i < |old(input)| ==> IsTrimmable(old(input)[i])
      ensures replyTo.None? ==> messages == old(messages) && input == old(input)
      ensures replyTo.Some? ==>
        replyTo.value == activeChat &&
        messages == old(messages) + [Message(activeChat, User, old(input))] &&
        input == "" &&
        Shown() == old(Shown()) + [Message(activeChat, User, old(input))]
    {
      var blank := Trim(input) == "";
      TrimEmptyIffBlank(input);
      if blank {
        return None;
      }
      var sent := Message(activeChat, User, input);
      ViewAppend(messages, sent, activeChat);
      assert ChatIdsResolve(messages + [sent], |chats|);
      messages := messages + [sent];
      replyTo := Some(activeChat);
      input := "";
    }

    /**
     * The timer callback of `handleSend`: the fixed bot reply is appended to
     * chat `chatId`, the chat captured when the message was sent, whichever
     * chat is active now. `chatId` is always the id `Send` returned, which
     * names an existing chat since chats are never removed.
     */
    method BotReply(chatId: int)
      requires Valid() && 1 <= chatId <= |chats|
      modifies this`messages
      ensures Valid()
      ensures messages == old(messages) + [Message(chatId, Bot, BotReplyText)]
      ensures forall other :: other != chatId ==> View(messages, other) == View(old(messages), other)
      ensures View(messages, chatId) == View(old(messages), chatId) + [Message(chatId, Bot, BotReplyText)]
    {
      var reply := Message(chatId, Bot, BotReplyText);
      forall other
        ensures View(messages + [reply], other) == View(messages, other) + (if chatId == other then [reply] else [])
      {
        ViewAppend(messages, reply, other);
      }
      messages := messages + [reply];
    }

    /**
     * `handleDeleteMessage(index)`: when confirmed, the message at `index` of
     * the full list is removed (nothing when `index` is out of range); when
     * not confirmed, nothing changes.
     */
    method DeleteMessage(index: int, confirmed: bool)
      requires Valid()
      modifies this`messages
      ensures Valid()
      ensures !confirmed ==> messages == old(messages)
      ensures confirmed && 0 <= index < |old(messages)| ==>
        messages == old(messages)[..index] + old(messages)[index + 1..]
      ensures confirmed && !(0 <= index < |old(messages)|) ==> messages == old(messages)
    {
      if confirmed {
        messages := RemoveIndex(messages, index);
      }
    }

    /**
     * `handleEditMessage(index)`: the prompt is pre-filled with the text of
     * the message at `index` of the full list (`suggested`; reading it
     * requires `index` to be in range); a cancelled prompt changes nothing,
     * any other answer replaces that message's text and nothing else.
     */
    method EditMessage(index: int, answer: Option<string>) returns (suggested: string)
      requires Valid() && 0 <= index < |messages|
      modifies this`messages
      ensures Valid()
      ensures suggested == old(messages)[index].text
      ensures answer.None? ==> messages == old(messages)
      ensures answer.Some? ==> messages == old(messages)[index := old(messages)[index].(text := answer.value)]
    {
      suggested := messages[index].text;
      if answer.Some? {
        messages := ReplaceTextAt(messages, index, answer.value);
      }
    }

    /**
     * The delete button of the `k`-th shown message (rendered for user
     * messages only), wired as written: it passes `k` to `DeleteMessage`,
     * which removes the shown message only when all messages up to position
     * `k` belong to the active chat.
     */
    method PressDelete(k: nat, confirmed: bool)
      requires Valid() && k < |Shown()| && Shown()[k].sender == User
      modifies this`messages
      ensures Valid()
      ensures messages == RemovePressed(old(messages), activeChat, k, confirmed)
      ensures confirmed ==>
        (ShownAt(old(messages), activeChat, k) == k <==>
         forall j :: 0 <= j <= k ==> old(messages)[j].chatId == activeChat)
    {
      ShownAtIsIndex(messages, activeChat, k);
      DeleteMessage(k, confirmed);
    }

    /**
     * The edit button of the `k`-th shown message (rendered for user messages
     * only), wired as written: it passes `k` to `EditMessage`, which is always
     * in range of the full list.
     */
    method PressEdit(k: nat, answer: Option<string>) returns (suggested: string)
      requires Valid() && k < |Shown()| && Shown()[k].sender == User
      modifies this`messages
      ensures Valid()
      ensures suggested == old(messages)[k].text
      ensures answer.Some? ==> messages == ReplaceTextAt(old(messages), k, answer.value)
      ensures answer.None? ==> messages == old(messages)
    {
      ShownAtIsIndex(messages, activeChat, k);
      suggested := EditMessage(k, answer);
    }
  }
}
