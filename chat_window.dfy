/**
 * The single-list `ChatWindow` component
 * (src/components/Chatbot/ChatWindow.tsx): one message list, rendered as
 * bubbles in insertion order, and an input box. The 500 ms timer of
 * `handleSend` is the separate step `BotReply`.
 */
module Chatbot {
  import opened Roles
  import opened JsText

  datatype Bubble = Bubble(text: string, sender: Sender)

  /** The fixed text of every delayed bot reply. */
  const BotReplyText: string := "這是機器人的回覆！"

  class ChatWindow {
    var messages: seq<Bubble>
    var input: string

    constructor ()
      ensures messages == [] && input == ""
    {
      messages := [];
      input := "";
    }

    /** Typing into the input box; the message list is untouched. */
    method SetInput(text: string)
      modifies this`input
      ensures input == text
    {
      input := text;
    }

    /**
     * `handleSend`: an input that trims to "" changes nothing and schedules no
     * reply; otherwise the untrimmed input is appended as a user bubble after
     * all earlier ones, the input is cleared, and a bot reply is scheduled.
     */
    method Send() returns (replyScheduled: bool)
      modifies this`messages, this`input
      ensures replyScheduled <==> !(forall i :: 0 <= i < |old(input)| ==> IsTrimmable(old(input)[i]))
      ensures !replyScheduled ==> messages == old(messages) && input == old(input)
      ensures replyScheduled ==> messages == old(messages) + [Bubble(old(input), User)] && input == ""
      ensures old(messages) <= messages
    {
      TrimEmptyIffBlank(input);
      if Trim(input) == "" {
        return false;
      }
      messages := messages + [Bubble(input, User)];
      replyScheduled := true;
      input := "";
    }

    /** The timer callback: the fixed bot reply is appended after all earlier bubbles. */
    method BotReply()
      modifies this`messages
      ensures messages == old(messages) + [Bubble(BotReplyText, Bot)]
      ensures old(messages) <= messages
    {
      messages := messages + [Bubble(BotReplyText, Bot)];
    }
  }
}
