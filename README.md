# Chat front-end state, in Dafny

A model of the in-memory chat state of a React chat front-end for a
manufacturing assistant, with proofs about it.

- `ChatApp` (src/App.tsx) holds four fields. `chats` is an ordered list of
  `{id, name}`. `activeChat` is a chat id. `messages` is an ordered list of
  `{chatId, sender, text}`. `input` is the text box.
- Its handlers replace those fields. They create a chat, rename a chat,
  send a message (followed by a delayed bot reply), and delete or edit a
  message.
- The message pane shows `messages` filtered by the active chat.
- `ChatWindow` (src/components/Chatbot/ChatWindow.tsx) is a single-list
  variant with one message list and an input box.

Files:

- `wrappers.dfy`: `Option` (a prompt answer, `None` standing for a cancelled
  prompt) and `Sender`.
- `js_text.dfy`: the ECMAScript behaviour the handlers rely on. This is
  `String.prototype.trim` over the WhiteSpace and LineTerminator code points,
  and the decimal rendering of the id in `Chat ${newId}`, with its inverse.
- `app.dfy`: the `ChatApp` values and the pure expressions its handlers
  compute (`map` by id, `find`, `filter` and `map` by index, the filtered
  view), with lemmas about them.
- `app_component.dfy`: class `ChatApp`. Its methods are the handlers. Each
  states the whole new state and keeps the invariant `Valid()`: chat ids
  equal their 1-based positions, the active chat exists, and every message
  names an existing chat.
- `chat_window.dfy`: class `ChatWindow`.

Browser dialogs and the timer are inputs or separate steps:

- A `prompt` answer is an `Option<string>` parameter.
- A `confirm` answer is a `bool` parameter.
- Each 500 ms `setTimeout` callback is its own method, `BotReply`.
  `ChatApp.Send` returns the chat id that the callback captured, and
  `BotReply` takes that id.

Points of the code's behaviour the model keeps:

- Renaming a chat to the empty string is accepted. Only a cancelled prompt
  (`null`) leaves the name unchanged (src/App.tsx:20).
- Editing a message whose index is out of range is not a silent no-op. The
  handler reads `messages[index].text` before prompting, which throws, so
  `EditMessage` requires the index to be in range (src/App.tsx:41).
- A new chat id is the chat count plus one, not a separate counter
  (src/App.tsx:13).
- Chat selection does no validation (src/App.tsx:59). It is modelled as
  clicking one of the listed chats, which is the only way the view selects.

## Model

| member | source | states |
|---|---|---|
| JsText.TrimStart | src/App.tsx:26 | leading trim: the result is a suffix of the input, everything dropped is trimmable, and the result does not start with a trimmable character |
| JsText.TrimEnd | src/App.tsx:26 | trailing trim: the result is a prefix of the input, everything dropped is trimmable, and the result does not end with a trimmable character |
| JsText.IsTrimmable | src/App.tsx:26 | the characters `trim` removes: the ECMAScript WhiteSpace code points (tab, vertical tab, form feed, space, no-break space, byte order mark and the Unicode space separators) and the LineTerminator code points (line feed, carriage return, line and paragraph separators) |
| JsText.Trim | src/App.tsx:26 | `input.trim()`: the result is a contiguous slice of the input, everything before and after it is trimmable, and it neither starts nor ends with a trimmable character; `JsText.TrimEmptyIffBlank` carries the blank-input guard |
| JsText.TrimEmptyIffBlank | src/App.tsx:26 | `input.trim()` is "" exactly when every character of the input is ECMAScript whitespace or a line terminator |
| JsText.DecimalString | src/App.tsx:14 | an id renders as a non-empty string of decimal digits with no leading zero |
| JsText.ParseDecimalString | src/App.tsx:14 | reading the rendered digits back gives the original number |
| JsText.DecimalStringInjective | src/App.tsx:14 | distinct ids render as distinct digit strings |
| App.ChatName | src/App.tsx:14 | the default name `Chat ${id}` is "Chat " followed by decimal digits that read back as the id, with no leading zero unless the id is 0, so the rendering is canonical |
| App.ChatNameInjective | src/App.tsx:14 | distinct ids give distinct default names `Chat ${id}` |
| App.InitialIdsArePositions | src/App.tsx:5-7 | the initial list `[{1, "Chat 1"}]` is exactly what a new chat on an empty list would give, and its id is its position |
| App.NewChatEntry | src/App.tsx:13-14 | the new chat gets a positive id and the default name for that id, and appending it keeps every chat's id equal to its 1-based position |
| App.IdsStrictlyIncreasing | src/App.tsx:13-14 | when ids are positions, they strictly increase along the list and so are unique |
| App.ChatsAfterNewChats | src/App.tsx:12-16 | `n` new chats from the initial list give `n + 1` chats whose ids are their positions; `App.NewChatsNumbered` gives each entry |
| App.NewChatsNumbered | src/App.tsx:12-16 | after any number of new chats from the initial state, chat `i` is `{i+1, "Chat i+1"}` |
| App.NewChatNamesDistinct | src/App.tsx:13-14 | without renames, the chats created by new-chat carry pairwise distinct names |
| App.TwoNewChats | src/App.tsx:5-16 | from "Chat 1", two new chats give exactly "Chat 1", "Chat 2" and "Chat 3" with ids 1, 2, 3 |
| App.Renamed | src/App.tsx:21 | the rename `map` keeps the length and every id, gives the new name (even "") to each chat with the matching id, and leaves every other name unchanged |
| App.RenameTouchesOneChat | src/App.tsx:18-23 | when ids are positions, a rename replaces only the name of the chat at position `id - 1` (nothing if no chat has that id) and keeps ids equal to positions |
| App.FindChat | src/App.tsx:19 | `find` by id gives nothing exactly when no chat has that id; otherwise it gives the first listed chat with that id |
| App.FindChatByPosition | src/App.tsx:19 | when ids are positions, the chat found for an id is the one at position `id - 1` |
| App.RemoveIndex | src/App.tsx:36 | the delete `filter` removes exactly the element at the index when it is in range, and changes nothing otherwise |
| App.ReplaceTextAt | src/App.tsx:43 | the edit `map` replaces only the text of the message at the index (chat id, sender, length and all other messages kept), and changes nothing when the index is out of range |
| App.View | src/App.tsx:70 | the displayed list has only messages of the given chat and is no longer than the full list |
| App.ViewConcat | src/App.tsx:70 | filtering is in insertion order: the view of a concatenation is the concatenation of the views |
| App.ViewAppend | src/App.tsx:27-29 | an appended message becomes the last displayed message of its own chat and leaves every other chat's view unchanged |
| App.ViewCons | src/App.tsx:70 | a leading message shows first in its own chat's view and not at all in any other |
| App.ViewAround | src/App.tsx:70 | every view splits into the part before a position, the message at it, and the part after it |
| App.ViewAfterRemove | src/App.tsx:36 | deleting position `p` removes only that message from its chat's view, keeps the relative order of all other messages, and leaves the views of other chats unchanged |
| App.RemoveKeepsOtherViews | src/App.tsx:36 | deleting a message leaves the view of every other chat unchanged |
| App.ViewAfterReplace | src/App.tsx:43 | editing position `p` changes only that message's text in its chat's view and leaves other chats' views unchanged |
| App.ReplaceKeepsOtherViews | src/App.tsx:43 | editing a message leaves the view of every other chat unchanged |
| App.ShownAt | src/App.tsx:70-76 | the `k`-th displayed message sits at a full-list position that is at least `k` |
| App.ShownAtPrefix | src/App.tsx:70 | exactly `k` displayed messages come before the full-list position of the `k`-th one |
| App.ShownAtSplit | src/App.tsx:70 | the displayed messages after the `k`-th one are exactly the chat's messages after its full-list position |
| App.ShownAtPosition | src/App.tsx:70 | `ShownAt` gives a position holding a message of the chat with exactly `k` of the chat's messages before it |
| App.ShownAtIsIndex | src/App.tsx:70-76 | a button's filtered index `k` is in range of the full list; it names the displayed message exactly when every message up to position `k` belongs to the active chat |
| App.RemovePressed | src/App.tsx:76 | a confirmed delete press, as wired, removes the full-list message at the filtered index |
| App.RemovePressedHitsOtherChat | src/App.tsx:70-76 | counterexample: with chat 1's "a" before chat 2's "b" and chat 2 active, deleting the shown "b" removes "a" instead |
| App.EditPressedHitsOtherChat | src/App.tsx:70-75 | counterexample: in the same state, editing the shown "b" pre-fills "a" and rewrites chat 1's message |
| App.RemoveShown | src/App.tsx:76 | corrected delete: the result is the full list with exactly one message removed, at the position of the `k`-th displayed message, so the order of all other messages is kept; the active view loses exactly entry `k` and the other chats' views are unchanged |
| App.RemoveShownView | src/App.tsx:76 | deleting at the full-list position of the `k`-th displayed message removes exactly entry `k` of the view |
| App.EditShown | src/App.tsx:75 | corrected edit: the result is the full list with only the text of the `k`-th displayed message changed, at its full-list position; that view entry alone changes and the other chats' views are unchanged |
| App.EditShownView | src/App.tsx:75 | editing at the full-list position of the `k`-th displayed message changes exactly that displayed entry's text |
| App.ViewEditAt | src/App.tsx:43 | editing a message of the chat at full-list position `p` replaces, in that chat's view, exactly the entry at the number of its messages before `p` |
| AppComponent.ChatApp.constructor | src/App.tsx:5-10 | the initial state is one chat `{1, "Chat 1"}`, active chat 1, no messages and empty input; the invariant holds |
| AppComponent.ChatApp.Shown | src/App.tsx:70 | the displayed list holds only messages of the active chat and is no longer than the full list; `App.ViewConcat` and `App.ViewAppend` carry its order |
| AppComponent.ChatApp.NewChat | src/App.tsx:12-16 | appends exactly `App.NewChatEntry` of the old list, `{n+1, "Chat n+1"}`, with earlier chats unchanged, makes it active and keeps the invariant |
| AppComponent.ChatApp.SelectChat | src/App.tsx:59 | clicking a listed chat makes its id (its position + 1) active |
| AppComponent.ChatApp.EditChatName | src/App.tsx:18-23 | the prompt is pre-filled with the found chat's name; cancel changes nothing; an answer (even "") renames only the chat with that id, keeping length, order and ids |
| AppComponent.ChatApp.SetInput | src/App.tsx:85 | typing replaces the input and keeps the invariant |
| AppComponent.ChatApp.Send | src/App.tsx:25-32 | whitespace-only input changes nothing and schedules no reply; otherwise appends `{activeChat, user, input}` untrimmed at the end, so it is the last shown message; it clears the input and returns the captured chat for the reply |
| AppComponent.ChatApp.BotReply | src/App.tsx:28-30 | appends the fixed bot reply to the captured chat, leaving earlier messages and every other chat's view unchanged |
| AppComponent.ChatApp.DeleteMessage | src/App.tsx:34-38 | a confirmed delete removes exactly the element at the index (nothing when out of range); without confirmation nothing changes |
| AppComponent.ChatApp.EditMessage | src/App.tsx:40-45 | pre-fills the prompt with the indexed message's text; cancel changes nothing; an answer replaces only that message's text |
| AppComponent.ChatApp.PressDelete | src/App.tsx:76 | the delete button passes the filtered index; the message it removes is the displayed one exactly when all messages up to that index belong to the active chat |
| AppComponent.ChatApp.PressEdit | src/App.tsx:75 | the edit button passes the filtered index, which is always in range of the full list, and edits the full-list message there |
| Chatbot.ChatWindow.constructor | src/components/Chatbot/ChatWindow.tsx:5-6 | starts with no messages and an empty input |
| Chatbot.ChatWindow.SetInput | src/components/Chatbot/ChatWindow.tsx:29 | typing replaces the input |
| Chatbot.ChatWindow.Send | src/components/Chatbot/ChatWindow.tsx:8-16 | whitespace-only input changes nothing; otherwise appends `{input, user}` untrimmed after all earlier bubbles and clears the input; the list only grows |
| Chatbot.ChatWindow.BotReply | src/components/Chatbot/ChatWindow.tsx:12-14 | appends the fixed bot reply after all earlier bubbles; the list only grows |

## Findings

| source | as written | input that shows it | evidently intended | confidence | as-written member | corrected member |
|---|---|---|---|---|---|---|
| src/App.tsx:70-76 | the delete button passes `idx`, the position in the filtered list, to a handler that filters the full list by that position | messages `[{1,user,"a"}, {2,user,"b"}]`, active chat 2, delete the first shown message | remove the displayed message "b" | high, not executed | App.RemovePressedHitsOtherChat | App.RemoveShown |
| src/App.tsx:70-75 | the edit button passes `idx`, the position in the filtered list, to a handler that reads and maps the full list by that position | the same state, edit the first shown message | pre-fill and rewrite "b" | high, not executed | App.EditPressedHitsOtherChat | App.EditShown |

`App.ShownAtIsIndex` gives the exact condition under which the as-written
wiring is right. The class `ChatApp` keeps the as-written wiring in
`PressDelete` and `PressEdit`. `RemoveShown` and `EditShown` are the
corrected definitions and carry the proved intended properties.

## Left out

- src/main.tsx: the Amplify configuration and React root rendering are library calls and DOM I/O.
- src/components/Chatbot/MessageBubble.tsx: it only picks CSS classes by sender.
- JSX, CSS, keys, and click and keyboard wiring: left out. The exceptions are the filter at src/App.tsx:70 (`App.View`) and the chat-item click and edit/delete buttons (`SelectChat`, `PressEdit`, `PressDelete`).
- Timing: the 500 ms delay, React state batching and stale render closures are not modelled. Each handler and each timer callback is one atomic step. So `setMessages([...messages, …])` at src/App.tsx:27 and src/components/Chatbot/ChatWindow.tsx:10 is treated the same as the functional update used by the timer.
- Interleaving: the order in which pending bot replies run is not modelled. The caller chooses when to call `BotReply`.
- Browser dialogs: `prompt` and `confirm` are caller-supplied answers, not behaviour.
- AppComponent.ChatApp.BotReply: requires that its chat id names an existing chat. The timer only ever passes the id `Send` captured, and chats are never removed.
- JsText.DecimalString: renders every non-negative integer in plain decimal. JavaScript switches to exponent notation from 1e21, which a chat count never reaches.
- Agent-stream decoding, the file-content relay and the spreadsheet export: none of them appears in src/App.tsx or src/components/Chatbot/ChatWindow.tsx. The code that does them is not part of this model.
