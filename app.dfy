/**
 * The values of the `ChatApp` component (src/App.tsx) and the pure
 * expressions its event handlers compute: appending a chat, renaming by id,
 * finding a chat, removing and editing a message by position, and the
 * message list filtered by the active chat that the view renders.
 */
module App {
  import opened Wrappers
  import opened Roles
  import opened JsText

  datatype Chat = Chat(id: int, name: string)
  datatype Message = Message(chatId: int, sender: Sender, text: string)

  /** The fixed text of every delayed bot reply. */
  const BotReplyText: string := "這是機器人回覆！"

  /** The state's initial chat list. */
  const InitialChats: seq<Chat> := [Chat(1, "Chat 1")]

  /**
   * The default name `Chat ${id}`: the prefix "Chat " followed by digits that
   * read back as `id`, with no leading zero.
   */
  function ChatName(id: nat): (r: string)
    ensures |r| > 5 && r[..5] == "Chat " && IsDigits(r[5..]) && ParseDecimal(r[5..]) == id
    ensures r[5] == '0' ==> id == 0
  {
    ParseDecimalString(id);
    var r := "Chat " + DecimalString(id);
    assert r[5..] == DecimalString(id);
    r
  }

  lemma ChatNameInjective(a: nat, b: nat)
    ensures ChatName(a) == ChatName(b) ==> a == b
  {
    if ChatName(a) == ChatName(b) {
      assert DecimalString(a) == ChatName(a)[5..];
      assert DecimalString(b) == ChatName(b)[5..];
      DecimalStringInjective(a, b);
    }
  }

  // ---------------------------------------------------------------- chats

  /**
   * The chat `handleNewChat` appends: id one past the current count, default
   * name. Appending it keeps every id equal to its 1-based position.
   */
  function NewChatEntry(chats: seq<Chat>): (c: Chat)
    ensures 0 < c.id && c.name == ChatName(c.id)
    ensures IdsArePositions(chats) ==> IdsArePositions(chats + [c])
  {
    Chat(|chats| + 1, ChatName(|chats| + 1))
  }

  /** The id of every chat is its 1-based position in the list. */
  ghost predicate IdsArePositions(chats: seq<Chat>) {
    forall i :: 0 <= i < |chats| ==> chats[i].id == i + 1
  }

  lemma InitialIdsArePositions()
    ensures IdsArePositions(InitialChats) && InitialChats == [NewChatEntry([])]
  {
    assert DigitChar(1) == '1';
    assert ChatName(1) == "Chat " + "1" == "Chat 1";
  }

  /** Ids given out by position are unique and strictly increasing along the list. */
  lemma IdsStrictlyIncreasing(chats: seq<Chat>)
    requires IdsArePositions(chats)
    ensures forall i, j :: 0 <= i < j < |chats| ==> chats[i].id < chats[j].id
  {
  }

  /** The chat list after `n` calls of `handleNewChat` from the initial state. */
  function ChatsAfterNewChats(n: nat): (r: seq<Chat>)
    ensures |r| == n + 1 && IdsArePositions(r)
  {
    if n == 0 then InitialIdsArePositions(); InitialChats
    else
      var chats := ChatsAfterNewChats(n - 1);
      chats + [NewChatEntry(chats)]
  }

  /** After any number of new chats, chat `i` is `{id: i+1, name: "Chat i+1"}`. */
  lemma {:induction false} NewChatsNumbered(n: nat)
    ensures |ChatsAfterNewChats(n)| == n + 1
    ensures forall i :: 0 <= i <= n ==> ChatsAfterNewChats(n)[i] == Chat(i + 1, ChatName(i + 1))
  {
    if n == 0 {
      InitialIdsArePositions();
    } else {
      NewChatsNumbered(n - 1);
    }
  }

  /** Without renames, chats created by `handleNewChat` carry pairwise distinct names. */
  lemma NewChatNamesDistinct(n: nat)
    ensures |ChatsAfterNewChats(n)| == n + 1
    ensures forall i, j :: 0 <= i < j <= n ==> ChatsAfterNewChats(n)[i].name != ChatsAfterNewChats(n)[j].name
  {
    NewChatsNumbered(n);
    forall i, j | 0 <= i < j <= n
      ensures ChatsAfterNewChats(n)[i].name != ChatsAfterNewChats(n)[j].name
    {
      ChatNameInjective(i + 1, j + 1);
    }
  }

  /** Starting from "Chat 1", two new chats are "Chat 2" and "Chat 3". */
  lemma TwoNewChats()
    ensures ChatsAfterNewChats(2) == [Chat(1, "Chat 1"), Chat(2, "Chat 2"), Chat(3, "Chat 3")]
  {
    NewChatsNumbered(2);
    assert DigitChar(1) == '1' && DigitChar(2) == '2' && DigitChar(3) == '3';
    assert ChatName(1) == "Chat 1" && ChatName(2) == "Chat 2" && ChatName(3) == "Chat 3";
  }

  /** `chats.map(chat => chat.id === chatId ? { ...chat, name: newName } : chat)`. */
  function Renamed(chats: seq<Chat>, chatId: int, newName: string): (r: seq<Chat>)
    ensures |r| == |chats|
    ensures forall i :: 0 <= i < |chats| ==> r[i].id == chats[i].id
    ensures forall i :: 0 <= i < |chats| ==>
      r[i].name == (if chats[i].id == chatId then newName else chats[i].name)
  {
    if chats == [] then []
    else
      [if chats[0].id == chatId then chats[0].(name := newName) else chats[0]]
      + Renamed(chats[1..], chatId, newName)
  }

  /** With ids given by position, a rename changes at most the one chat at position `chatId - 1`. */
  lemma RenameTouchesOneChat(chats: seq<Chat>, chatId: int, newName: string)
    requires IdsArePositions(chats)
    ensures IdsArePositions(Renamed(chats, chatId, newName))
    ensures Renamed(chats, chatId, newName) ==
      if 1 <= chatId <= |chats| then chats[chatId - 1 := chats[chatId - 1].(name := newName)] else chats
  {
    var r := Renamed(chats, chatId, newName);
    if 1 <= chatId <= |chats| {
      assert forall i :: 0 <= i < |r| ==> r[i] == chats[chatId - 1 := chats[chatId - 1].(name := newName)][i];
    } else {
      assert forall i :: 0 <= i < |r| ==> r[i] == chats[i];
    }
  }

  /** Position `i` holds the first chat with id `chatId`. */
  ghost predicate FirstWithId(chats: seq<Chat>, chatId: int, i: int) {
    0 <= i < |chats| && chats[i].id == chatId && forall j :: 0 <= j < i ==> chats[j].id != chatId
  }

  /** `chats.find(chat => chat.id === chatId)`: the first chat with that id, if any. */
  function FindChat(chats: seq<Chat>, chatId: int): (r: Option<Chat>)
    ensures r.None? <==> forall i :: 0 <= i < |chats| ==> chats[i].id != chatId
    ensures r.Some? ==> r.value.id == chatId && r.value in chats
    ensures r.Some? ==> exists i :: FirstWithId(chats, chatId, i) && chats[i] == r.value
  {
    if chats == [] then None
    else if chats[0].id == chatId then Some(chats[0])
    else FindChat(chats[1..], chatId)
  }

  /** With ids given by position, the chat found for `chatId` is the one at position `chatId - 1`. */
  lemma FindChatByPosition(chats: seq<Chat>, chatId: int)
    requires IdsArePositions(chats)
    ensures FindChat(chats, chatId) == if 1 <= chatId <= |chats| then Some(chats[chatId - 1]) else None
  {
    if 1 <= chatId <= |chats| {
      assert chats[chatId - 1].id == chatId;
    }
  }

  // ------------------------------------------------------------- messages

  /** `prev.filter((_, idx) => idx !== index)`. */
  function RemoveIndex(ms: seq<Message>, index: int): (r: seq<Message>)
    ensures r == if 0 <= index < |ms| then ms[..index] + ms[index + 1..] else ms
  {
    if ms == [] then []
    else
      var init := ms[..|ms| - 1];
      RemoveIndex(init, index) + (if index == |ms| - 1 then [] else [ms[|ms| - 1]])
  }

  /** `prev.map((msg, idx) => idx === index ? { ...msg, text: newText } : msg)`. */
  function ReplaceTextAt(ms: seq<Message>, index: int, newText: string): (r: seq<Message>)
    ensures r == if 0 <= index < |ms| then ms[index := ms[index].(text := newText)] else ms
  {
    if ms == [] then []
    else
      var init := ms[..|ms| - 1];
      var last := ms[|ms| - 1];
      ReplaceTextAt(init, index, newText) + [if index == |ms| - 1 then last.(text := newText) else last]
  }

  /** Every message names a chat among the first `n` ids. */
  ghost predicate ChatIdsResolve(ms: seq<Message>, n: int) {
    forall i :: 0 <= i < |ms| ==> 1 <= ms[i].chatId <= n
  }

  // ----------------------------------------------------------------- view

  /** `messages.filter((msg) => msg.chatId === activeChat)`: what the view shows, in insertion order. */
  function View(ms: seq<Message>, chatId: int): (v: seq<Message>)
    ensures |v| <= |ms|
    ensures forall k :: 0 <= k < |v| ==> v[k].chatId == chatId
  {
    if ms == [] then []
    else if ms[0].chatId == chatId then [ms[0]] + View(ms[1..], chatId)
    else View(ms[1..], chatId)
  }

  lemma {:induction false} ViewConcat(a: seq<Message>, b: seq<Message>, chatId: int)
    ensures View(a + b, chatId) == View(a, chatId) + View(b, chatId)
  {
    if a == [] {
      assert a + b == b;
    } else {
      assert (a + b)[1..] == a[1..] + b;
      ViewConcat(a[1..], b, chatId);
    }
  }

  /** A message appended to the store becomes the last message its own chat shows; every other chat's view is untouched. */
  lemma ViewAppend(ms: seq<Message>, m: Message, chatId: int)
    ensures View(ms + [m], chatId) == View(ms, chatId) + (if m.chatId == chatId then [m] else [])
  {
    ViewConcat(ms, [m], chatId);
  }

  /** Splits every view around position `p`. */
  lemma ViewAround(ms: seq<Message>, p: nat, chatId: int)
    requires p < |ms|
    ensures View(ms, chatId) == View(ms[..p], chatId) + View([ms[p]], chatId) + View(ms[p + 1..], chatId)
  {
    assert ms == ms[..p] + [ms[p]] + ms[p + 1..];
    ViewConcat(ms[..p] + [ms[p]], ms[p + 1..], chatId);
    ViewConcat(ms[..p], [ms[p]], chatId);
  }

  /** Deleting position `p` drops exactly that message from its chat's view and keeps the order of all others. */
  lemma ViewAfterRemove(ms: seq<Message>, p: nat, chatId: int)
    requires p < |ms|
    ensures View(RemoveIndex(ms, p), chatId) == View(ms[..p], chatId) + View(ms[p + 1..], chatId)
    ensures ms[p].chatId != chatId ==> View(RemoveIndex(ms, p), chatId) == View(ms, chatId)
  {
    var r := RemoveIndex(ms, p);
    assert r == ms[..p] + ms[p + 1..];
    ViewConcat(ms[..p], ms[p + 1..], chatId);
    assert View(r, chatId) == View(ms[..p], chatId) + View(ms[p + 1..], chatId);
    ViewAround(ms, p, chatId);
    if ms[p].chatId != chatId {
      assert [ms[p]][1..] == [];
      assert View([ms[p]], chatId) == [];
    }
  }

  /** Editing position `p` changes the text of that one message in its chat's view and nothing else. */
  lemma ViewAfterReplace(ms: seq<Message>, p: nat, newText: string, chatId: int)
    requires p < |ms|
    ensures View(ReplaceTextAt(ms, p, newText), chatId)
      == View(ms[..p], chatId) + View([ms[p].(text := newText)], chatId) + View(ms[p + 1..], chatId)
    ensures ms[p].chatId != chatId ==> View(ReplaceTextAt(ms, p, newText), chatId) == View(ms, chatId)
  {
    var r := ReplaceTextAt(ms, p, newText);
    assert r[..p] == ms[..p] && r[p + 1..] == ms[p + 1..];
    ViewAround(r, p, chatId);
    ViewAround(ms, p, chatId);
  }

  // -------------------------------------------- view positions (finding)

  /** Where in the full list the `k`-th shown message of `chatId` sits. */
  function ShownAt(ms: seq<Message>, chatId: int, k: nat): (p: nat)
    requires k < |View(ms, chatId)|
    ensures k <= p < |ms|
    ensures ms[p] == View(ms, chatId)[k]
    decreases |ms|
  {
    if ms[0].chatId == chatId then
      (if k == 0 then 0 else 1 + ShownAt(ms[1..], chatId, k - 1))
    else 1 + ShownAt(ms[1..], chatId, k)
  }

  /** The shown messages after the `k`-th one are exactly those after its full-list position. */
  lemma ShownAtSplit(ms: seq<Message>, chatId: int, k: nat)
    requires k < |View(ms, chatId)|
    ensures View(ms[ShownAt(ms, chatId, k) + 1..], chatId) == View(ms, chatId)[k + 1..]
  {
    var p := ShownAt(ms, chatId, k);
    ShownAtPrefix(ms, chatId, k);
    ViewAround(ms, p, chatId);
    assert View([ms[p]], chatId) == [ms[p]];
  }

  /** Exactly `k` shown messages precede the `k`-th one. */
  lemma {:induction false} ShownAtPrefix(ms: seq<Message>, chatId: int, k: nat)
    requires k < |View(ms, chatId)|
    ensures View(ms[..ShownAt(ms, chatId, k)], chatId) == View(ms, chatId)[..k]
    decreases |ms|
  {
    var p := ShownAt(ms, chatId, k);
    if p == 0 {
      assert ms[..p] == [];
    } else {
      var m, tail := ms[0], ms[1..];
      var k' := if m.chatId == chatId then k - 1 else k;
      assert ms == [m] + tail;
      ViewCons(m, tail, chatId);
      var q := ShownAt(tail, chatId, k');
      assert p == q + 1;
      ShownAtPrefix(tail, chatId, k');
      assert ms[..p] == [m] + tail[..q];
      ViewCons(m, tail[..q], chatId);
      if m.chatId == chatId {
        PrefixOfCons(m, View(tail, chatId), k);
      }
    }
  }

  /** The first `k > 0` entries of `[m] + v` are `m` and the first `k - 1` entries of `v`. */
  lemma PrefixOfCons(m: Message, v: seq<Message>, k: nat)
    requires 0 < k <= |v| + 1
    ensures ([m] + v)[..k] == [m] + v[..k - 1]
  {
  }

  /** The view of a list that starts with `m`. */
  lemma ViewCons(m: Message, s: seq<Message>, chatId: int)
    ensures View([m] + s, chatId) == (if m.chatId == chatId then [m] else []) + View(s, chatId)
  {
    assert ([m] + s)[1..] == s;
  }

  /**
   * The edit and delete buttons hand the handlers `k`, the position in the
   * filtered list, and the handlers index the full list. They act on the
   * shown message exactly when every message up to and including position
   * `k` belongs to the shown chat.
   */
  lemma {:induction false} ShownAtIsIndex(ms: seq<Message>, chatId: int, k: nat)
    requires k < |View(ms, chatId)|
    ensures k < |ms|
    ensures ShownAt(ms, chatId, k) == k <==> forall j :: 0 <= j <= k ==> ms[j].chatId == chatId
    decreases |ms|
  {
    var tail := ms[1..];
    if ms[0].chatId == chatId && k > 0 {
      ShownAtIsIndex(tail, chatId, k - 1);
      assert forall j :: 1 <= j <= k ==> ms[j] == tail[j - 1];
      if forall j :: 0 <= j <= k - 1 ==> tail[j].chatId == chatId {
        assert forall j :: 0 <= j <= k ==> ms[j].chatId == chatId;
      }
    }
  }

  /** What a delete button press does as written: it removes the message at the filtered position in the full list. */
  function RemovePressed(ms: seq<Message>, chatId: int, k: nat, confirmed: bool): (r: seq<Message>)
    requires k < |View(ms, chatId)|
    ensures r == if confirmed then ms[..k] + ms[k + 1..] else ms
  {
    if confirmed then RemoveIndex(ms, k) else ms
  }

  /** Two messages, the first in chat 1, the second in chat 2; chat 2 is shown. */
  const MixedMessages: seq<Message> := [Message(1, User, "a"), Message(2, User, "b")]

  /**
   * Chat 2 shows only "b", yet deleting its first shown message removes
   * chat 1's "a": chat 2 still shows "b" and chat 1 has lost its message.
   */
  lemma RemovePressedHitsOtherChat()
    ensures View(MixedMessages, 2) == [Message(2, User, "b")]
    ensures View(RemovePressed(MixedMessages, 2, 0, true), 2) == [Message(2, User, "b")]
    ensures View(RemovePressed(MixedMessages, 2, 0, true), 1) == []
    ensures ShownAt(MixedMessages, 2, 0) == 1
  {
    assert MixedMessages[1..] == [Message(2, User, "b")];
    assert RemovePressed(MixedMessages, 2, 0, true) == [Message(2, User, "b")];
  }

  /**
   * Editing chat 2's first shown message pre-fills the prompt with "a"
   * (chat 1's text) and writes the answer into chat 1's message.
   */
  lemma EditPressedHitsOtherChat()
    ensures MixedMessages[0].text == "a"
    ensures View(ReplaceTextAt(MixedMessages, 0, "x"), 1) == [Message(1, User, "x")]
    ensures View(ReplaceTextAt(MixedMessages, 0, "x"), 2) == View(MixedMessages, 2)
  {
    assert ReplaceTextAt(MixedMessages, 0, "x") == [Message(1, User, "x"), Message(2, User, "b")];
    assert [Message(1, User, "x"), Message(2, User, "b")][1..] == [Message(2, User, "b")];
    assert MixedMessages[1..] == [Message(2, User, "b")];
  }

  /** `p` is the full-list position of the `k`-th shown message of `chatId`. */
  ghost predicate ShownPosition(ms: seq<Message>, chatId: int, k: nat, p: int) {
    0 <= p < |ms| && ms[p].chatId == chatId && |View(ms[..p], chatId)| == k
  }

  /** The intended delete from the view: remove the `k`-th shown message of `chatId`. */
  function RemoveShown(ms: seq<Message>, chatId: int, k: nat): (r: seq<Message>)
    requires k < |View(ms, chatId)|
    ensures |r| == |ms| - 1
    ensures exists p :: ShownPosition(ms, chatId, k, p) && r == ms[..p] + ms[p + 1..]
    ensures View(r, chatId) == View(ms, chatId)[..k] + View(ms, chatId)[k + 1..]
    ensures forall other :: other != chatId ==> View(r, other) == View(ms, other)
  {
    var p := ShownAt(ms, chatId, k);
    ShownAtPosition(ms, chatId, k);
    RemoveShownView(ms, chatId, k);
    RemoveKeepsOtherViews(ms, p);
    RemoveIndex(ms, p)
  }

  /** `ShownAt` gives the full-list position of the `k`-th shown message. */
  lemma ShownAtPosition(ms: seq<Message>, chatId: int, k: nat)
    requires k < |View(ms, chatId)|
    ensures ShownPosition(ms, chatId, k, ShownAt(ms, chatId, k))
  {
    ShownAtPrefix(ms, chatId, k);
  }

  /** Deleting at that position removes exactly entry `k` of the view. */
  lemma RemoveShownView(ms: seq<Message>, chatId: int, k: nat)
    requires k < |View(ms, chatId)|
    ensures View(RemoveIndex(ms, ShownAt(ms, chatId, k)), chatId) == View(ms, chatId)[..k] + View(ms, chatId)[k + 1..]
  {
    ShownAtPrefix(ms, chatId, k);
    ShownAtSplit(ms, chatId, k);
    RemoveBetween(ms, ShownAt(ms, chatId, k), chatId, View(ms, chatId), k);
  }

  /** Deleting a position whose chat's view splits at `k` removes exactly entry `k` of that view. */
  lemma RemoveBetween(ms: seq<Message>, p: nat, chatId: int, v: seq<Message>, k: nat)
    requires p < |ms| && k < |v|
    requires View(ms[..p], chatId) == v[..k] && View(ms[p + 1..], chatId) == v[k + 1..]
    ensures View(RemoveIndex(ms, p), chatId) == v[..k] + v[k + 1..]
  {
    ViewAfterRemove(ms, p, chatId);
  }

  lemma RemoveKeepsOtherViews(ms: seq<Message>, p: nat)
    requires p < |ms|
    ensures forall other :: other != ms[p].chatId ==> View(RemoveIndex(ms, p), other) == View(ms, other)
  {
    forall other | other != ms[p].chatId
      ensures View(RemoveIndex(ms, p), other) == View(ms, other)
    {
      ViewAfterRemove(ms, p, other);
    }
  }

  /** The intended edit from the view: replace the text of the `k`-th shown message of `chatId`. */
  function EditShown(ms: seq<Message>, chatId: int, k: nat, newText: string): (r: seq<Message>)
    requires k < |View(ms, chatId)|
    ensures |r| == |ms|
    ensures exists p :: ShownPosition(ms, chatId, k, p) && r == ms[p := ms[p].(text := newText)]
    ensures View(r, chatId) == View(ms, chatId)[k := View(ms, chatId)[k].(text := newText)]
    ensures forall other :: other != chatId ==> View(r, other) == View(ms, other)
  {
    ShownAtPosition(ms, chatId, k);
    EditShownView(ms, chatId, k, newText);
    ReplaceKeepsOtherViews(ms, ShownAt(ms, chatId, k), newText);
    ReplaceTextAt(ms, ShownAt(ms, chatId, k), newText)
  }

  lemma EditShownView(ms: seq<Message>, chatId: int, k: nat, newText: string)
    requires k < |View(ms, chatId)|
    ensures View(ReplaceTextAt(ms, ShownAt(ms, chatId, k), newText), chatId)
      == View(ms, chatId)[k := View(ms, chatId)[k].(text := newText)]
  {
    var p := ShownAt(ms, chatId, k);
    ShownAtPrefix(ms, chatId, k);
    assert |View(ms[..p], chatId)| == k;
    ViewEditAt(ms, p, newText, chatId);
  }

  /** Editing a message of chat `chatId` changes the entry of the view that counts the shown messages before it. */
  lemma ViewEditAt(ms: seq<Message>, p: nat, newText: string, chatId: int)
    requires p < |ms| && ms[p].chatId == chatId
    ensures |View(ms[..p], chatId)| < |View(ms, chatId)|
    ensures View(ReplaceTextAt(ms, p, newText), chatId)
      == View(ms, chatId)[|View(ms[..p], chatId)| := ms[p].(text := newText)]
  {
    var edited := ms[p].(text := newText);
    ViewAroundOwn(ms, p, chatId);
    ViewReplaceOwn(ms, p, newText, chatId);
    UpdateMiddle(View(ms[..p], chatId), ms[p], edited, View(ms[p + 1..], chatId));
  }

  /** A message of the viewed chat sits in the view between the views of the parts around it. */
  lemma ViewAroundOwn(ms: seq<Message>, p: nat, chatId: int)
    requires p < |ms| && ms[p].chatId == chatId
    ensures View(ms, chatId) == View(ms[..p], chatId) + [ms[p]] + View(ms[p + 1..], chatId)
  {
    ViewAround(ms, p, chatId);
    ViewSingle(ms[p], chatId);
  }

  /** The edited message takes the same place in the view of the edited list. */
  lemma ViewReplaceOwn(ms: seq<Message>, p: nat, newText: string, chatId: int)
    requires p < |ms| && ms[p].chatId == chatId
    ensures View(ReplaceTextAt(ms, p, newText), chatId)
      == View(ms[..p], chatId) + [ms[p].(text := newText)] + View(ms[p + 1..], chatId)
  {
    ViewAfterReplace(ms, p, newText, chatId);
    ViewSingle(ms[p].(text := newText), chatId);
  }

  /** A single message shows exactly when it belongs to the viewed chat. */
  lemma ViewSingle(m: Message, chatId: int)
    ensures View([m], chatId) == if m.chatId == chatId then [m] else []
  {
    ViewCons(m, [], chatId);
  }

  /** Updating the entry right after `before` in `before + [x] + after` puts `y` in its place. */
  lemma UpdateMiddle(before: seq<Message>, x: Message, y: Message, after: seq<Message>)
    ensures (before + [x] + after)[|before| := y] == before + [y] + after
  {
    var v, w := before + [x] + after, before + [y] + after;
    forall i | 0 <= i < |w|
      ensures v[|before| := y][i] == w[i]
    {
      if i < |before| {
        assert w[i] == before[i] == v[i];
      } else if i > |before| {
        assert w[i] == after[i - |before| - 1] == v[i];
      }
    }
  }

  lemma ReplaceKeepsOtherViews(ms: seq<Message>, p: nat, newText: string)
    requires p < |ms|
    ensures forall other :: other != ms[p].chatId ==> View(ReplaceTextAt(ms, p, newText), other) == View(ms, other)
  {
    forall other | other != ms[p].chatId
      ensures View(ReplaceTextAt(ms, p, newText), other) == View(ms, other)
    {
      ViewAfterReplace(ms, p, newText, other);
    }
  }
}
