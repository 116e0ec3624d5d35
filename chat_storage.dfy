/**
 * The browser chat store: chats kept under one storage key, read whole,
 * changed and written back. The stored list is a field of `ChatStore`; the
 * list operations behind each store operation are functions on `seq<Chat>`.
 * `Date.now()` and `crypto.randomUUID()` are parameters, and the JSON round
 * trip through storage is the identity.
 */
module ChatStorage {
  import opened Wrappers

  datatype Role = User | Assistant

  /** One meal of a saved plan. */
  datatype MealSummary = MealSummary(name: string, description: string, calories: int, protein: int, carbs: int, fat: int)

  datatype MealPlan = MealPlan(id: string, meals: seq<MealSummary>)

  datatype Message = Message(id: string, content: string, role: Role, timestamp: int, mealPlan: Option<MealPlan>)

  datatype Chat = Chat(id: string, title: string, messages: seq<Message>, timestamp: int, updatedAt: int, mealPlan: Option<MealPlan>)

  /** `saveChat` keeps only this many chats. */
  const MaxChats: nat := 10

  predicate HasId(chats: seq<Chat>, id: string) {
    exists k :: 0 <= k < |chats| && chats[k].id == id
  }

  /** No two stored chats share an id. */
  predicate UniqueIds(chats: seq<Chat>) {
    forall i, j :: 0 <= i < j < |chats| ==> chats[i].id != chats[j].id
  }

  /** `chats.findIndex(chat => chat.id === id)` */
  function FindIndex(chats: seq<Chat>, id: string): (k: int)
    ensures -1 <= k < |chats|
    ensures k >= 0 ==> chats[k].id == id && forall j :: 0 <= j < k ==> chats[j].id != id
    ensures k == -1 <==> !HasId(chats, id)
  {
    if chats == [] then -1
    else if chats[0].id == id then 0
    else
      var k := FindIndex(chats[1..], id);
      assert forall j :: 0 < j < |chats| ==> chats[j] == chats[1..][j - 1];
      if k == -1 then -1 else k + 1
  }

  /** `chats.find(chat => chat.id === id)` */
  function Find(chats: seq<Chat>, id: string): (r: Option<Chat>)
    ensures r.None? <==> !HasId(chats, id)
    ensures r.Some? ==> r.value in chats && r.value.id == id
  {
    if chats == [] then None
    else if chats[0].id == id then Some(chats[0])
    else
      assert forall j :: 0 < j < |chats| ==> chats[j] == chats[1..][j - 1];
      Find(chats[1..], id)
  }

  /** `find` and `findIndex` agree: the chat found is the first one with the id. */
  lemma {:induction false} FindIsFirst(chats: seq<Chat>, id: string)
    ensures var k := FindIndex(chats, id);
      Find(chats, id) == if k == -1 then None else Some(chats[k])
  {
    if chats != [] && chats[0].id != id {
      FindIsFirst(chats[1..], id);
    }
  }

  /** The list after a message is appended to chat `k`. */
  function WithMessage(chats: seq<Chat>, k: nat, message: Message, updatedAt: int): (r: seq<Chat>)
    requires k < |chats|
    ensures |r| == |chats|
    ensures forall j :: 0 <= j < |chats| && j != k ==> r[j] == chats[j]
    ensures r[k].messages == chats[k].messages + [message]
    ensures r[k].updatedAt == updatedAt
    ensures r[k].id == chats[k].id && r[k].title == chats[k].title
      && r[k].timestamp == chats[k].timestamp && r[k].mealPlan == chats[k].mealPlan
  {
    chats[k := chats[k].(messages := chats[k].messages + [message], updatedAt := updatedAt)]
  }

  /** The list after a meal plan is attached to chat `k`. */
  function WithMealPlan(chats: seq<Chat>, k: nat, plan: MealPlan, updatedAt: int): (r: seq<Chat>)
    requires k < |chats|
    ensures |r| == |chats|
    ensures forall j :: 0 <= j < |chats| && j != k ==> r[j] == chats[j]
    ensures r[k].mealPlan == Some(plan) && r[k].updatedAt == updatedAt
    ensures r[k].id == chats[k].id && r[k].title == chats[k].title
      && r[k].messages == chats[k].messages && r[k].timestamp == chats[k].timestamp
  {
    chats[k := chats[k].(mealPlan := Some(plan), updatedAt := updatedAt)]
  }

  /** `chats.slice(0, 10)` */
  function Recent(chats: seq<Chat>): (r: seq<Chat>)
    ensures |r| <= MaxChats
    ensures |chats| <= MaxChats ==> r == chats
    ensures |chats| > MaxChats ==> r == chats[..MaxChats]
  {
    if |chats| <= MaxChats then chats else chats[..MaxChats]
  }

  /**
   * The list `saveChat` stores: the chat replaces the one with its id, in
   * place, keeping that chat's messages and creation time, or goes to the
   * front as a new chat; then only the first ten are kept.
   */
  function Upserted(chats: seq<Chat>, id: string, title: string, mealPlan: Option<MealPlan>, now: int): (r: seq<Chat>)
    ensures |r| <= MaxChats
    ensures var k := FindIndex(chats, id);
      if k >= 0 then
        |r| == (if |chats| <= MaxChats then |chats| else MaxChats)
        && (forall j :: 0 <= j < |r| && j != k ==> r[j] == chats[j])
        && (k < MaxChats ==>
              r[k] == Chat(id, title, chats[k].messages, chats[k].timestamp, now, mealPlan))
      else
        |r| == (if |chats| < MaxChats then |chats| + 1 else MaxChats)
        && r[0] == Chat(id, title, [], now, now, mealPlan)
        && r[1..] == chats[..|r| - 1]
  {
    var k := FindIndex(chats, id);
    if k >= 0 then
      var chat := Chat(id, title, chats[k].messages, chats[k].timestamp, now, mealPlan);
      Recent(chats[k := chat])
    else
      var chat := Chat(id, title, [], now, now, mealPlan);
      var r := Recent([chat] + chats);
      assert r[1..] == chats[..|r| - 1];
      r
  }

  /** `chats.filter(chat => chat.id !== id)` */
  function Deleted(chats: seq<Chat>, id: string): (r: seq<Chat>)
    ensures |r| <= |chats|
    ensures !HasId(r, id)
    ensures forall c :: c in r <==> c in chats && c.id != id
    ensures !HasId(chats, id) ==> r == chats
  {
    if chats == [] then []
    else
      assert forall j :: 0 < j < |chats| ==> chats[j] == chats[1..][j - 1];
      (if chats[0].id != id then [chats[0]] else []) + Deleted(chats[1..], id)
  }

  /** One step of the filter: the head stays unless it has the id. */
  lemma DeletedCons(chats: seq<Chat>, id: string)
    requires chats != []
    ensures Deleted(chats, id) == (if chats[0].id != id then [chats[0]] else []) + Deleted(chats[1..], id)
  {
  }

  lemma ChatsAssoc(x: seq<Chat>, y: seq<Chat>, z: seq<Chat>)
    ensures x + (y + z) == (x + y) + z
  {
  }

  /** Deleting keeps the relative order of the rest: it goes through a concatenation piece by piece. */
  lemma {:induction false} DeletedConcat(a: seq<Chat>, b: seq<Chat>, id: string)
    ensures Deleted(a + b, id) == Deleted(a, id) + Deleted(b, id)
  {
    hide Deleted;
    if a != [] {
      var head := if a[0].id != id then [a[0]] else [];
      assert (a + b)[0] == a[0] && (a + b)[1..] == a[1..] + b;
      DeletedCons(a + b, id);
      DeletedCons(a, id);
      DeletedConcat(a[1..], b, id);
      ChatsAssoc(head, Deleted(a[1..], id), Deleted(b, id));
    } else {
      assert a + b == b;
    }
  }

  /** Ids stay unique under `saveChat`: an existing id is replaced, a new one is added once. */
  lemma UpsertedKeepsUnique(chats: seq<Chat>, id: string, title: string, mealPlan: Option<MealPlan>, now: int)
    requires UniqueIds(chats)
    ensures UniqueIds(Upserted(chats, id, title, mealPlan, now))
  {
    var k := FindIndex(chats, id);
    var r := Upserted(chats, id, title, mealPlan, now);
    if k >= 0 {
      var chat := Chat(id, title, chats[k].messages, chats[k].timestamp, now, mealPlan);
      var u := chats[k := chat];
      assert forall j :: 0 <= j < |u| ==> u[j].id == chats[j].id;
      assert r == Recent(u);
    } else {
      var u := [Chat(id, title, [], now, now, mealPlan)] + chats;
      assert r == Recent(u);
      forall i, j | 0 <= i < j < |u| ensures u[i].id != u[j].id {
        if i == 0 {
          assert u[j] == chats[j - 1];
        } else {
          assert u[i] == chats[i - 1] && u[j] == chats[j - 1];
        }
      }
    }
  }

  /** Ids stay unique when chats are removed. */
  lemma {:induction false} DeletedKeepsUnique(chats: seq<Chat>, id: string)
    requires UniqueIds(chats)
    ensures UniqueIds(Deleted(chats, id))
  {
    if chats != [] {
      var tail := chats[1..];
      UniqueTail(chats);
      DeletedKeepsUnique(tail, id);
      var rest := Deleted(tail, id);
      if chats[0].id != id {
        UniqueCons(chats[0], rest);
      }
    }
  }

  /** Without its first chat, a list with unique ids still has them, and none of them is the first one's. */
  lemma UniqueTail(chats: seq<Chat>)
    requires chats != [] && UniqueIds(chats)
    ensures UniqueIds(chats[1..])
    ensures forall c :: c in chats[1..] ==> c.id != chats[0].id
  {
    var tail := chats[1..];
    forall i, j | 0 <= i < j < |tail| ensures tail[i].id != tail[j].id {
      assert tail[i] == chats[i + 1] && tail[j] == chats[j + 1];
    }
    forall c | c in tail ensures c.id != chats[0].id {
      var m :| 0 <= m < |tail| && tail[m] == c;
      assert c == chats[m + 1];
    }
  }

  /** A chat put in front of a list with unique ids, and an id none of them has, keeps the ids unique. */
  lemma UniqueCons(c: Chat, rest: seq<Chat>)
    requires UniqueIds(rest) && forall x :: x in rest ==> x.id != c.id
    ensures UniqueIds([c] + rest)
  {
    var r := [c] + rest;
    forall i, j | 0 <= i < j < |r| ensures r[i].id != r[j].id {
      assert r[j] == rest[j - 1];
      if i == 0 {
        assert r[j] in rest;
      } else {
        assert r[i] == rest[i - 1];
      }
    }
  }

  /**
   * The store behind the chat history. `hasWindow` is whether the code runs
   * in a browser: outside one every read sees no chats and nothing is
   * written.
   */
  class ChatStore {
    const hasWindow: bool
    var stored: seq<Chat>

    /** A store whose key has never been written reads as no chats. */
    constructor (hasWindow: bool)
      ensures this.hasWindow == hasWindow && stored == []
    {
      this.hasWindow := hasWindow;
      stored := [];
    }

    /** `getChats` */
    function GetChats(): (r: seq<Chat>)
      reads this
      ensures hasWindow ==> r == stored
      ensures !hasWindow ==> r == []
    {
      if hasWindow then stored else []
    }

    /** `getChat`: the first chat with the id, if any. */
    function GetChat(id: string): (r: Option<Chat>)
      reads this
      ensures r.None? <==> !HasId(GetChats(), id)
      ensures var k := FindIndex(GetChats(), id); r.Some? ==> r.value == GetChats()[k]
    {
      FindIsFirst(GetChats(), id);
      Find(GetChats(), id)
    }

    /** `getMealPlanFromChat`: the plan of the first chat with the id. */
    function GetMealPlanFromChat(id: string): (r: Option<MealPlan>)
      reads this
      ensures !HasId(GetChats(), id) ==> r.None?
      ensures var k := FindIndex(GetChats(), id); k >= 0 ==> r == GetChats()[k].mealPlan
    {
      match GetChat(id)
      case Some(chat) => chat.mealPlan
      case None => None
    }

    /** `addMessageToChat`, with the new message id and both clock readings given. */
    method AddMessageToChat(chatId: string, content: string, role: Role, mealPlan: Option<MealPlan>,
                            messageId: string, messageTime: int, updateTime: int) returns (r: Option<Chat>)
      modifies this
      ensures var k := FindIndex(old(stored), chatId);
        if !hasWindow || k == -1 then r.None? && stored == old(stored)
        else
          stored == WithMessage(old(stored), k, Message(messageId, content, role, messageTime, mealPlan), updateTime)
          && r == Some(stored[k])
      ensures |old(stored)| <= MaxChats ==> |stored| <= MaxChats
      ensures UniqueIds(old(stored)) ==> UniqueIds(stored)
    {
      if !hasWindow {
        return None;
      }
      var chats := GetChats();
      var chatIndex := FindIndex(chats, chatId);
      if chatIndex == -1 {
        return None;
      }
      var message := Message(messageId, content, role, messageTime, mealPlan);
      chats := WithMessage(chats, chatIndex, message, updateTime);
      assert forall j :: 0 <= j < |chats| ==> chats[j].id == stored[j].id;
      stored := chats;
      r := Some(chats[chatIndex]);
    }

    /** `saveChat`, with `Date.now()` given; returns the list it stored. */
    method SaveChat(id: string, title: string, mealPlan: Option<MealPlan>, now: int) returns (r: seq<Chat>)
      modifies this
      ensures hasWindow ==> stored == Upserted(old(stored), id, title, mealPlan, now) && r == stored
      ensures !hasWindow ==> r == [] && stored == old(stored)
      ensures hasWindow ==> |stored| <= MaxChats
      ensures |old(stored)| <= MaxChats ==> |stored| <= MaxChats
      ensures UniqueIds(old(stored)) ==> UniqueIds(stored)
    {
      if !hasWindow {
        return [];
      }
      var chats := GetChats();
      if UniqueIds(chats) {
        UpsertedKeepsUnique(chats, id, title, mealPlan, now);
      }
      var existingChatIndex := FindIndex(chats, id);
      var chat: Chat;
      if existingChatIndex >= 0 {
        chat := Chat(id, title, chats[existingChatIndex].messages, chats[existingChatIndex].timestamp, now, mealPlan);
        chats := chats[existingChatIndex := chat];
      } else {
        chat := Chat(id, title, [], now, now, mealPlan);
        chats := [chat] + chats;
      }
      r := Recent(chats);
      stored := r;
    }

    /** `deleteChat`; returns the list it stored. */
    method DeleteChat(id: string) returns (r: seq<Chat>)
      modifies this
      ensures hasWindow ==> stored == Deleted(old(stored), id) && r == stored
      ensures !hasWindow ==> r == [] && stored == old(stored)
      ensures |stored| <= |old(stored)|
      ensures UniqueIds(old(stored)) ==> UniqueIds(stored)
    {
      if !hasWindow {
        return [];
      }
      if UniqueIds(stored) {
        DeletedKeepsUnique(stored, id);
      }
      r := Deleted(GetChats(), id);
      stored := r;
    }

    /** `saveMealPlanToChat`, with the plan id and `Date.now()` given. */
    method SaveMealPlanToChat(chatId: string, meals: seq<MealSummary>, planId: string, now: int) returns (r: Option<Chat>)
      modifies this
      ensures var k := FindIndex(old(stored), chatId);
        if !hasWindow || k == -1 then r.None? && stored == old(stored)
        else
          stored == WithMealPlan(old(stored), k, MealPlan(planId, meals), now)
          && r == Some(stored[k])
      ensures |old(stored)| <= MaxChats ==> |stored| <= MaxChats
      ensures UniqueIds(old(stored)) ==> UniqueIds(stored)
    {
      if !hasWindow {
        return None;
      }
      var chats := GetChats();
      var chatIndex := FindIndex(chats, chatId);
      if chatIndex == -1 {
        return None;
      }
      chats := WithMealPlan(chats, chatIndex, MealPlan(planId, meals), now);
      assert forall j :: 0 <= j < |chats| ==> chats[j].id == stored[j].id;
      stored := chats;
      r := Some(chats[chatIndex]);
    }
  }
}
