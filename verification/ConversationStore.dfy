/** The chat gateway's message store: messages by id, the index from request id to
    message id, and a message count for each conversation. */
module ConversationStore {
  import opened Outcomes
  import opened ChatErrors
  import opened Text

  datatype MessageStatus = Received | PlanningFailed | Planned | EnqueueFailed | Enqueued

  datatype Message = Message(messageId: string, conversationId: string, requestId: string,
                             text: string, imageIds: seq<string>, status: MessageStatus)

  datatype ConversationStatus = Active | Archived | Deleted

  datatype Conversation = Conversation(title: string, status: ConversationStatus, messageCount: nat)

  /** A planner or a queue: not configured, raising when called, or answering. */
  datatype Collaborator = Absent | Fails | Answers

  datatype Mode = Analysis | Planning | PlanAndEnqueue | Unknown

  /** What a message must be to get past the gateway's checks. */
  ghost predicate Acceptable(msg: Message, conversations: map<string, Conversation>, liveImages: set<string>,
                             maxImages: nat, mode: Mode)
  {
    && msg.conversationId in conversations && conversations[msg.conversationId].status != Deleted
    && |msg.imageIds| <= maxImages
    && (forall i :: 0 <= i < |msg.imageIds| ==> msg.imageIds[i] in liveImages)
    && (NonBlank(msg.text) || msg.imageIds != [])
    && !mode.Unknown?
  }

  /** A message is acceptable exactly in a conversation that is there and not deleted, with at
      most the allowed number of images, all there, with a text or an image, in a known mode. */
  lemma AcceptableExactly(msg: Message, conversations: map<string, Conversation>, liveImages: set<string>, maxImages: nat, mode: Mode)
    ensures Acceptable(msg, conversations, liveImages, maxImages, mode) <==>
      && msg.conversationId in conversations && conversations[msg.conversationId].status in {Active, Archived}
      && |msg.imageIds| <= maxImages && (forall image :: image in msg.imageIds ==> image in liveImages)
      && (NonBlank(msg.text) || |msg.imageIds| > 0)
      && mode in {Analysis, Planning, PlanAndEnqueue}
  {
  }

  /** The message and its request have new ids. */
  predicate Fresh(msg: Message, messages: map<string, Message>, requests: map<string, string>) {
    msg.messageId !in messages && msg.requestId !in requests
  }

  /** Every collaborator that the mode reaches is there. */
  predicate Configured(mode: Mode, planner: Collaborator, queue: Collaborator) {
    mode.Analysis? || (!planner.Absent? && (planner.Fails? || mode.Planning? || !queue.Absent?))
  }

  /** The status a stored message ends with. */
  function FinalStatus(mode: Mode, planner: Collaborator, queue: Collaborator): MessageStatus {
    if !Configured(mode, planner, queue) || mode.Analysis? then Received
    else if planner.Fails? then PlanningFailed
    else if mode.Planning? then Planned
    else if queue.Fails? then EnqueueFailed
    else Enqueued
  }

  /** What sending ends with in each mode, if the message is stored. */
  predicate EndsAs(r: Result<MessageStatus, StoreError>, mode: Mode, planner: Collaborator, queue: Collaborator) {
    r.Ok? ==>
      && (mode.Analysis? ==> r.value == Received)
      && (!mode.Analysis? ==> !planner.Absent?)
      && (!mode.Analysis? && planner.Fails? ==> r.value == PlanningFailed)
      && (mode.Planning? && planner.Answers? ==> r.value == Planned)
      && (mode.PlanAndEnqueue? && planner.Answers? ==> !queue.Absent?)
      && (mode.PlanAndEnqueue? && planner.Answers? && queue.Fails? ==> r.value == EnqueueFailed)
      && (mode.PlanAndEnqueue? && planner.Answers? && queue.Answers? ==> r.value == Enqueued)
      && !mode.Unknown?
  }

  /** The ids of the messages of one conversation. */
  function MessagesOf(messages: map<string, Message>, conversation: string): set<string> {
    set m | m in messages && messages[m].conversationId == conversation
  }

  /** Every conversation counts exactly its stored messages. */
  ghost predicate Counted(conversations: map<string, Conversation>, messages: map<string, Message>) {
    forall c :: c in conversations ==> conversations[c].messageCount == |MessagesOf(messages, c)|
  }

  /** Every message belongs to a conversation. */
  ghost predicate Housed(conversations: map<string, Conversation>, messages: map<string, Message>) {
    forall m :: m in messages ==> messages[m].conversationId in conversations
  }

  /** Request ids and messages correspond one to one. */
  ghost predicate Answered(messages: map<string, Message>, requests: map<string, string>) {
    && (forall m :: m in messages ==>
          messages[m].messageId == m && messages[m].requestId in requests && requests[messages[m].requestId] == m)
    && (forall r :: r in requests ==> requests[r] in messages && messages[requests[r]].requestId == r)
  }

  /** Some message shows the image. */
  ghost predicate Referenced(messages: map<string, Message>, image: string) {
    exists m :: m in messages && image in messages[m].imageIds
  }

  lemma CountAfterPut(messages: map<string, Message>, msg: Message, c: string)
    requires msg.messageId !in messages
    ensures |MessagesOf(messages[msg.messageId := msg], c)| == |MessagesOf(messages, c)| + if c == msg.conversationId then 1 else 0
  {
    var after := messages[msg.messageId := msg];
    if c == msg.conversationId {
      assert MessagesOf(after, c) == MessagesOf(messages, c) + {msg.messageId};
    } else {
      assert MessagesOf(after, c) == MessagesOf(messages, c);
    }
  }

  lemma CountedAfterPut(conversations: map<string, Conversation>, messages: map<string, Message>, msg: Message)
    requires Counted(conversations, messages)
    requires msg.messageId !in messages && msg.conversationId in conversations
    ensures var conv := conversations[msg.conversationId];
      Counted(conversations[msg.conversationId := conv.(messageCount := conv.messageCount + 1)], messages[msg.messageId := msg])
  {
    forall c | c in conversations
      ensures |MessagesOf(messages[msg.messageId := msg], c)| == |MessagesOf(messages, c)| + if c == msg.conversationId then 1 else 0
    {
      CountAfterPut(messages, msg, c);
    }
  }

  lemma AnsweredAfterPut(messages: map<string, Message>, requests: map<string, string>, msg: Message)
    requires Answered(messages, requests)
    requires msg.messageId !in messages && msg.requestId !in requests
    ensures Answered(messages[msg.messageId := msg], requests[msg.requestId := msg.messageId])
  {
  }

  lemma HousedAfterPut(conversations: map<string, Conversation>, messages: map<string, Message>, msg: Message, conv: Conversation)
    requires Housed(conversations, messages)
    ensures Housed(conversations[msg.conversationId := conv], messages[msg.messageId := msg])
    ensures msg.conversationId !in conversations ==> !Housed(conversations, messages[msg.messageId := msg])
  {
    assert messages[msg.messageId := msg][msg.messageId] == msg;
  }

  lemma StoredThenPatched(msg: Message, status: MessageStatus, messages: map<string, Message>)
    ensures messages[msg.messageId := msg][msg.messageId := msg.(status := status)]
         == messages[msg.messageId := msg.(status := status)]
  {
  }

  class ConversationStore {
    var conversations: map<string, Conversation>
    var messages: map<string, Message>
    var requests: map<string, string>

    constructor ()
      ensures Valid() && conversations == map[] && messages == map[] && requests == map[]
    {
      conversations, messages, requests := map[], map[], map[];
    }

    /** The state holds one message more than another, indexed and counted. */
    ghost predicate Stored(msg: Message, conversations0: map<string, Conversation>, messages0: map<string, Message>,
                           requests0: map<string, string>)
      reads this
    {
      && msg.conversationId in conversations0
      && messages == messages0[msg.messageId := msg]
      && requests == requests0[msg.requestId := msg.messageId]
      && var conv := conversations0[msg.conversationId];
         conversations == conversations0[msg.conversationId := conv.(messageCount := conv.messageCount + 1)]
    }

    ghost predicate Valid()
      reads this
    {
      && Counted(conversations, messages)
      && Housed(conversations, messages)
      && Answered(messages, requests)
    }

    /** Writes the conversation record under its id whether or not the id is taken. The
        count stays right exactly when no message is stored under that id. */
    method CreateConversation(id: string, title: string) returns (r: Result<Conversation, StoreError>)
      requires Valid()
      modifies this`conversations
      ensures r.Ok? <==> NonBlank(title)
      ensures r.Err? ==> r.error == Invalid && conversations == old(conversations)
      ensures r.Ok? ==> r.value == Conversation(title, Active, 0) && conversations == old(conversations)[id := r.value]
      ensures Valid() <==> r.Err? || MessagesOf(messages, id) == {}
    {
      StripFacts(title);
      if Strip(title) == "" {
        return Err(Invalid);
      }
      var conv := Conversation(title, Active, 0);
      conversations := conversations[id := conv];
      return Ok(conv);
    }

    /** Archiving and deleting only change the status. */
    method SetStatus(id: string, status: ConversationStatus) returns (r: Result<(), StoreError>)
      requires Valid()
      modifies this`conversations
      ensures Valid()
      ensures r.Ok? <==> id in old(conversations)
      ensures conversations == if r.Ok? then old(conversations)[id := old(conversations)[id].(status := status)] else old(conversations)
    {
      if id !in conversations {
        return Err(NotFound);
      }
      conversations := conversations[id := conversations[id].(status := status)];
      return Ok(());
    }

    /** Stores a message and counts it. The message is stored before its conversation is
        looked up, so the store stays consistent exactly unless that lookup fails. */
    method PutMessage(msg: Message) returns (r: Result<(), StoreError>)
      requires Valid()
      modifies this
      ensures r.Ok? <==> Fresh(msg, old(messages), old(requests)) && msg.conversationId in old(conversations)
      ensures r.Err? ==> r.error == if Fresh(msg, old(messages), old(requests)) then NotFound else Conflict
      ensures Valid() <==> r != Err(NotFound)
      ensures r == Err(Conflict) ==> messages == old(messages) && requests == old(requests)
      ensures r.Ok? ==> Stored(msg, old(conversations), old(messages), old(requests))
      ensures r == Err(NotFound) ==>
        messages == old(messages)[msg.messageId := msg] && requests == old(requests)[msg.requestId := msg.messageId]
      ensures r.Err? ==> conversations == old(conversations)
    {
      if msg.messageId in messages {
        return Err(Conflict);
      }
      if msg.requestId in requests {
        return Err(Conflict);
      }
      AnsweredAfterPut(messages, requests, msg);
      messages := messages[msg.messageId := msg];
      requests := requests[msg.requestId := msg.messageId];
      if msg.conversationId !in conversations {
        HousedAfterPut(conversations, old(messages), msg, Conversation("", Active, 0));
        return Err(NotFound);
      }
      CountedAfterPut(conversations, old(messages), msg);
      var conv := conversations[msg.conversationId];
      conversations := conversations[msg.conversationId := conv.(messageCount := conv.messageCount + 1)];
      HousedAfterPut(old(conversations), old(messages), msg, conversations[msg.conversationId]);
      return Ok(());
    }

    /** Looks through the messages for the image. */
    method IsImageReferenced(image: string) returns (found: bool)
      ensures found <==> Referenced(messages, image)
    {
      var left := messages.Keys;
      while left != {}
        invariant left <= messages.Keys
        invariant forall m :: m in messages && m !in left ==> image !in messages[m].imageIds
        decreases left
      {
        var m :| m in left;
        if image in messages[m].imageIds {
          return true;
        }
        left := left - {m};
      }
      return false;
    }

    /** The gateway's later update of a message it has stored. */
    method PatchMessage(msg: Message)
      requires Valid() && msg.messageId in messages
      requires messages[msg.messageId].conversationId == msg.conversationId && messages[msg.messageId].requestId == msg.requestId
      modifies this`messages
      ensures Valid()
      ensures messages == old(messages)[msg.messageId := msg]
    {
      messages := messages[msg.messageId := msg];
      assert forall c :: MessagesOf(messages, c) == MessagesOf(old(messages), c);
    }

    /** The gateway's checks, made before anything is stored. */
    method Check(msg: Message, liveImages: set<string>, maxImages: nat, mode: Mode) returns (error: Option<StoreError>)
      ensures error.None? <==> Acceptable(msg, conversations, liveImages, maxImages, mode)
    {
      if msg.conversationId !in conversations {
        return Some(NotFound);
      }
      if conversations[msg.conversationId].status == Deleted {
        return Some(Conflict);
      }
      if |msg.imageIds| > maxImages {
        return Some(Invalid);
      }
      for i := 0 to |msg.imageIds|
        invariant forall j :: 0 <= j < i ==> msg.imageIds[j] in liveImages
      {
        if msg.imageIds[i] !in liveImages {
          return Some(NotFound);
        }
      }
      StripFacts(msg.text);
      if Strip(msg.text) == "" && msg.imageIds == [] {
        return Some(Invalid);
      }
      if mode.Unknown? {
        return Some(Invalid);
      }
      return None;
    }

    /** Sends a message: the checks, the message stored as received, then the planner and
        the queue, and the message patched with what became of it. A missing planner or
        queue is an error raised after the message is stored. */
    method Send(msg: Message, liveImages: set<string>, maxImages: nat, mode: Mode,
                planner: Collaborator, queue: Collaborator)
      returns (r: Result<MessageStatus, StoreError>)
      requires Valid() && msg.status == Received
      modifies this
      ensures Valid()
      ensures var stored := Acceptable(msg, old(conversations), liveImages, maxImages, mode)
                && Fresh(msg, old(messages), old(requests));
        && (r.Ok? <==> stored && Configured(mode, planner, queue))
        && (r.Ok? ==> r.value == FinalStatus(mode, planner, queue))
        && (if stored then Stored(msg.(status := FinalStatus(mode, planner, queue)), old(conversations), old(messages), old(requests))
            else messages == old(messages) && requests == old(requests) && conversations == old(conversations))
      ensures EndsAs(r, mode, planner, queue)
    {
      var error := Check(msg, liveImages, maxImages, mode);
      if error.Some? {
        return Err(error.value);
      }
      var put := PutMessage(msg);
      if put.Err? {
        assert !Fresh(msg, messages, requests);
        return Err(put.error);
      }
      StoredThenPatched(msg, FinalStatus(mode, planner, queue), old(messages));
      r := Process(msg, mode, planner, queue);
    }

    /** What follows once the message is stored. */
    method Process(msg: Message, mode: Mode, planner: Collaborator, queue: Collaborator) returns (r: Result<MessageStatus, StoreError>)
      requires Valid() && msg.status == Received && !mode.Unknown?
      requires msg.messageId in messages && messages[msg.messageId] == msg
      modifies this`messages
      ensures Valid()
      ensures r == if Configured(mode, planner, queue) then Ok(FinalStatus(mode, planner, queue)) else Err(Invalid)
      ensures messages == old(messages)[msg.messageId := msg.(status := FinalStatus(mode, planner, queue))]
    {
      if mode.Analysis? {
        assert messages == messages[msg.messageId := msg];
        return Ok(Received);
      }
      if planner.Absent? {
        assert messages == messages[msg.messageId := msg];
        return Err(Invalid);
      }
      if planner.Fails? {
        PatchMessage(msg.(status := PlanningFailed));
        return Ok(PlanningFailed);
      }
      if mode.Planning? {
        PatchMessage(msg.(status := Planned));
        return Ok(Planned);
      }
      if queue.Absent? {
        assert messages == messages[msg.messageId := msg];
        return Err(Invalid);
      }
      if queue.Fails? {
        PatchMessage(msg.(status := EnqueueFailed));
        return Ok(EnqueueFailed);
      }
      PatchMessage(msg.(status := Enqueued));
      return Ok(Enqueued);
    }
  }

  /** Different messages of a consistent store answer different requests. */
  lemma RequestsAreDistinct(store: ConversationStore, m: string, n: string)
    requires store.Valid() && m in store.messages && n in store.messages
    requires store.messages[m].requestId == store.messages[n].requestId
    ensures m == n
  {
  }
}
