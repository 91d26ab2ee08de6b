/** The chat gateway over its two stores. What links them is that messages show images: no
    message is stored that shows an image which is not there, and no image that a message
    shows goes away unless its deletion is forced. */
module ChatGateway {
  import opened Outcomes
  import opened ChatErrors
  import C = ConversationStore
  import I = ImageStore

  class ChatGateway {
    const conversations: C.ConversationStore
    const uploads: I.ImageStore
    /** The images whose deletion was forced. */
    ghost var forced: set<string>

    constructor (sha: I.Bytes -> string)
      ensures Valid() && uploads.Valid() && fresh(conversations) && fresh(uploads)
      ensures conversations.messages == map[] && uploads.images == map[] && forced == {}
    {
      conversations := new C.ConversationStore();
      uploads := new I.ImageStore(sha);
      forced := {};
    }

    /** Over the whole life of the gateway: every image that a stored message shows is
        there, unless its deletion was forced. */
    ghost predicate Valid()
      reads this, conversations, uploads
    {
      && conversations.Valid()
      && forall image :: C.Referenced(conversations.messages, image) ==> image in uploads.images || image in forced
    }

    /** Uploading never takes an image away. It leaves the upload store consistent exactly
        if the id was new or the content was shown already. */
    method UploadImage(id: string, mediaType: string, content: I.Bytes) returns (r: Result<I.Meta, StoreError>)
      requires Valid() && uploads.Valid()
      modifies uploads
      ensures Valid()
      ensures uploads.Valid() <==> r.Ok? || I.Shows(old(uploads.images), uploads.sha(content))
      ensures r.Ok? <==> id !in old(uploads.images)
      ensures uploads.images == if r.Ok? then old(uploads.images)[id := r.value] else old(uploads.images)
      ensures uploads.uploaded == if r.Ok? then old(uploads.uploaded)[id := content] else old(uploads.uploaded)
    {
      r := uploads.Upload(id, mediaType, content);
    }

    /** Deletes an image exactly if it is there and no message shows it or the deletion is
        forced; only in the latter case does a message lose an image. */
    method DeleteImage(id: string, force: bool) returns (r: Result<I.Meta, StoreError>)
      requires Valid() && uploads.Valid()
      modifies this`forced, uploads
      ensures Valid() && uploads.Valid()
      ensures r.Ok? <==> id in old(uploads.images) && (force || !C.Referenced(conversations.messages, id))
      ensures r.Err? ==> r.error == if !force && C.Referenced(conversations.messages, id) then Conflict else NotFound
      ensures uploads.images == if r.Ok? then old(uploads.images) - {id} else old(uploads.images)
      ensures uploads.uploaded == if r.Ok? then old(uploads.uploaded) - {id} else old(uploads.uploaded)
      ensures forced == old(forced) + if r.Ok? && force then {id} else {}
    {
      if !force {
        var referenced := conversations.IsImageReferenced(id);
        if referenced {
          return Err(Conflict);
        }
      }
      r := uploads.Remove(id);
      if r.Ok? && force {
        forced := forced + {id};
      }
    }

    /** Sends a message. It is stored only if every image it shows is there. */
    method SendMessage(msg: C.Message, maxImages: nat, mode: C.Mode, planner: C.Collaborator, queue: C.Collaborator)
      returns (r: Result<C.MessageStatus, StoreError>)
      requires Valid() && msg.status.Received?
      modifies conversations
      ensures Valid()
      ensures var stored := C.Acceptable(msg, old(conversations.conversations), uploads.images.Keys, maxImages, mode)
                && C.Fresh(msg, old(conversations.messages), old(conversations.requests));
        && (r.Ok? <==> stored && C.Configured(mode, planner, queue))
        && conversations.messages ==
           if stored then old(conversations.messages)[msg.messageId := msg.(status := C.FinalStatus(mode, planner, queue))]
           else old(conversations.messages)
    {
      r := conversations.Send(msg, uploads.images.Keys, maxImages, mode, planner, queue);
      ghost var messages := conversations.messages;
      if messages != old(conversations.messages) {
        ReferencedAfterPut(old(conversations.messages), msg.(status := C.FinalStatus(mode, planner, queue)));
      }
    }

    /** An image shown by a stored message reads as the bytes it was uploaded with, unless
        its deletion was forced. */
    method ReadShown(m: string, k: nat) returns (r: Result<I.Bytes, StoreError>)
      requires Valid() && uploads.Valid() && I.CollisionFree(uploads.sha)
      requires m in conversations.messages && k < |conversations.messages[m].imageIds|
      ensures var image := conversations.messages[m].imageIds[k];
        r.Err? ==> image in forced
      ensures var image := conversations.messages[m].imageIds[k];
        r.Ok? ==> image in uploads.uploaded && r.value == uploads.uploaded[image]
    {
      var image := conversations.messages[m].imageIds[k];
      assert C.Referenced(conversations.messages, image);
      r := uploads.Read(image);
    }
  }

  /** Storing a message adds the images it shows to those referenced, and no others. */
  lemma ReferencedAfterPut(messages: map<string, C.Message>, msg: C.Message)
    requires msg.messageId !in messages
    ensures forall image :: C.Referenced(messages[msg.messageId := msg], image) <==>
      C.Referenced(messages, image) || image in msg.imageIds
  {
    var after := messages[msg.messageId := msg];
    forall image ensures C.Referenced(after, image) <==> C.Referenced(messages, image) || image in msg.imageIds {
      assert after[msg.messageId] == msg;
      if C.Referenced(messages, image) {
        var m :| m in messages && image in messages[m].imageIds;
        assert image in after[m].imageIds;
      }
    }
  }
}
