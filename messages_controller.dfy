/** `MessagesController`: the guestbook. Anyone may read it; a signed-in
    user adds messages, signed with a chosen author name or, failing that,
    the user's full name. */
module MessagesApi {
  import opened Common
  import opened Text
  import opened Seqs
  import opened Data
  import opened Identity

  /** `CreateMessageRequest`. */
  datatype MessageRequest = MessageRequest(Message: string, AuthorName: Option<string>)

  /** The author a message is stored under: the requested name unless it is
      null or white space, else the user's full name. */
  function AuthorFor(requested: Option<string>, fullName: string): (r: string)
    ensures !IsNullOrWhiteSpace(requested) ==> r == requested.value
    ensures IsNullOrWhiteSpace(requested) ==> r == fullName
    ensures IsNullOrWhiteSpace(Some(r)) ==> r == fullName
  {
    if !IsNullOrWhiteSpace(requested) then requested.value else fullName
  }

  function CreatedAtKey(m: WeddingMessage): int
  {
    m.CreatedAt
  }

  /** `GetMessages`' query: every message, newest first. */
  function MessageListing(messages: seq<WeddingMessage>): seq<WeddingMessage>
  {
    SortDesc(messages, CreatedAtKey)
  }

  /** The listing holds every message exactly once, newest first. */
  lemma MessageListingNewestFirst(messages: seq<WeddingMessage>)
    ensures multiset(MessageListing(messages)) == multiset(messages)
    ensures forall i, j :: 0 <= i < j < |MessageListing(messages)| ==>
              MessageListing(messages)[i].CreatedAt >= MessageListing(messages)[j].CreatedAt
  {
    var listing := MessageListing(messages);
    SortDescSorted(messages, CreatedAtKey);
    assert forall i :: 0 <= i < |listing| ==> listing[i].CreatedAt == CreatedAtKey(listing[i]);
  }

  class MessagesController {
    const userManager: UserManager
    var WeddingMessages: seq<WeddingMessage>
    var nextId: int

    /** The identity column has handed out every id in the table. */
    ghost predicate Valid()
      reads this
    {
      forall m :: m in WeddingMessages ==> m.Id < nextId
    }

    constructor (userManager: UserManager)
      ensures Valid() && this.userManager == userManager && WeddingMessages == []
    {
      this.userManager := userManager;
      WeddingMessages := [];
      nextId := 1;
    }

    /** `GetMessages`. */
    method GetMessages() returns (r: ActionResult<seq<WeddingMessage>>)
      ensures r.Ok? && multiset(r.value) == multiset(WeddingMessages)
      ensures forall i, j :: 0 <= i < j < |r.value| ==> r.value[i].CreatedAt >= r.value[j].CreatedAt
    {
      MessageListingNewestFirst(WeddingMessages);
      return Ok(MessageListing(WeddingMessages));
    }

    /** `CreateMessage`. `modelErrors` is the model-binding verdict (`None` when
        the request body bound cleanly); `now` is the UTC clock. */
    method CreateMessage(principal: Option<string>, modelErrors: Option<string>, request: MessageRequest,
                         now: Instant)
      returns (r: ActionResult<WeddingMessage>)
      requires Valid()
      modifies this
      ensures Valid()
      ensures modelErrors.Some? ==> r == BadRequest(modelErrors.value)
      ensures modelErrors.None? && FindById(userManager.Users, principal).None? ==> r == Unauthorized("User not found")
      ensures r.Created? <==> modelErrors.None? && FindById(userManager.Users, principal).Some?
      ensures !r.Created? ==> WeddingMessages == old(WeddingMessages) && nextId == old(nextId)
      ensures r.Created? ==>
                var user := FindById(userManager.Users, principal).value;
                && r.value == WeddingMessage(old(nextId), AuthorFor(request.AuthorName, user.FullName),
                                             request.Message, now, user.Id)
                && WeddingMessages == old(WeddingMessages) + [r.value]
                && forall m :: m in old(WeddingMessages) ==> m.Id != r.value.Id
    {
      if modelErrors.Some? {
        return BadRequest(modelErrors.value);
      }
      var user := FindById(userManager.Users, principal);
      if user.None? {
        return Unauthorized("User not found");
      }
      var authorName := AuthorFor(request.AuthorName, user.value.FullName);
      var weddingMessage := WeddingMessage(nextId, authorName, request.Message, now, user.value.Id);
      WeddingMessages := WeddingMessages + [weddingMessage];
      nextId := nextId + 1;
      return Created(weddingMessage);
    }
  }
}
