/** `GiftsController`: a guest reserves a registry gift by locking it and
    releases it by unlocking it. A gift is locked while its `UserId` is
    neither null nor empty. */
module GiftsApi {
  import opened Common
  import opened Seqs
  import opened Data
  import opened Identity

  /** The gift is reserved by someone. */
  predicate Locked(g: WeddingGift)
  {
    !IsNullOrEmpty(g.UserId)
  }

  /** `WeddingGifts.FirstOrDefault(x => x.Id == id)`, as an index. */
  function FindGift(gifts: seq<WeddingGift>, id: int): (r: Option<nat>)
    ensures r.Some? ==> r.value < |gifts| && gifts[r.value].Id == id
                        && forall j :: 0 <= j < r.value ==> gifts[j].Id != id
    ensures r.None? ==> forall g :: g in gifts ==> g.Id != id
  {
    FirstIndex(gifts, (g: WeddingGift) => g.Id == id)
  }

  class GiftsController {
    const userManager: UserManager
    var WeddingGifts: seq<WeddingGift>

    constructor (userManager: UserManager, gifts: seq<WeddingGift>)
      ensures this.userManager == userManager && WeddingGifts == gifts
    {
      this.userManager := userManager;
      WeddingGifts := gifts;
    }

    /** `LockGiftAsync`: the gift must exist and be free, and the caller must
        resolve to a user, checked in that order; the gift then records the
        caller as its holder. */
    method LockGift(id: int, principal: Option<string>) returns (r: ActionResult<WeddingGift>)
      modifies this
      ensures var k := FindGift(old(WeddingGifts), id);
              var caller := FindById(userManager.Users, principal);
              && (k.None? ==> r == NotFound("Gift not found"))
              && (k.Some? && Locked(old(WeddingGifts)[k.value]) ==> r == BadRequest("Gift already locked"))
              && (k.Some? && !Locked(old(WeddingGifts)[k.value]) && caller.None? ==> r == Unauthorized("User not found"))
              && (r.Ok? <==> k.Some? && !Locked(old(WeddingGifts)[k.value]) && caller.Some?)
              && (r.Ok? ==> && r.value == old(WeddingGifts)[k.value].(UserId := Some(caller.value.Id))
                            && (caller.value.Id != "" ==> Locked(r.value))
                            && WeddingGifts == old(WeddingGifts)[k.value := r.value])
      ensures !r.Ok? ==> WeddingGifts == old(WeddingGifts)
    {
      var k := FindGift(WeddingGifts, id);
      if k.None? {
        return NotFound("Gift not found");
      }
      var gift := WeddingGifts[k.value];
      if !IsNullOrEmpty(gift.UserId) {
        return BadRequest("Gift already locked");
      }
      var user := FindById(userManager.Users, principal);
      if user.None? {
        return Unauthorized("User not found");
      }
      gift := gift.(UserId := Some(user.value.Id));
      WeddingGifts := WeddingGifts[k.value := gift];
      return Ok(gift);
    }

    /** `UnlockGiftAsync`: the gift must exist and be locked, and the caller
        must resolve to a user; any user may release it, not only its holder. */
    method UnlockGift(id: int, principal: Option<string>) returns (r: ActionResult<WeddingGift>)
      modifies this
      ensures var k := FindGift(old(WeddingGifts), id);
              var caller := FindById(userManager.Users, principal);
              && (k.None? ==> r == NotFound("Gift not found"))
              && (k.Some? && !Locked(old(WeddingGifts)[k.value]) ==> r == BadRequest("Gift already unlocked"))
              && (k.Some? && Locked(old(WeddingGifts)[k.value]) && caller.None? ==> r == Unauthorized("User not found"))
              && (r.Ok? <==> k.Some? && Locked(old(WeddingGifts)[k.value]) && caller.Some?)
              && (r.Ok? ==> && r.value == old(WeddingGifts)[k.value].(UserId := None)
                            && !Locked(r.value)
                            && WeddingGifts == old(WeddingGifts)[k.value := r.value])
      ensures !r.Ok? ==> WeddingGifts == old(WeddingGifts)
    {
      var k := FindGift(WeddingGifts, id);
      if k.None? {
        return NotFound("Gift not found");
      }
      var gift := WeddingGifts[k.value];
      if IsNullOrEmpty(gift.UserId) {
        return BadRequest("Gift already unlocked");
      }
      var user := FindById(userManager.Users, principal);
      if user.None? {
        return Unauthorized("User not found");
      }
      gift := gift.(UserId := None);
      WeddingGifts := WeddingGifts[k.value := gift];
      return Ok(gift);
    }
  }
}
