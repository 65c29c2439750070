/** `ParticipationsController`: each signed-in user keeps a list of the
    guests they announce. Every action first resolves the caller; edit and
    delete only see the caller's own rows. */
module ParticipationsApi {
  import opened Common
  import opened Seqs
  import opened Data
  import opened Identity

  /** `CreateParticipationRequest`: the four fields a user supplies. */
  datatype ParticipationRequest = ParticipationRequest(
    ParticipantFullName: string, AgeCategory: int, Present: bool, Notes: string)

  /** The anonymous object the actions return for a row. */
  datatype ParticipationView = ParticipationView(
    Id: int, ParticipantFullName: string, AgeCategory: int, Present: bool, Notes: string)

  function View(p: WeddingParticipation): (v: ParticipationView)
    ensures v.Id == p.Id && v.ParticipantFullName == p.ParticipantFullName
            && v.AgeCategory == p.AgeCategory && v.Present == p.Present && v.Notes == p.Notes
  {
    ParticipationView(p.Id, p.ParticipantFullName, p.AgeCategory, p.Present, p.Notes)
  }

  /** `Where(m => m.UserId == uid)`: the rows of `uid`, in table order. */
  function OwnedBy(rows: seq<WeddingParticipation>, uid: string): (r: seq<WeddingParticipation>)
    ensures forall p :: p in r <==> p in rows && p.UserId == uid
  {
    if rows == [] then []
    else (if rows[0].UserId == uid then [rows[0]] else []) + OwnedBy(rows[1..], uid)
  }

  function IdKey(p: WeddingParticipation): int
  {
    p.Id
  }

  function Project(s: seq<WeddingParticipation>): (r: seq<ParticipationView>)
    ensures |r| == |s| && forall i :: 0 <= i < |s| ==> r[i] == View(s[i])
  {
    seq(|s|, i requires 0 <= i < |s| => View(s[i]))
  }

  /** `GetParticipationsAsync`'s query: the caller's rows, newest id first,
      projected. */
  function Listing(rows: seq<WeddingParticipation>, uid: string): seq<ParticipationView>
  {
    Project(SortDesc(OwnedBy(rows, uid), IdKey))
  }

  /** Sorting keeps exactly the elements it was given. */
  lemma SortKeepsMembers(s: seq<WeddingParticipation>)
    ensures |SortDesc(s, IdKey)| == |s|
    ensures forall p :: p in SortDesc(s, IdKey) <==> p in s
  {
    var sorted := SortDesc(s, IdKey);
    assert |sorted| == |multiset(sorted)| == |multiset(s)| == |s|;
    forall p ensures p in sorted <==> p in s {
      assert p in sorted <==> p in multiset(sorted);
      assert p in s <==> p in multiset(s);
    }
  }

  /** The views of a sequence are the views of its elements. */
  lemma ProjectMembers(s: seq<WeddingParticipation>)
    ensures forall p :: p in s ==> View(p) in Project(s)
    ensures forall v :: v in Project(s) ==> exists p :: p in s && v == View(p)
  {
    forall p | p in s ensures View(p) in Project(s) {
      var i :| 0 <= i < |s| && s[i] == p;
      assert Project(s)[i] == View(p);
    }
    forall v | v in Project(s) ensures exists p :: p in s && v == View(p) {
      var i :| 0 <= i < |s| && Project(s)[i] == v;
      assert s[i] in s;
    }
  }

  /** The listing shows exactly the caller's rows, one entry per row, ordered
      by id, largest first. */
  lemma ListingIsOwnRowsByIdDesc(rows: seq<WeddingParticipation>, uid: string)
    ensures |Listing(rows, uid)| == |OwnedBy(rows, uid)|
    ensures forall i, j :: 0 <= i < j < |Listing(rows, uid)| ==> Listing(rows, uid)[i].Id >= Listing(rows, uid)[j].Id
    ensures forall p :: p in rows && p.UserId == uid ==> View(p) in Listing(rows, uid)
    ensures forall v :: v in Listing(rows, uid) ==> exists p :: p in rows && p.UserId == uid && v == View(p)
  {
    var owned := OwnedBy(rows, uid);
    var sorted := SortDesc(owned, IdKey);
    SortDescSorted(owned, IdKey);
    SortKeepsMembers(owned);
    ProjectMembers(sorted);
    assert forall i :: 0 <= i < |sorted| ==> Listing(rows, uid)[i].Id == IdKey(sorted[i]);
  }

  /** `Where(m => m.UserId == uid).FirstOrDefault(p => p.Id == id)`, as an index
      into the whole table. */
  function FindOwned(rows: seq<WeddingParticipation>, uid: string, id: int): (r: Option<nat>)
    ensures r.Some? ==> r.value < |rows| && rows[r.value].UserId == uid && rows[r.value].Id == id
    ensures r.None? ==> forall p :: p in rows ==> p.UserId != uid || p.Id != id
  {
    FirstIndex(rows, (p: WeddingParticipation) => p.UserId == uid && p.Id == id)
  }

  /** The row after an edit: the four request fields replaced. */
  function Edited(p: WeddingParticipation, request: ParticipationRequest): (q: WeddingParticipation)
    ensures q.Id == p.Id && q.CreatedAt == p.CreatedAt && q.UserId == p.UserId
    ensures q.ParticipantFullName == request.ParticipantFullName && q.AgeCategory == request.AgeCategory
            && q.Present == request.Present && q.Notes == request.Notes
  {
    p.(ParticipantFullName := request.ParticipantFullName, AgeCategory := request.AgeCategory,
       Present := request.Present, Notes := request.Notes)
  }

  class ParticipationsController {
    const userManager: UserManager
    var WeddingParticipations: seq<WeddingParticipation>
    var nextId: int

    /** The identity column has handed out every id in the table. */
    ghost predicate Valid()
      reads this
    {
      forall p :: p in WeddingParticipations ==> p.Id < nextId
    }

    constructor (userManager: UserManager)
      ensures Valid() && this.userManager == userManager && WeddingParticipations == []
    {
      this.userManager := userManager;
      WeddingParticipations := [];
      nextId := 1;
    }

    /** `GetParticipationsAsync`. */
    method GetParticipations(principal: Option<string>) returns (r: ActionResult<seq<ParticipationView>>)
      ensures FindById(userManager.Users, principal).None? <==> r == Unauthorized("User not found")
      ensures r.Unauthorized? || r.Ok?
      ensures r.Ok? ==> r.value == Listing(WeddingParticipations, FindById(userManager.Users, principal).value.Id)
    {
      var user := FindById(userManager.Users, principal);
      if user.None? {
        return Unauthorized("User not found");
      }
      return Ok(Listing(WeddingParticipations, user.value.Id));
    }

    /** `CreateParticipationAsync`: one row owned by the caller, stamped `now`. */
    method CreateParticipation(principal: Option<string>, request: ParticipationRequest, now: Instant)
      returns (r: ActionResult<ParticipationView>)
      requires Valid()
      modifies this
      ensures Valid()
      ensures FindById(userManager.Users, principal).None? <==> r == Unauthorized("User not found")
      ensures r.Unauthorized? || r.Ok?
      ensures r.Unauthorized? ==> WeddingParticipations == old(WeddingParticipations) && nextId == old(nextId)
      ensures r.Ok? ==>
                var row := WeddingParticipation(old(nextId), now, request.ParticipantFullName, request.AgeCategory,
                                                request.Present, request.Notes,
                                                FindById(userManager.Users, principal).value.Id);
                && WeddingParticipations == old(WeddingParticipations) + [row]
                && r.value == View(row)
                && forall p :: p in old(WeddingParticipations) ==> p.Id != row.Id
    {
      var user := FindById(userManager.Users, principal);
      if user.None? {
        return Unauthorized("User not found");
      }
      var row := WeddingParticipation(nextId, now, request.ParticipantFullName, request.AgeCategory,
                                      request.Present, request.Notes, user.value.Id);
      WeddingParticipations := WeddingParticipations + [row];
      nextId := nextId + 1;
      return Ok(View(row));
    }

    /** `EditParticipationAsync`: only a row of the caller's with that id is
        found, and only its four request fields change. */
    method EditParticipation(principal: Option<string>, id: int, request: ParticipationRequest)
      returns (r: ActionResult<ParticipationView>)
      requires Valid()
      modifies this
      ensures Valid() && nextId == old(nextId)
      ensures var caller := FindById(userManager.Users, principal);
              && (caller.None? ==> r == Unauthorized("User not found"))
              && (caller.Some? ==>
                    var k := FindOwned(old(WeddingParticipations), caller.value.Id, id);
                    && (k.None? ==> r == NotFound(""))
                    && (k.Some? ==>
                          && WeddingParticipations
                             == old(WeddingParticipations)[k.value := Edited(old(WeddingParticipations)[k.value], request)]
                          && r == Ok(View(WeddingParticipations[k.value]))))
      ensures !r.Ok? ==> WeddingParticipations == old(WeddingParticipations)
    {
      var user := FindById(userManager.Users, principal);
      if user.None? {
        return Unauthorized("User not found");
      }
      var k := FindOwned(WeddingParticipations, user.value.Id, id);
      if k.None? {
        return NotFound("");
      }
      var row := Edited(WeddingParticipations[k.value], request);
      WeddingParticipations := WeddingParticipations[k.value := row];
      return Ok(View(row));
    }

    /** `DeleteAsync`: only a row of the caller's with that id is found, and
        exactly that row is removed. */
    method DeleteParticipation(principal: Option<string>, id: int) returns (r: ActionResult<()>)
      requires Valid()
      modifies this
      ensures Valid() && nextId == old(nextId)
      ensures var caller := FindById(userManager.Users, principal);
              && (caller.None? ==> r == Unauthorized("User not found"))
              && (caller.Some? ==>
                    var k := FindOwned(old(WeddingParticipations), caller.value.Id, id);
                    && (k.None? ==> r == NotFound(""))
                    && (k.Some? ==>
                          && r == Ok(())
                          && WeddingParticipations
                             == old(WeddingParticipations)[..k.value] + old(WeddingParticipations)[k.value + 1..]
                          && multiset(WeddingParticipations) + multiset{old(WeddingParticipations)[k.value]}
                             == multiset(old(WeddingParticipations))))
      ensures !r.Ok? ==> WeddingParticipations == old(WeddingParticipations)
    {
      var user := FindById(userManager.Users, principal);
      if user.None? {
        return Unauthorized("User not found");
      }
      var k := FindOwned(WeddingParticipations, user.value.Id, id);
      if k.None? {
        return NotFound("");
      }
      ghost var before := WeddingParticipations;
      WeddingParticipations := WeddingParticipations[..k.value] + WeddingParticipations[k.value + 1..];
      assert before == before[..k.value] + [before[k.value]] + before[k.value + 1..];
      return Ok(());
    }
  }
}
