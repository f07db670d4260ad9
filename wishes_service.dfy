/**
 * The wish rules of `WishesService` (src/wishes/wishes.service.ts) over an
 * in-memory store: the wish table keyed by id, and each existing user's
 * wish collection (the user's `wishes` relation) as a sequence of wish ids.
 */
module Wishes {
  import opened Wrappers
  import opened WishEntity
  import opened Ranking

  /** The failures the service raises. */
  datatype Error =
    | NotFound       // a wish, a user or an owner that is not there is dereferenced
    | Forbidden      // the caller does not own the wish
    | Conflict       // the price of a wish that has raised money is being edited
    | AlreadyCopied  // the wish is already in the caller's collection

  datatype Result<+T> = Ok(value: T) | Err(error: Error)

  /** `take: 40` of findTop and findLast. */
  const PAGE_SIZE: nat := 40

  /** The fields a caller supplies for a new wish. */
  datatype CreateWishDto = CreateWishDto(
    name: string,
    link: string,
    image: string,
    price: nat,
    description: string
  )

  /** A partial update: `None` is a key the request does not carry. */
  datatype UpdateWishDto = UpdateWishDto(
    name: Option<string>,
    link: Option<string>,
    image: Option<string>,
    price: Option<nat>,
    description: Option<string>
  )

  /** JavaScript truthiness of an optional price: present and not zero. */
  predicate Truthy(price: Option<nat>) {
    price.Some? && price.value != 0
  }

  /**
   * `{ ...wish, ...dto }`: every key the DTO carries overwrites the wish's
   * field, every other field is kept.
   */
  function Merge(w: Wish, dto: UpdateWishDto): (r: Wish)
    ensures dto.name.Some? ==> r.name == dto.name.value
    ensures dto.link.Some? ==> r.link == dto.link.value
    ensures dto.image.Some? ==> r.image == dto.image.value
    ensures dto.price.Some? ==> r.price == dto.price.value
    ensures dto.description.Some? ==> r.description == dto.description.value
    ensures dto.name.None? ==> r.name == w.name
    ensures dto.link.None? ==> r.link == w.link
    ensures dto.image.None? ==> r.image == w.image
    ensures dto.price.None? ==> r.price == w.price
    ensures dto.description.None? ==> r.description == w.description
    ensures r.id == w.id && r.owner == w.owner && r.raised == w.raised
    ensures r.copied == w.copied && r.createdAt == w.createdAt
  {
    w.(name := dto.name.GetOr(w.name),
       link := dto.link.GetOr(w.link),
       image := dto.image.GetOr(w.image),
       price := dto.price.GetOr(w.price),
       description := dto.description.GetOr(w.description))
  }

  /** Merging a DTO that carries no key leaves the wish as it was. */
  lemma MergeNothing(w: Wish)
    ensures Merge(w, UpdateWishDto(None, None, None, None, None)) == w
  {
  }

  /** Sending the same update twice stores what sending it once stores. */
  lemma MergeIdempotent(w: Wish, dto: UpdateWishDto)
    ensures Merge(Merge(w, dto), dto) == Merge(w, dto)
  {
  }

  /**
   * The checks of updateOne on a loaded wish, in the order updateOne runs
   * them (ownership first, then the price lock), and the merged wish it
   * saves when both pass.
   */
  function ApplyUpdate(w: Wish, dto: UpdateWishDto, userId: UserId): (r: Result<Wish>)
    ensures r == Err(NotFound) <==> w.owner.None?
    ensures r == Err(Forbidden) <==> w.owner.Some? && w.owner.value != userId
    ensures r == Err(Conflict) <==> w.owner == Some(userId) && w.raised > 0 && Truthy(dto.price)
    ensures r.Ok? <==> w.owner == Some(userId) && (w.raised == 0 || !Truthy(dto.price))
    ensures r.Ok? ==> r.value == Merge(w, dto)
    // the price lock: once money is raised a successful update keeps the
    // price, except that a price of 0 is falsy and slips past the check
    ensures r.Ok? && w.raised > 0 ==> r.value.price == w.price || dto.price == Some(0)
  {
    if w.owner.None? then Err(NotFound)
    else if w.owner.value != userId then Err(Forbidden)
    else if w.raised > 0 && Truthy(dto.price) then Err(Conflict)
    else Ok(Merge(w, dto))
  }

  /** A price equal to the current one is still refused once money is raised. */
  lemma SamePriceConflicts(w: Wish, dto: UpdateWishDto, userId: UserId)
    requires w.owner == Some(userId) && w.raised > 0 && w.price > 0
    requires dto.price == Some(w.price)
    ensures ApplyUpdate(w, dto, userId) == Err(Conflict)
  {
  }

  /** A price of 0 passes the lock and overwrites the price of a funded wish. */
  lemma ZeroPricePassesLock(w: Wish, dto: UpdateWishDto, userId: UserId)
    requires w.owner == Some(userId) && w.raised > 0
    requires dto.price == Some(0)
    ensures ApplyUpdate(w, dto, userId).Ok?
    ensures ApplyUpdate(w, dto, userId).value.price == 0
  {
  }

  /** The listing the database orders: every stored row with id below `n`, by ascending id. */
  function Rows(m: map<WishId, Wish>, n: nat): (r: seq<Wish>)
    requires forall id :: id in m ==> m[id].id == id
    ensures forall i :: 0 <= i < |r| ==> r[i].id < n && r[i].id in m && m[r[i].id] == r[i]
    ensures forall id :: id in m && id < n ==> m[id] in r
    ensures forall i, j :: 0 <= i < j < |r| ==> r[i].id < r[j].id
  {
    if n == 0 then []
    else Rows(m, n - 1) + (if n - 1 in m then [m[n - 1]] else [])
  }

  /**
   * The first page of the table ordered by column `c` descending: at most
   * 40 stored wishes, none twice, and a wish is left out only when the page
   * is full and its key is no larger than the last one's.
   */
  function Ranked(m: map<WishId, Wish>, n: nat, c: Column): (r: seq<Wish>)
    requires forall id :: id in m ==> id < n && m[id].id == id
    ensures |r| <= PAGE_SIZE
    ensures Descending(r, c)
    ensures forall i :: 0 <= i < |r| ==> r[i].id in m && m[r[i].id] == r[i]
    ensures forall i, j :: 0 <= i < j < |r| ==> r[i].id != r[j].id
    ensures forall id :: id in m && m[id] !in r ==> |r| == PAGE_SIZE && Key(m[id], c) <= Key(r[PAGE_SIZE - 1], c)
  {
    var rows := Rows(m, n);
    var r := Top(rows, c, PAGE_SIZE);
    RankedFacts(m, c, rows, r);
    r
  }

  lemma RankedFacts(m: map<WishId, Wish>, c: Column, rows: seq<Wish>, r: seq<Wish>)
    requires forall i :: 0 <= i < |rows| ==> rows[i].id in m && m[rows[i].id] == rows[i]
    requires forall id :: id in m ==> m[id] in rows
    requires forall i, j :: 0 <= i < j < |rows| ==> rows[i].id < rows[j].id
    requires multiset(r) <= multiset(rows) && (Distinct(rows) ==> Distinct(r))
    requires forall w :: w in rows && w !in r ==> |r| == PAGE_SIZE && Key(w, c) <= Key(r[PAGE_SIZE - 1], c)
    ensures forall i :: 0 <= i < |r| ==> r[i].id in m && m[r[i].id] == r[i]
    ensures forall i, j :: 0 <= i < j < |r| ==> r[i].id != r[j].id
    ensures forall id :: id in m && m[id] !in r ==> |r| == PAGE_SIZE && Key(m[id], c) <= Key(r[PAGE_SIZE - 1], c)
  {
    assert Distinct(rows) by {
      forall i, j | 0 <= i < j < |rows| ensures rows[i] != rows[j] {
        assert rows[i].id < rows[j].id;
      }
    }
    assert Distinct(r);
    forall i | 0 <= i < |r| ensures r[i].id in m && m[r[i].id] == r[i] {
      assert r[i] in multiset(r);
      assert r[i] in multiset(rows);
      var k :| 0 <= k < |rows| && rows[k] == r[i];
    }
    forall i, j | 0 <= i < j < |r| ensures r[i].id != r[j].id {
      assert r[i] != r[j];
    }
    forall id | id in m && m[id] !in r ensures |r| == PAGE_SIZE && Key(m[id], c) <= Key(r[PAGE_SIZE - 1], c) {
      assert m[id] in rows;
    }
  }

  /** The invariant of the store. */
  ghost predicate StoreInvariant(wishes: map<WishId, Wish>, collections: map<UserId, seq<WishId>>, nextId: WishId) {
    && (forall id :: id in wishes ==> id < nextId && wishes[id].id == id)
    && (forall u, i :: u in collections && 0 <= i < |collections[u]| ==> collections[u][i] < nextId)
    && (forall u, i, j :: u in collections && 0 <= i < j < |collections[u]| ==> collections[u][i] != collections[u][j])
  }

  class WishesService {
    /** The wish repository, by primary key. */
    var wishes: map<WishId, Wish>
    /** Each existing user's wish collection; a user that is not a key does not exist. */
    var collections: map<UserId, seq<WishId>>
    /** The next value of the wish id sequence. */
    var nextId: WishId

    /**
     * Every wish is stored under its own id, below the id sequence; no
     * collection names an id the sequence has not handed out, or the
     * same wish twice.
     */
    ghost predicate Valid()
      reads this
    {
      StoreInvariant(wishes, collections, nextId)
    }

    constructor (wishes0: map<WishId, Wish>, collections0: map<UserId, seq<WishId>>, nextId0: WishId)
      requires StoreInvariant(wishes0, collections0, nextId0)
      ensures Valid()
      ensures wishes == wishes0 && collections == collections0 && nextId == nextId0
    {
      wishes, collections, nextId := wishes0, collections0, nextId0;
    }

    /**
     * create: saves a new wish built from the DTO, owned by the caller
     * (null when the caller is not a user), with nothing raised and a zero
     * counter, under a fresh id.
     */
    method Create(dto: CreateWishDto, userId: UserId, now: nat) returns (w: Wish)
      requires Valid()
      modifies this
      ensures Valid()
      ensures w.id == old(nextId) && w.id !in old(wishes)
      ensures w.name == dto.name && w.link == dto.link && w.image == dto.image
      ensures w.price == dto.price && w.description == dto.description
      ensures w.owner == (if userId in old(collections) then Some(userId) else None)
      ensures w.raised == 0 && w.copied == 0 && w.createdAt == now
      ensures wishes == old(wishes)[w.id := w]
      ensures collections == old(collections) && nextId == old(nextId) + 1
    {
      var owner := if userId in collections then Some(userId) else None;
      w := Wish(nextId, dto.name, dto.link, dto.image, dto.price, 0, owner, dto.description, 0, now);
      wishes := wishes[w.id := w];
      nextId := nextId + 1;
    }

    /**
     * findOne: `find({ where: { id } })`, a list of the wishes whose id is
     * the argument (despite the parameter's name, not the owner's).
     */
    function FindOne(id: WishId): (r: seq<Wish>)
      requires Valid()
      reads this
      ensures |r| <= 1
      ensures forall w :: w in r <==> w in wishes.Values && w.id == id
    {
      if id in wishes then [wishes[id]] else []
    }

    /**
     * updateOne: a missing wish is NotFound; otherwise the checks of
     * ApplyUpdate decide, and only a success writes, and only that wish.
     */
    method UpdateOne(id: WishId, dto: UpdateWishDto, userId: UserId) returns (r: Result<Wish>)
      requires Valid()
      modifies this
      ensures Valid()
      ensures id !in old(wishes) ==> r == Err(NotFound)
      ensures id in old(wishes) ==> r == ApplyUpdate(old(wishes)[id], dto, userId)
      ensures wishes == if r.Ok? then old(wishes)[id := r.value] else old(wishes)
      ensures collections == old(collections) && nextId == old(nextId)
    {
      if id !in wishes {
        return Err(NotFound);
      }
      var wish := wishes[id];
      r := ApplyUpdate(wish, dto, userId);
      if r.Ok? {
        wishes := wishes[id := r.value];
      }
    }

    /**
     * removeOne: a missing wish or owner is NotFound, a caller who is not
     * the owner is Forbidden and nothing is removed; the owner removes
     * exactly that wish and gets it back.
     */
    method RemoveOne(id: WishId, userId: UserId) returns (r: Result<Wish>)
      requires Valid()
      modifies this
      ensures Valid()
      ensures id !in old(wishes) || old(wishes)[id].owner.None? ==> r == Err(NotFound)
      ensures id in old(wishes) && old(wishes)[id].owner.Some? && old(wishes)[id].owner.value != userId ==> r == Err(Forbidden)
      ensures id in old(wishes) && old(wishes)[id].owner == Some(userId) ==> r == Ok(old(wishes)[id])
      ensures wishes == if r.Ok? then old(wishes) - {id} else old(wishes)
      ensures collections == old(collections) && nextId == old(nextId)
    {
      if id !in wishes {
        return Err(NotFound);
      }
      var wish := wishes[id];
      if wish.owner.None? {
        return Err(NotFound);
      }
      if wish.owner.value != userId {
        return Err(Forbidden);
      }
      wishes := wishes - {id};
      r := Ok(wish);
    }

    /**
     * findTop: at most 40 wishes, by `copied` descending, each a stored
     * wish, none twice; a wish is left out only when 40 are returned and
     * its counter is no larger than the last one's.
     */
    function FindTop(): (r: seq<Wish>)
      requires Valid()
      reads this
      ensures |r| <= PAGE_SIZE
      ensures Descending(r, Copied)
      ensures forall i :: 0 <= i < |r| ==> r[i].id in wishes && wishes[r[i].id] == r[i]
      ensures forall i, j :: 0 <= i < j < |r| ==> r[i].id != r[j].id
      ensures forall id :: id in wishes && wishes[id] !in r ==> |r| == PAGE_SIZE && wishes[id].copied <= r[PAGE_SIZE - 1].copied
    {
      Ranked(wishes, nextId, Copied)
    }

    /**
     * findLast: at most 40 wishes, newest first, each a stored wish, none
     * twice; a wish is left out only when 40 are returned and it is no
     * newer than the last one.
     */
    function FindLast(): (r: seq<Wish>)
      requires Valid()
      reads this
      ensures |r| <= PAGE_SIZE
      ensures Descending(r, CreatedAt)
      ensures forall i :: 0 <= i < |r| ==> r[i].id in wishes && wishes[r[i].id] == r[i]
      ensures forall i, j :: 0 <= i < j < |r| ==> r[i].id != r[j].id
      ensures forall id :: id in wishes && wishes[id] !in r ==> |r| == PAGE_SIZE && wishes[id].createdAt <= r[PAGE_SIZE - 1].createdAt
    {
      Ranked(wishes, nextId, CreatedAt)
    }

    /**
     * copy: a missing wish is NotFound before anything is written. Otherwise
     * the wish's counter goes up by one and is saved whatever follows; then
     * a missing user is NotFound, a wish already in the user's collection
     * is AlreadyCopied, and otherwise the wish's id is appended to the
     * collection, which is returned.
     */
    method Copy(wishId: WishId, userId: UserId) returns (r: Result<seq<WishId>>)
      requires Valid()
      modifies this
      ensures Valid()
      ensures wishId !in old(wishes) ==> r == Err(NotFound) && wishes == old(wishes)
      ensures wishId in old(wishes) ==>
        wishes == old(wishes)[wishId := old(wishes)[wishId].(copied := old(wishes)[wishId].copied + 1)]
      ensures wishId in old(wishes) && userId !in old(collections) ==> r == Err(NotFound)
      ensures wishId in old(wishes) && userId in old(collections) && wishId in old(collections)[userId] ==>
        r == Err(AlreadyCopied)
      ensures wishId in old(wishes) && userId in old(collections) && wishId !in old(collections)[userId] ==>
        r == Ok(old(collections)[userId] + [wishId])
      ensures collections == if r.Ok? then old(collections)[userId := r.value] else old(collections)
      ensures nextId == old(nextId)
    {
      if wishId !in wishes {
        return Err(NotFound);
      }
      var wish := wishes[wishId];
      wish := wish.(copied := wish.copied + 1);
      wishes := wishes[wishId := wish];
      if userId !in collections {
        return Err(NotFound);
      }
      var held := collections[userId];
      if wishId in held {
        return Err(AlreadyCopied);
      }
      held := held + [wishId];
      collections := collections[userId := held];
      r := Ok(held);
    }
  }
}
