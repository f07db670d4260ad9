# Wish rules of a gift-registry backend, in Dafny

This project models the decision logic of `WishesService`
(src/wishes/wishes.service.ts) in a gift-registry backend. Users add wishes
(gift items with a price and an amount raised toward it), edit and remove
their own wishes, list the most copied and the newest wishes, and copy
another user's wish into their own collection.

The service is modelled as a class `Wishes.WishesService` over an
in-memory store:

- `wishes`: the wish table, a map from wish id to a `WishEntity.Wish`
  record. The record holds the columns of src/wishes/entities/wish.entity.ts
  (lines 18-59). Money and the counter are naturals; the creation date is a
  natural timestamp. The owner is an optional user id, because the owner
  lookup in `create` can find no user.
- `collections`: each existing user's wish collection (the user's `wishes`
  relation), as a sequence of wish ids. A user id that is not a key is a
  user that does not exist.
- `nextId`: the next value of the wish id sequence.

The store invariant (`Valid`) says that every wish is stored under its own
id below `nextId`, that collections only hold ids already handed out, and
that no collection holds the same wish twice. Every method keeps it.

The read-only queries (`FindOne`, `FindTop`, `FindLast`) are functions of
the store. The database's `ORDER BY … DESC` with `take: 40` is modelled in
module `Ranking` as a stable descending insertion sort followed by a
prefix. Rows with equal keys keep ascending id order.

The checks of `updateOne` are the pure function `Wishes.ApplyUpdate`, and
the partial merge `{ ...wish, ...dto }` is `Wishes.Merge`. A `None` field of
`UpdateWishDto` is a key the request does not carry.

Two consequences of the code as written:

- The price lock refuses any truthy price once `raised > 0`. That includes
  a price equal to the current one (`SamePriceConflicts`).
- A price of 0 is falsy in JavaScript. It therefore passes the lock and
  overwrites the price of a funded wish (`ZeroPricePassesLock`).
- `findOne(ownerId)` filters by the wish id, not by the owner, and returns
  a list.

The module `WishesScenarios` holds client methods. In them the verifier
derives, from the contracts alone, four end-to-end scenarios:

- another user's price edit is refused;
- the owner's price edit succeeds while nothing is raised, and is refused after 50 is raised;
- a second copy is refused while the counter still goes up;
- a removed wish disappears from both listings.

I/O, the clock and the database are parameters or state. The creation
timestamp is the `now` argument of `Create`. The acting user's id is an
argument of every mutating operation.

## Model

| member | source | states |
|---|---|---|
| `Wishes.Merge` | src/wishes/wishes.service.ts:55 | every field the update DTO carries is overwritten with its value; every field it does not carry, and the id, owner, raised amount, counter and creation date, are kept |
| `Wishes.MergeNothing` | src/wishes/wishes.service.ts:55 | an update carrying no field leaves the wish as it was |
| `Wishes.MergeIdempotent` | src/wishes/wishes.service.ts:55 | applying the same update twice stores the same wish as applying it once |
| `Wishes.ApplyUpdate` | src/wishes/wishes.service.ts:47-55 | a missing owner is NotFound; a caller who is not the owner is Forbidden whatever the DTO says; for the owner, a truthy price on a wish with money raised is Conflict; success holds exactly in the remaining case and yields the merge; a successful update of a funded wish keeps its price unless the DTO's price is 0 |
| `Wishes.SamePriceConflicts` | src/wishes/wishes.service.ts:50-54 | once money is raised, re-sending the current (non-zero) price is still a Conflict |
| `Wishes.ZeroPricePassesLock` | src/wishes/wishes.service.ts:50-55 | once money is raised, a price of 0 passes the lock and the stored price becomes 0 |
| `Ranking.Insert` | src/wishes/wishes.service.ts:76-78 | inserting a wish into a listing ordered by descending key keeps it ordered and adds exactly that wish |
| `Ranking.Sort` | src/wishes/wishes.service.ts:76-78 | the result is ordered by descending key and is a permutation of the input |
| `Ranking.Top` | src/wishes/wishes.service.ts:76-79 | the first n rows in descending key order: exactly min(n, size) rows, drawn from the input, all of them when there are at most n, no row left out with a larger key than the last one returned, no repeats when the input has none |
| `Wishes.Ranked` | src/wishes/wishes.service.ts:73-91 | one page of the wish table ordered by a column descending: at most 40 stored wishes, each under its own id, none twice, and a wish is left out only when the page is full and its key is no larger than the last one's |
| `Wishes.WishesService.Create` | src/wishes/wishes.service.ts:23-28 | the new wish takes the DTO's fields, a fresh id, the caller as owner (none if the caller is not a user), nothing raised, a zero counter and the current time; it is added and no existing wish or collection changes |
| `Wishes.WishesService.FindOne` | src/wishes/wishes.service.ts:34-39 | the list of stored wishes whose id is the argument, which has at most one element |
| `Wishes.WishesService.UpdateOne` | src/wishes/wishes.service.ts:41-56 | a missing wish is NotFound; otherwise the outcome is that of ApplyUpdate on the stored wish; only a success writes, and then only that wish, with the merged record; every failure leaves the store unchanged |
| `Wishes.WishesService.RemoveOne` | src/wishes/wishes.service.ts:58-71 | a missing wish or owner is NotFound and a non-owner is Forbidden, both removing nothing; the owner removes exactly that id, gets the removed wish back, and every other wish is untouched |
| `Wishes.WishesService.FindTop` | src/wishes/wishes.service.ts:73-81 | at most 40 stored wishes, ordered by `copied` non-increasing, none twice; a stored wish is omitted only when 40 are returned and its counter is at most the 40th one's |
| `Wishes.WishesService.FindLast` | src/wishes/wishes.service.ts:83-91 | at most 40 stored wishes, newest first by `createdAt`, none twice; a stored wish is omitted only when 40 are returned and it is no newer than the 40th |
| `Wishes.WishesService.Copy` | src/wishes/wishes.service.ts:93-116 | a missing wish is NotFound with nothing written; otherwise the wish's counter goes up by exactly one and nothing else about it changes, even when the copy then fails; a missing user is NotFound; a wish already in the user's collection is AlreadyCopied and the collection is unchanged; otherwise the wish's id is appended at the end of the collection, which is returned, and no wish is ever held twice |

## Left out

- NestJS and TypeORM wiring: dependency injection, the repository calls themselves and relation loading (`relations: {...}`). A listing returns the `Wish` records; the loaded owner is its owner id and the loaded offers are not part of the record.
- `findOneWish` (lines 30-32): it passes an arbitrary ORM query through to `findOneOrFail`, and the query language belongs to the ORM.
- `updatedAt`, `offers` and `wishlists` of the wish record: the timestamp is maintained by the ORM's change detection, and the two relations are not read or changed by any rule.
- The DTO classes (src/wishes/dto/) are not part of this model. `CreateWishDto` is taken to carry name, link, image, price and description, and `UpdateWishDto` to be its partial form.
- The entity declares no default for `raised` or `copied`. `Create` starts a new wish with nothing raised and a zero counter, so the missing counter of `wish.copied || 0` never arises.
- The user entity is not part of this model. What pushing into `user.wishes` does in the database is unknown, so the collection is abstract. For the same reason `create` does not add the wish to the owner's collection, and `removeOne` leaves collections as they are. Ids are never reused, so a removed id left in a collection can never match a wish that can still be copied.
- Users are created elsewhere (`UsersService.create` depends on a password hash function not shown). The constructor takes any store state that satisfies the invariant. This includes a `raised` amount set by offers, which are outside the core.
- The read-modify-write race on `copied` under concurrent requests: operations are modelled one at a time.
- `async`/`await`, the exception messages, `precision: 2` money columns and JavaScript's floating-point numbers: amounts, ids and counters are naturals.
- `Date` values: timestamps are naturals.
- `class-validator` length and URL checks: they run at the transport boundary, in library code.
- The order among wishes with equal keys is whatever the database returns; the model fixes it as ascending id.
