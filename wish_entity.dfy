/**
 * The `Wish` record of src/wishes/entities/wish.entity.ts: one gift item,
 * its funding goal, the amount raised toward it, its owner and its
 * popularity counter.
 */
module WishEntity {
  import opened Wrappers

  /** Generated primary keys of the wish and user tables. */
  type WishId = nat
  type UserId = nat

  /**
   * One row of the wish table. Money columns and the counter are naturals,
   * the creation date is a timestamp. `owner` is the loaded owner relation,
   * which is null when the wish was created for a user that did not exist.
   */
  datatype Wish = Wish(
    id: WishId,
    name: string,
    link: string,
    image: string,
    price: nat,
    raised: nat,
    owner: Option<UserId>,
    description: string,
    copied: nat,
    createdAt: nat
  )
}
