/**
 * End-to-end scenarios of the wish rules, derived by the verifier from the
 * contracts of `WishesService` alone. User 1 owns wish 10 (price 100);
 * user 2 is another user.
 */
module WishesScenarios {
  import opened Wrappers
  import opened WishEntity
  import opened Wishes

  function Gift(raised: nat): Wish {
    Wish(10, "Bike", "https://shop.example/bike", "https://shop.example/bike.png",
         100, raised, Some(1), "A red bike", 0, 0)
  }

  function PriceOnly(price: nat): UpdateWishDto {
    UpdateWishDto(None, None, None, Some(price), None)
  }

  /** Another user's price edit is refused; the owner's goes through while nothing is raised. */
  method EditBeforeFunding() {
    var service := new WishesService(map[10 := Gift(0)], map[1 := [], 2 := []], 11);
    var r := service.UpdateOne(10, PriceOnly(150), 2);
    assert r == Err(Forbidden);
    assert service.wishes[10] == Gift(0);
    r := service.UpdateOne(10, PriceOnly(150), 1);
    assert r.Ok? && r.value.price == 150;
    assert service.wishes[10].price == 150 && service.wishes[10].name == "Bike";
  }

  /** Once an offer has raised 50, the owner can no longer edit the price. */
  method EditAfterFunding() {
    var service := new WishesService(map[10 := Gift(50)], map[1 := [], 2 := []], 11);
    var r := service.UpdateOne(10, PriceOnly(200), 1);
    assert r == Err(Conflict);
    assert service.wishes[10].price == 100;
  }

  /** Copying twice: the second copy is refused, yet the counter goes up both times. */
  method CopyTwice() {
    var service := new WishesService(map[10 := Gift(0)], map[1 := [], 2 := []], 11);
    assert 10 in service.wishes && 2 in service.collections && 10 !in service.collections[2];
    assert service.collections[2] + [10] == [10];
    var r := service.Copy(10, 2);
    assert r == Ok([10]);
    assert service.wishes[10].copied == 1;
    r := service.Copy(10, 2);
    assert r == Err(AlreadyCopied);
    assert service.wishes[10].copied == 2;
    assert service.collections[2] == [10];
  }

  /** The owner removes the wish; it then no longer appears in either listing. */
  method RemoveThenList() {
    var service := new WishesService(map[10 := Gift(0)], map[1 := [], 2 := []], 11);
    var r := service.RemoveOne(10, 2);
    assert r == Err(Forbidden) && 10 in service.wishes;
    r := service.RemoveOne(10, 1);
    assert r == Ok(Gift(0)) && service.wishes == map[];
    assert service.FindTop() == [] && service.FindLast() == [];
    assert service.FindOne(10) == [];
  }
}
