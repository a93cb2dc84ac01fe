/** The dashboard page component: the state it holds and the handlers that
    change it. Each handler receives the outcome of its remote call as a
    parameter instead of performing the call. */
module DashboardPage {
  import opened Foods
  import opened FoodList

  /** The edit-target wrapper. The page starts it as an empty object, which
      is `Unset` here; `handleEditFood` replaces it with both fields set. */
  datatype EditingFood = Unset | EditingFood(editingFood: Food, editModalOpen: bool)

  class Dashboard {
    var foods: seq<Food>
    var editingFood: EditingFood
    var modalOpen: bool
    var editModalOpen: bool

    /** The initial state: no foods, an empty edit-target wrapper, both
        dialogs closed. */
    constructor ()
      ensures foods == [] && editingFood == Unset
      ensures !modalOpen && !editModalOpen
    {
      foods := [];
      editingFood := Unset;
      modalOpen := false;
      editModalOpen := false;
    }

    /** The mount-time load: a successful fetch replaces the list with the
        server's array, in the server's order. The fetch has no error
        handler, so a failed one changes nothing. */
    method Load(response: Outcome<seq<Food>>)
      modifies this
      ensures response.Ok? ==> foods == response.value
      ensures response.Err? ==> foods == old(foods)
      ensures editingFood == old(editingFood)
      ensures modalOpen == old(modalOpen) && editModalOpen == old(editModalOpen)
    {
      if response.Ok? {
        foods := response.value;
      }
    }

    /** Creating a food: the request body is the input with `available`
        forced to true; on success the created food is appended; on failure
        nothing changes. */
    method HandleAddFood(food: JsonObject, response: Outcome<Food>) returns (request: JsonObject)
      modifies this
      ensures request == CreatePayload(food)
      ensures response.Ok? ==> foods == Append(old(foods), response.value)
      ensures response.Err? ==> foods == old(foods)
      ensures editingFood == old(editingFood)
      ensures modalOpen == old(modalOpen) && editModalOpen == old(editModalOpen)
    {
      request := CreatePayload(food);
      if response.Ok? {
        foods := Append(foods, response.value);
      }
    }

    /** Updating a food: on success every entry carrying the returned id
        becomes the returned food; on failure nothing changes. */
    method HandleUpdateFood(response: Outcome<Food>)
      modifies this
      ensures response.Ok? ==> foods == ReplaceById(old(foods), response.value)
      ensures response.Err? ==> foods == old(foods)
      ensures editingFood == old(editingFood)
      ensures modalOpen == old(modalOpen) && editModalOpen == old(editModalOpen)
    {
      if response.Ok? {
        foods := ReplaceById(foods, response.value);
      }
    }

    /** Deleting a food: on success every entry carrying `foodId` is
        dropped; on failure nothing changes. */
    method HandleDeleteFood(foodId: int, response: Outcome<()>)
      modifies this
      ensures response.Ok? ==> foods == RemoveById(old(foods), foodId)
      ensures response.Err? ==> foods == old(foods)
      ensures editingFood == old(editingFood)
      ensures modalOpen == old(modalOpen) && editModalOpen == old(editModalOpen)
    {
      if response.Ok? {
        foods := RemoveById(foods, foodId);
      }
    }

    /** Flips the create dialog's flag and nothing else. */
    method ToggleModal()
      modifies this
      ensures modalOpen == !old(modalOpen)
      ensures foods == old(foods) && editingFood == old(editingFood)
      ensures editModalOpen == old(editModalOpen)
    {
      modalOpen := !modalOpen;
    }

    /** Flips the edit dialog's flag and nothing else. */
    method ToggleEditModal()
      modifies this
      ensures editModalOpen == !old(editModalOpen)
      ensures foods == old(foods) && editingFood == old(editingFood)
      ensures modalOpen == old(modalOpen)
    {
      editModalOpen := !editModalOpen;
    }

    /** Sets the edit-target wrapper to the food with its nested flag true.
        The separate `editModalOpen` flag, which decides whether the edit
        dialog shows, is left as it was. */
    method HandleEditFood(food: Food)
      modifies this
      ensures editingFood == EditingFood(food, true)
      ensures foods == old(foods)
      ensures modalOpen == old(modalOpen) && editModalOpen == old(editModalOpen)
    {
      editingFood := EditingFood(food, true);
    }
  }

  /** What a caller of the page can conclude from the handlers' contracts
      alone, one flow after another. */
  method Flows(a: Food, b: Food, input: JsonObject)
    requires a.id == 1 && b.id == 2
  {
    var page := new Dashboard();
    page.Load(Ok([a]));
    assert page.foods == [a];

    var request := page.HandleAddFood(input, Ok(b));
    assert request["available"] == JBool(true);
    assert page.foods == [a, b];

    // A failed call leaves everything as it was.
    page.HandleDeleteFood(1, Err);
    assert page.foods == [a, b];

    // Choosing a food to edit does not open the edit dialog.
    page.HandleEditFood(a);
    assert page.editingFood.editModalOpen && !page.editModalOpen;
    page.ToggleEditModal();
    assert page.editModalOpen && !page.modalOpen;

    var edited := a.(name := "edited");
    page.HandleUpdateFood(Ok(edited));
    assert page.foods == [edited, b];

    // An update whose id is on no entry changes nothing.
    page.HandleUpdateFood(Ok(b.(id := 99)));
    assert page.foods == [edited, b];

    page.HandleDeleteFood(1, Ok(()));
    assert page.foods == [b];

    // Toggling twice restores the flag.
    page.ToggleModal();
    page.ToggleModal();
    assert !page.modalOpen;
  }
}
