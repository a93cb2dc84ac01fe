# Dashboard food list: a Dafny model

This project models the state handling of the food dashboard page
(`src/pages/Dashboard/index.tsx`). The page holds four pieces of state:

- the list of foods;
- the edit-target wrapper `{ editingFood, editModalOpen }`;
- the create dialog's `modalOpen` flag;
- the edit dialog's `editModalOpen` flag.

It changes that state when the server answers a load, create, update or delete
request, and when the user toggles a dialog or picks a food to edit.

The model has three modules:

- `Foods` (`foods.dfy`): the `Food` record, the `Outcome` of a remote call
  (`Ok(value)` or `Err`), and the create request body as a JSON object, with
  object spread written as map union.
- `FoodList` (`food_list.dfy`): the list transitions as pure functions. They
  are `Append` for `[...foods, foodAdded]`, `ReplaceById` for the `map` in
  the update handler, and `RemoveById` for the `filter` in the delete
  handler. The lemmas cover what each transition keeps and changes, when it is
  a no-op, idempotence, order preservation, how the transitions combine, and
  the uniqueness of ids.
- `DashboardPage` (`dashboard.dfy`): the component as a class `Dashboard`
  whose fields are the four state variables. Each handler is a method that
  takes its server outcome as a parameter and states the whole new state. The
  method `Flows` is a client that walks through the page's flows using only
  the handlers' contracts.

The model follows the code as written, including these behaviours a reader
might not expect:

- An update replaces every entry that carries the returned id, not just the
  first.
- A delete drops every entry that carries the id.
- `handleEditFood` sets only the flag nested in the wrapper. It leaves the
  separate `editModalOpen` flag alone, and that flag is what controls whether
  the edit dialog shows.
- The initial load has no error handler, so a failed load changes nothing.

## Model

| member | source | states |
|---|---|---|
| `DashboardPage.Dashboard.constructor` | src/pages/Dashboard/index.tsx:20-23 | the page starts with an empty list, an empty edit-target wrapper and both dialogs closed |
| `DashboardPage.Dashboard.Load` | src/pages/Dashboard/index.tsx:25-28 | a successful fetch replaces the list with the server's array, in the same order; a failed one leaves all state as it was |
| `DashboardPage.Dashboard.HandleAddFood` | src/pages/Dashboard/index.tsx:30-43 | the request body is the create payload; on success the returned food is appended; on failure the list, both flags and the edit target are unchanged |
| `DashboardPage.Dashboard.HandleUpdateFood` | src/pages/Dashboard/index.tsx:45-62 | on success the list becomes the replace-by-id of the returned food; on failure the list, both flags and the edit target are unchanged |
| `DashboardPage.Dashboard.HandleDeleteFood` | src/pages/Dashboard/index.tsx:64-74 | on success the list becomes the remove-by-id of the deleted id; on failure the list, both flags and the edit target are unchanged |
| `DashboardPage.Dashboard.ToggleModal` | src/pages/Dashboard/index.tsx:76 | negates `modalOpen` and changes nothing else, so two toggles restore it |
| `DashboardPage.Dashboard.ToggleEditModal` | src/pages/Dashboard/index.tsx:77 | negates `editModalOpen` and changes nothing else, so two toggles restore it |
| `DashboardPage.Dashboard.HandleEditFood` | src/pages/Dashboard/index.tsx:79-81 | the wrapper becomes `{editingFood: food, editModalOpen: true}`; the list, `modalOpen` and the separate `editModalOpen` flag are unchanged |
| `Foods.CreatePayload` | src/pages/Dashboard/index.tsx:32-35 | the create body has `available` true whatever the input holds, and every other property of the input unchanged |
| `FoodList.Append` | src/pages/Dashboard/index.tsx:39 | the list grows by one, every earlier entry keeps its index and value, and the added food is last |
| `FoodList.ReplaceById` | src/pages/Dashboard/index.tsx:54-56 | the length is unchanged; an entry with a different id is unchanged at its index; every entry with the returned id becomes the returned food |
| `FoodList.RemoveById` | src/pages/Dashboard/index.tsx:68 | the length does not grow; a food is in the result exactly when it is in the old list and has another id; such foods keep their multiplicity |
| `FoodList.ReplaceUnchangedIff` | src/pages/Dashboard/index.tsx:54-56 | an update leaves the list unchanged if and only if every entry with the returned id already equals the returned food |
| `FoodList.ReplaceMissingIdIsNoOp` | src/pages/Dashboard/index.tsx:54-56 | an update whose id is on no entry leaves the list unchanged |
| `FoodList.ReplaceIdempotent` | src/pages/Dashboard/index.tsx:54-56 | applying the same returned food twice gives the same list as applying it once |
| `FoodList.ReplaceKeepsIds` | src/pages/Dashboard/index.tsx:54-56 | an update keeps the id at every index |
| `FoodList.ReplaceOnUniqueIds` | src/pages/Dashboard/index.tsx:54-56 | on a list with unique ids, an update keeps the ids unique and changes at most one index |
| `FoodList.RemoveKeepsOrder` | src/pages/Dashboard/index.tsx:68 | the result lists the old entries at strictly increasing positions, and those are exactly the positions whose id differs from the deleted one |
| `FoodList.RemoveLeavesNoId` | src/pages/Dashboard/index.tsx:68 | after a delete, no entry carries the deleted id |
| `FoodList.RemoveUnchangedIff` | src/pages/Dashboard/index.tsx:68 | a delete leaves the list unchanged if and only if no entry carries the id |
| `FoodList.RemoveIdempotent` | src/pages/Dashboard/index.tsx:68 | deleting the same id twice gives the same list as deleting it once |
| `FoodList.RemovePreservesUniqueIds` | src/pages/Dashboard/index.tsx:68 | a delete keeps ids unique |
| `FoodList.AppendUniqueIff` | src/pages/Dashboard/index.tsx:39 | on a list with unique ids, appending keeps them unique if and only if the added id is new |
| `FoodList.RemoveAfterAppend` | src/pages/Dashboard/index.tsx:39 | deleting the id of a just-added food gives the same list as deleting it before the add |
| `FoodList.RemoveAfterReplace` | src/pages/Dashboard/index.tsx:54-56 | deleting the id of a just-updated food gives the same list as deleting it without the update |

## Left out

- The HTTP client and the request URLs are left out. Each remote call is
  replaced by its awaited outcome, `Ok(value)` or `Err`, passed to the
  handler.
- `DashboardPage.Dashboard.HandleUpdateFood`: the request URL and body are
  not modelled, so the method takes no form input. The source builds both from
  the wrapper: it reads `id` from the wrapper and spreads the wrapper object
  rather than the food inside it. These are transport details. Only the merge
  of the returned food into the list is modelled.
- `DashboardPage.Dashboard.Load`: an unhandled rejection of the initial fetch
  is modelled only as "no state change". The model has no error surface for
  it.
- The `console.log` reporting of caught errors is I/O and is left out.
- React scheduling is left out. This covers when the effect runs, the
  interleaving of pending `await`s, and handlers that close over a stale
  `foods` from an earlier render. Each handler here acts on the current state.
- Rendering is left out: the JSX, the header, the food cards, the two modal
  components and the styles.
- The food fields other than `id` and `available` are carried as an opaque
  payload. The JavaScript number `price` is represented by a real and never
  computed on.
- The create payload is modelled as a flat JSON object of the properties the
  form supplies. Nested values are not represented.
- Object identity is not modelled. Foods are compared by value, so
  "unchanged" in the lemmas and the failure cases means equal in every field.
  In the source, `map` and `filter` always build a new array, and a replaced
  entry is the response's own object. Nothing in the page relies on identity.
