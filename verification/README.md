# DatingApp administration core in Dafny

This project models the administrative core of the DatingApp backend:

- **Role reconciliation** (`EditRoles`). The comma-separated role list is split into a selection. The roles to add are the selection minus the user's current roles. The roles to remove are the current roles minus the selection. Adds go to the identity store first; removals happen only when the add succeeds.
- **Photo moderation** (`ApprovePhoto`, `RejectPhoto`). Each photo has two flags, approved and main. Approval marks the photo approved. It also makes the photo main when none of the owner's photos is main. Rejection clears both flags and promotes no other photo. Both actions end with a unit-of-work commit.
- **The photo repository** (`GetPhotoById`, `GetUnnaprovedPhotos`, `RemovePhoto`). These are a key lookup and a filter that both ignore the approval query filter, plus the removal of one row.

Modules:

- `Results` holds `Option` and `Response` (Ok / BadRequest / NotFound).
- `PhotoRepository` holds the photo row, the queries as functions over the table, and `PhotoStore`, the tracked rows of one request.
- `UnitOfWork` holds the owner lookup and `UnitOfWork`. That class keeps the tracked rows apart from the committed database (`saved`).
- `RoleReconciliation` holds the split of the role list, the two set differences, `Reconcile` (the whole action as a function), and `UserManager`, a role table with a log of the add and remove calls made on it.
- `PhotoModeration` holds `Approve` and `Reject` as functions, the main-photo invariant, and `Serve`, which runs any sequence of moderation requests.
- `AdminController` holds the controller class. Its actions change the stores step by step, in the source's order. Each action's postcondition equates its answer and new state with the matching function.

The identity store's verdicts and the commit's verdict are decided outside this code. They enter as boolean parameters (`addSucceeds`, `removeSucceeds`, `commitSucceeds`).

Three behaviours of the moderation actions are worth stating outright:

- A photo whose owner cannot be resolved is answered with BadRequest "User does not exist". The photo's approval flag has already been changed in the tracked rows by then. The action itself does not commit that change (`Approve`, `RejectOfOrphanMainPhoto`).
- Approval makes the photo main when *no* photo of the owner is main, approved or not. The check does not look only at approved photos.
- Take an owner with two pending photos P1 and P2. Approving P1 makes it main. Approving P2 then leaves P2 not main, because P1 already is. Rejecting P1 afterwards leaves the owner with no main photo at all, since rejection promotes nothing (`ScenarioApproveFirst`, `ScenarioApproveSecond`, `ScenarioRejectFirst`).

## Model

| member | source | states |
|---|---|---|
| RoleReconciliation.IsNullOrEmpty | API/Controllers/AdminController.cs:43 | `string.IsNullOrEmpty` on a query parameter that may be missing; its definition is the contract, and `Reconcile` states what the guard decides |
| RoleReconciliation.RolesToAdd | API/Controllers/AdminController.cs:53 | the roles to add are selected roles the user does not hold, and with the held roles they cover the whole selection |
| RoleReconciliation.RolesToRemove | API/Controllers/AdminController.cs:57 | the roles to remove are held roles that are not selected, and with the selection they cover every held role |
| PhotoModeration.HasMain | API/Controllers/AdminController.cs:97 | `Any(p => p.IsMain)` over every photo of the owner, approved or not; its definition is the contract, and `HasMainIgnoresApproval` states the fact the actions rely on |
| PhotoModeration.HasMainIgnoresApproval | API/Controllers/AdminController.cs:91-97 | changing one row's approval flag, as :91 does before the owner check, leaves every user's main-photo test unchanged |
| RoleReconciliation.Split | API/Controllers/AdminController.cs:45 | splitting on the comma yields at least one part and no part contains a comma |
| RoleReconciliation.JoinSplit | API/Controllers/AdminController.cs:45 | joining the parts of a split with the separator gives back the original role string |
| RoleReconciliation.SplitJoin | API/Controllers/AdminController.cs:45 | splitting a join of comma-free parts gives back exactly those parts, empty ones included |
| RoleReconciliation.SelectedRoles | API/Controllers/AdminController.cs:45 | a non-empty role string selects at least one role, and no selected role contains a comma |
| RoleReconciliation.ReconciliationReachesSelection | API/Controllers/AdminController.cs:53-57 | adding selected-minus-current and then removing current-minus-selected leaves exactly the selection; the two sets are disjoint; a role both held and selected is in neither |
| RoleReconciliation.ReconciliationIsMinimal | API/Controllers/AdminController.cs:53-57 | any add and remove sets that take the current roles to the selection contain the computed ones, so the computed difference is the least change |
| RoleReconciliation.Reconcile | API/Controllers/AdminController.cs:40-62 | a null or empty list gives BadRequest with no store call, even for an unknown user; an unknown user gives NotFound with no change; other users never change; the add call carries selected minus current; a failed add gives BadRequest, changes nothing and makes no remove call; a failed remove gives BadRequest and keeps the added roles; two successful phases leave and return exactly the selection |
| RoleReconciliation.ReconcileIdempotent | API/Controllers/AdminController.cs:53-61 | after a successful reconciliation, the same request adds and removes the empty set, changes no user's roles, and answers the same when both phases succeed |
| RoleReconciliation.ReconcileExample | API/Controllers/AdminController.cs:40-62 | a user holding Member and Moderator who selects "Admin" gets Admin added and both others removed, ends with Admin only, and the other user keeps their roles |
| RoleReconciliation.UserManager.FindByName | API/Controllers/AdminController.cs:47-49 | the user is found exactly when the role table knows the name |
| RoleReconciliation.UserManager.GetRoles | API/Controllers/AdminController.cs:51 | returns the roles the user holds now |
| RoleReconciliation.UserManager.AddToRoles | API/Controllers/AdminController.cs:53-55 | logs the add call; on success the user holds the old roles plus the given ones; on failure nothing changes |
| RoleReconciliation.UserManager.RemoveFromRoles | API/Controllers/AdminController.cs:57-59 | logs the remove call; on success the user holds the old roles minus the given ones; on failure nothing changes |
| AdminController.AdminController.EditRoles | API/Controllers/AdminController.cs:40-62 | the answer, the new role table and the calls appended to the log are those of `Reconcile` on the old role table |
| AdminController.AdminController.GetPhotosForModeration | API/Controllers/AdminController.cs:64-70 | answers Ok with exactly the unapproved photos in the database |
| AdminController.AdminController.ApprovePhoto | API/Controllers/AdminController.cs:82-109 | the answer and tracked rows are those of `Approve`; the database takes the tracked rows exactly when the commit happens; key uniqueness is kept |
| AdminController.AdminController.RejectPhoto | API/Controllers/AdminController.cs:113-140 | the answer and tracked rows are those of `Reject`; the database takes the tracked rows exactly when the commit happens; key uniqueness is kept |
| PhotoModeration.Approve | API/Controllers/AdminController.cs:82-109 | a missing id gives NotFound and no change; an approved photo gives BadRequest and no change; otherwise the photo becomes approved; with no owner it answers BadRequest and leaves the approval in the tracked rows without committing it; with an owner it becomes main exactly when no photo of the owner was main; no other row changes; it commits and answers Ok with id, url, owner name and approved, or BadRequest when the commit fails |
| PhotoModeration.Reject | API/Controllers/AdminController.cs:113-140 | a missing id gives NotFound; an unapproved photo gives BadRequest and no change; with no owner it answers BadRequest and leaves the cleared approval in the tracked rows without committing it; otherwise the photo ends unapproved and not main and no other row changes, so no photo is promoted; it commits and answers Ok, or BadRequest when the commit fails |
| PhotoModeration.ApprovePreservesInvariant | API/Controllers/AdminController.cs:91-98 | approval keeps at most one main photo per user and no unapproved main photo |
| PhotoModeration.RejectPreservesInvariant | API/Controllers/AdminController.cs:121-129 | rejection keeps the invariant on every path except the missing-owner one |
| PhotoModeration.RejectOfOrphanMainPhoto | API/Controllers/AdminController.cs:121-125 | rejecting a main photo whose owner is missing leaves the tracked row unapproved but still main, which breaks the invariant; the action itself does not commit |
| PhotoModeration.ApproveTwiceIsRefused | API/Controllers/AdminController.cs:88 | once an approval has succeeded, approving the same photo again gives BadRequest and changes nothing |
| PhotoModeration.ApproveThenRejectRestores | API/Controllers/AdminController.cs:82-140 | approving a pending photo and then rejecting it, both committed, gives back the original table |
| PhotoModeration.ServePreservesInvariant | API/Controllers/AdminController.cs:82-140 | after any sequence of approvals and rejections, each in a fresh unit of work, the database keeps unique keys, at most one main photo per user, and no unapproved main photo |
| PhotoModeration.ScenarioApproveFirst | API/Controllers/AdminController.cs:91-106 | approving the first of a user's two pending photos makes it approved and main |
| PhotoModeration.ScenarioApproveSecond | API/Controllers/AdminController.cs:91-106 | approving the second photo when the first is main leaves it approved but not main |
| PhotoModeration.ScenarioRejectFirst | API/Controllers/AdminController.cs:121-137 | rejecting the main photo clears both its flags, answers Ok, and leaves the user with no main photo |
| UnitOfWork.GetUserByPhotoId | API/Controllers/AdminController.cs:93-95 | returns a user exactly when the photo exists and its owner key resolves; the result is that owner with their name |
| UnitOfWork.UnitOfWork.Complete | API/Controllers/AdminController.cs:100 | reports the commit's verdict; on success the database takes the tracked rows, otherwise it stays as it was |
| PhotoRepository.GetPhotoById | API/Data/PhotoRepository.cs:20-26 | returns a photo exactly when some row has the key, and that row; with unique keys it is the only such row |
| PhotoRepository.LookupBypassesApprovalFilter | API/Data/PhotoRepository.cs:24 | an unapproved photo is found by its key, while the same lookup through the approval filter misses it |
| PhotoRepository.ApprovedOnly | API/Data/PhotoRepository.cs:31 | the default filter keeps exactly the approved rows |
| PhotoRepository.GetUnapprovedPhotos | API/Data/PhotoRepository.cs:28-35 | every returned photo is an unapproved row, and every unapproved row is returned, including those the default filter hides |
| PhotoRepository.Without | API/Data/PhotoRepository.cs:37-40 | removing a key that is present drops exactly that one row, as a multiset, and keeps every row with another key; with unique keys no row with the removed key remains; a missing key changes nothing |
| PhotoRepository.PhotoStore.RemovePhoto | API/Data/PhotoRepository.cs:37-40 | the tracked rows become `Without` of the old rows for the photo's key: the photo is gone and every other row stays |

## Left out

- `GetUsersWithRoles` (API/Controllers/AdminController.cs:24-37) is left out. It is a database projection to an anonymous type and has no decision logic.
- Authorization policies, HTTP routing, async execution and result wrapping are left out. Answers are the `Response` datatype.
- Two approvals for photos of the same user can race when they run concurrently. The model runs requests one after another (`Serve`), so it does not capture that race.
- UserManager.AddToRoles: role names are compared exactly. The identity store upper-cases each role name before it checks membership, links the stored role, and reports the stored spelling from `GetRolesAsync` (API/Controllers/AdminController.cs:51, :61). The model records the typed spelling instead. For `roles="admin"` with a stored role "Admin", the store holds and reports "Admin", while the model holds and reports "admin".
- Reconcile: the Ok value "exactly the selection" is claimed only for selections spelled the way the roles are stored. With a different case the source answers with the stored spelling (see the `UserManager.AddToRoles` line above).
- ReconcileIdempotent: the repeated request is a no-op only for selections spelled the way the roles are stored. With a different case, the source's second request computes a non-empty add at API/Controllers/AdminController.cs:53. The store refuses it because the user already holds the role, and the request answers BadRequest "Failed to add to roles" at :55.
- `UserManager` internals are not part of this model. `FindByNameAsync` matches normalised names, but the model matches names exactly. The library raises an exception for an unknown role name, but the model folds that into the add phase's verdict. A refused add or remove is assumed to change no role.
- `_uow.Complete()` is an opaque verdict. Its implementation (`IUnitOfWork`, the database context and `SaveChangesAsync`) is not part of this model.
- `GetUserByPhotoId` in the user repository is not part of this model. The owner is modelled as the user whose key the photo row carries, with all of that owner's photos visible to `HasMain`.
- The approval query filter's definition in the database context is not part of this model. `ApprovedOnly` stands for it.
- The AutoMapper projection to `PhotoForApprovalDto` in `GetUnnaprovedPhotos` is left out. The query returns the selected rows, not DTOs.
- `SingleOrDefaultAsync` throws when two rows share a key. The primary-key invariant `UniqueIds` rules that out, and `GetPhotoById` returns the first match.
- Photos are values in the tracked sequence, not shared entity objects, so aliasing between `user.Photos` and the looked-up photo is not modelled. Both see the same tracked rows.
- Discarding the tracked rows at the end of a request is modelled only by `Serve`, where each request starts from the committed database.
- RejectPreservesInvariant: this does not hold on the missing-owner path. There the tracked row can be unapproved yet main. The action itself does not commit it (`RejectOfOrphanMainPhoto`).
- A later save of the same database context is not modelled. `LogUserActivity` (API/Helpers/LogUserActivity.cs:11-22) runs after the action and calls `SaveAllAsync` on the user repository for an authenticated caller. If it shares the request's context, the tracked rows of a missing-owner request are saved too, including a rejected photo that is still main. `Serve` and `ServePreservesInvariant` assume that only the action's own `Complete` changes the database.
- The Angular photo-management component, the loading interceptor, `LogUserActivity` (clock and I/O) and the column-rename migration are left out. They are UI, I/O or schema code.
