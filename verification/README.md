# dtadmin-ui data shaping, in Dafny

dtadmin-ui is a React admin console in front of a Keycloak-backed API. Under
its screens sit a few small, deterministic routines that shape data. This
project models those routines as pure Dafny functions over immutable
datatypes and proves what they promise:

- **User editor** (`user-modal.tsx`):
  - `normalizeAttributesForState` resolves the personnel security level from
    the explicit argument or three alias keys, writes it back under the
    aliases, derives `data_levels`, and sanitises every attribute list.
  - The second `buildAttributesPayload` writes the three custom fields in
    three states.
  - `handleRoleToggle` refuses data roles, keeps governance and
    application-admin roles apart, and maintains the list of pending role
    changes.
- **Organisation view** (`org-management.tsx`):
  - `flattenTree` is a pre-order listing with a level and a name path for
    each node.
  - `filterTree` is a keyword prune that keeps every ancestor of a match.
  - A blank search shows the tree unchanged, and the `stats` counters are a
    fold over the listing.
- **Audit centre** (`audit-center.tsx`): the filter over a time window, a
  module and an IP fragment, and the de-duplicated module list.
- **Audit log page** (`audit-log/index.tsx`):
  - the case-insensitive action badge table, with a fallback;
  - the filter form: a date range at second granularity, a module and an IP;
  - the reset button and the module drop-down.
- **Profile field** (`user-profile-field.tsx`):
  - turning the field's value into a list and back;
  - adding and removing values in single- and multi-valued mode;
  - which metadata the predefined options come from, and which options are
    still available.
- **Role editor** (`role-modal.tsx`):
  - the initial form for an existing role and the role-name rule;
  - the attributes sent on create and on edit;
  - the menu checkboxes and the menu-tree rendering, which skips menus with
    no key.
- **User store** (`userStore.ts`):
  - the sign-in adaptation: string role and permission lists become indexed
    records, and a missing avatar becomes the logo;
  - sign-out, which always clears the store.

Modules:
- `Optional` holds `Option` and `Result`.
- `Text` holds the JavaScript string primitives used: `trim`, ASCII case
  conversion, `includes`, `split`, and decimal rendering. `Contains`
  (`includes`) is a predicate defined by an occurrence at some index, so it
  has no row of its own.
- `Seqs` holds `filter`, the insertion-ordered `Array.from(new Set(...))`, and
  the subsequence relation.
- `Governance` holds the unseen governance helpers, as parameters.
- One module per screen: `UserAttributes`, `RoleToggle`, `OrgTree`,
  `AuditCenter`, `AuditLog`, `ProfileField`, `RoleForm` and `UserStore`.

External behaviour enters as parameters and nothing about it is assumed:
- date parsing (`Date`, `dayjs`);
- JSON encoding and decoding of the role's `menuIds`;
- the governance classifiers, the recognised levels and the data-level
  derivation;
- the outcome of the sign-in and logout calls.

## Model

| member | source | states |
|---|---|---|
| UserAttributes.Sanitize | src/pages/management/system/user/user-modal.tsx:169-182 | every entry left in a sanitised list is trimmed and non-empty |
| UserAttributes.SanitizeMembers | src/pages/management/system/user/user-modal.tsx:172-174 | a string is kept exactly when it is the trimmed form of some entry and is not empty |
| UserAttributes.SanitizeKeepsOrder | src/pages/management/system/user/user-modal.tsx:172-174 | the kept entries are a subsequence of the trimmed list, so their order is kept |
| UserAttributes.SanitizeEmpty | src/pages/management/system/user/user-modal.tsx:176-181 | the sanitised list is empty, and the key deleted, exactly when every entry is blank |
| UserAttributes.SanitizeClean | src/pages/management/system/user/user-modal.tsx:169-182 | a list that is already clean is left unchanged |
| UserAttributes.FirstNonEmpty | src/pages/management/system/user/user-modal.tsx:145-151 | the `a \|\| b \|\| c \|\| ""` chain yields the first non-empty string, and yields "" only when all are empty |
| UserAttributes.ArraysOnly | src/pages/management/system/user/user-modal.tsx:138-143 | the copy keeps exactly the array-valued keys, with their lists |
| UserAttributes.ResolveLevel | src/pages/management/system/user/user-modal.tsx:152-154 | a level is resolved exactly when the upper-cased candidate is non-empty and one of the recognised levels, and it is then that candidate |
| UserAttributes.LevelPrecedence | src/pages/management/system/user/user-modal.tsx:145-151 | the candidate is the upper-cased `level` argument if non-empty, else the first entry of `personnel_security_level`, else of `person_security_level`, else of `person_level`, else "" |
| UserAttributes.WithLevel | src/pages/management/system/user/user-modal.tsx:156-167 | a resolved level is written under the three aliases and `data_levels` gets its derivation; otherwise all four keys go; no other key changes |
| UserAttributes.SanitizeAll | src/pages/management/system/user/user-modal.tsx:169-182 | a key survives exactly when its sanitised list is non-empty, and holds that list |
| UserAttributes.Normalize | src/pages/management/system/user/user-modal.tsx:136-187 | the result never holds an empty or unclean list |
| UserAttributes.NormalizeOtherKey | src/pages/management/system/user/user-modal.tsx:138-182 | a key outside the four level keys survives exactly when its input value is an array with a non-blank entry, and then holds that array sanitised |
| UserAttributes.NormalizeUnrecognisedLevel | src/pages/management/system/user/user-modal.tsx:162-167 | with no recognised level, none of the four level keys is in the result |
| UserAttributes.NormalizeRecognisedLevel | src/pages/management/system/user/user-modal.tsx:156-161 | with a recognised level, each alias holds the trimmed level (or is absent if that is blank) and `data_levels` holds the sanitised derivation |
| UserAttributes.NormalizeIdempotent | src/pages/management/system/user/user-modal.tsx:136-187 | normalising a normalised bag again with the same `level` argument returns it unchanged, given a non-empty argument or trimmed recognised levels |
| UserAttributes.ResolveLevelStable | src/pages/management/system/user/user-modal.tsx:145-154 | the second pass resolves the same level as the first |
| UserAttributes.RecognisedLevelStable | src/pages/management/system/user/user-modal.tsx:147-161 | a level read from the bag is found again under `personnel_security_level` after normalising |
| UserAttributes.ApplyCustom | src/pages/management/system/user/user-modal.tsx:374-383 | a non-empty value gives `[value]`, an empty value with a non-blank original gives `[]`, otherwise the key is deleted; no other key changes |
| UserAttributes.ApplyThree | src/pages/management/system/user/user-modal.tsx:374-385 | three fields with different keys each end in their own state, and every other key is as before |
| UserAttributes.BuildAttributesPayload | src/pages/management/system/user/user-modal.tsx:349-386 | the personnel level as entered and the trimmed department and position each follow the three-state rule; every other attribute is copied |
| RoleToggle.Toggle | src/pages/management/system/user/user-modal.tsx:560-599 | a data role is refused; an application-admin role is refused while a governance role is held, and the reverse; a refusal changes nothing; an accepted toggle flips only the toggled id and ends the change list with its remove or add |
| RoleToggle.ToggleKeepsOtherChanges | src/pages/management/system/user/user-modal.tsx:583-597 | an accepted toggle keeps every pending change of the other roles, in order, so the save still sends them |
| RoleToggle.ToggleReplacesOwnChange | src/pages/management/system/user/user-modal.tsx:583-597 | from a consistent state, the change list after a toggle is the other roles' old changes in order, then the new change: the toggled role's one pending change is the one cancelled |
| RoleToggle.HoldsAfterRemove | src/pages/management/system/user/user-modal.tsx:580-581 | removing by id drops that id and keeps every other held id |
| RoleToggle.HoldsAfterAdd | src/pages/management/system/user/user-modal.tsx:589-590 | appending a role adds its id and nothing else |
| RoleToggle.InitialConsistent | src/pages/management/system/user/user-modal.tsx:90-94 | a state holding roles with distinct ids and no pending change is consistent, as the editor's state is once the user's roles have loaded and before any toggle |
| RoleToggle.ToggleConsistent | src/pages/management/system/user/user-modal.tsx:580-598 | every toggle keeps role ids distinct, at most one pending change per id, and that change an add exactly when the role is held |
| RoleToggle.KeptChanges | src/pages/management/system/user/user-modal.tsx:584-594 | filtering the old changes leaves none for the toggled id and keeps the add-iff-held link for the rest |
| RoleToggle.ChangesAfterToggle | src/pages/management/system/user/user-modal.tsx:583-597 | appending the new change to the kept ones keeps change ids distinct |
| RoleToggle.ToggleExclusive | src/pages/management/system/user/user-modal.tsx:568-577 | a toggle never leaves the user holding a governance and an application-admin role together, unless the toggled role counts as both |
| RoleToggle.ToggleTwiceRestoresHoldings | src/pages/management/system/user/user-modal.tsx:580-598 | toggling a role twice, both accepted, restores which ids are held |
| OrgTree.FlattenPlaces | src/admin/views/org-management.tsx:120-130 | with the node behind each entry listed in pre-order: root `i` sits after the subtrees of its elder siblings, at the starting level, with the given path and its own name; child `k` of the node at entry `j` sits after that entry and the subtrees of its elder siblings, at level `r[j].level + 1`, with path `r[j].path` and its own name |
| OrgTree.FlattenLevels | src/admin/views/org-management.tsx:120-126 | every entry sits at or below the starting level, and its path is the given path followed by one name per level below the start, ending in its own name |
| OrgTree.FlattenPreOrder | src/admin/views/org-management.tsx:120-130 | the listed nodes are exactly the forest in pre-order |
| OrgTree.FlattenParentFirst | src/admin/views/org-management.tsx:123-126 | every non-root entry has, earlier in the listing, an entry one level up whose path its own path extends by its own name |
| OrgTree.FlattenTree | src/admin/views/org-management.tsx:120-130 | from the top-level call, one entry per node; every entry has level at least 1 and a path as long as its level; roots sit at level 1 under the empty path, and every child one level below its parent with the parent's path and its own name |
| OrgTree.MatchNode | src/admin/views/org-management.tsx:133-143 | a kept node keeps its own fields |
| OrgTree.FilterForest | src/admin/views/org-management.tsx:144-146 | the filtered forest is no longer than the input |
| OrgTree.MatchNodeSpec | src/admin/views/org-management.tsx:133-143 | `matchNode` returns the pruned node exactly when the node or some descendant hits the keyword, and null otherwise |
| OrgTree.FilterForestSpec | src/admin/views/org-management.tsx:132-147 | `filterTree` equals the reference pruning: the relevant nodes in sibling order, each with its children pruned the same way |
| OrgTree.FilterPreOrderSubseq | src/admin/views/org-management.tsx:138-146 | the pruned forest's pre-order is a subsequence of the original's: order kept, nothing invented |
| OrgTree.FilterEmptyKeyword | src/admin/views/org-management.tsx:134-143 | the empty keyword keeps the whole forest |
| OrgTree.FilteredTree | src/admin/views/org-management.tsx:23-27 | a blank search shows the tree itself; otherwise the trimmed, lower-cased search prunes it as the reference does |
| OrgTree.FlattenCounts | src/admin/views/org-management.tsx:35-37 | summing member counts and counting sensitive entries over the listing equals the same folds over the tree |
| OrgTree.ComputeStats | src/admin/views/org-management.tsx:34-39 | the counters computed over the listing are the node count, the member total with a missing count as 0, and the number of SECRET or TOP_SECRET nodes, each folded over the tree itself |
| AuditCenter.Bound | src/admin/views/audit-center.tsx:237-240 | a bound exists exactly when the field is set, non-empty and parses |
| AuditCenter.ActiveText | src/admin/views/audit-center.tsx:241-242 | a module or IP filter is active exactly when its text is not blank |
| AuditCenter.FilteredLogs | src/admin/views/audit-center.tsx:244-259 | the result is an order-preserving subsequence of the entries that holds every copy of each entry the callback keeps and no copy of any other |
| AuditCenter.FilteredLogsSpec | src/admin/views/audit-center.tsx:236-260 | an entry is shown exactly when it lies in the inclusive window (an unparsable timestamp passes), its module equals the trimmed filter if any, and its IP contains the trimmed fragment if any |
| AuditCenter.EmptyFiltersShowAll | src/admin/views/audit-center.tsx:237-242 | with no bound and blank module and IP, every entry is shown in order |
| AuditCenter.ModuleOptions | src/admin/views/audit-center.tsx:232-234 | every module once, nothing else, in order of first appearance |
| AuditLog.ResolveActionMeta | src/pages/management/system/audit-log/index.tsx:35-41 | a known upper-cased action gets a table entry; an unknown one gets its own spelling and the `default` colour |
| AuditLog.ActionTableReachable | src/pages/management/system/audit-log/index.tsx:22-41 | every entry of the ten-entry table is reached by its own name |
| AuditLog.ResolveCaseInsensitive | src/pages/management/system/audit-log/index.tsx:35-38 | two spellings of a known action that agree when upper-cased resolve to the same entry |
| AuditLog.ResolveLowered | src/pages/management/system/audit-log/index.tsx:35-41 | lower-casing a known action does not change its badge; an unknown one keeps the spelling given |
| AuditLog.SecondGranularity | src/pages/management/system/audit-log/index.tsx:69-70 | `isSame(…, 'second') \|\| isAfter` and `isSame \|\| isBefore` amount to comparing whole seconds, both ends inclusive |
| AuditLog.ApplyFilters | src/pages/management/system/audit-log/index.tsx:59-88 | the result is an order-preserving subsequence of the logs that holds every copy of each log passing the three tests that are switched on, and no copy of any other |
| AuditLog.ApplyFiltersSpec | src/pages/management/system/audit-log/index.tsx:62-83 | a log is shown exactly when its date is valid and within every set end (whole seconds, inclusive), its module equals a set module, and its IP contains a non-blank trimmed IP filter |
| AuditLog.ResetShowsAll | src/pages/management/system/audit-log/index.tsx:108-111 | the reset's empty filters show the whole log |
| AuditLog.ModuleOptions | src/pages/management/system/audit-log/index.tsx:50-57 | one option per distinct module, label equal to value, every module present, no value twice, in order of first appearance |
| ProfileField.ValueArray | src/pages/management/system/user/user-profile-field.tsx:17-25 | an array as it is, a non-empty string as a one-element list, anything else as the empty list |
| ProfileField.Emitted | src/pages/management/system/user/user-profile-field.tsx:35-42 | a multivalued field emits the list; a single-valued one its first value or "" |
| ProfileField.EmittedRoundTrip | src/pages/management/system/user/user-profile-field.tsx:17-42 | what is emitted reads back as the same list, when a single-valued field holds at most one non-empty value |
| ProfileField.AddValue | src/pages/management/system/user/user-profile-field.tsx:78-88 | multivalued: append only an absent option, else nothing happens; single-valued: the list becomes `[option]` |
| ProfileField.AddKeepsDistinct | src/pages/management/system/user/user-profile-field.tsx:79-83 | adding keeps a repeat-free multivalued list repeat-free and puts the option in it |
| ProfileField.RemoveValue | src/pages/management/system/user/user-profile-field.tsx:91-100 | multivalued: every copy of the option goes, every copy of every other value stays, in order; single-valued: the list is cleared |
| ProfileField.AddThenRemove | src/pages/management/system/user/user-profile-field.tsx:78-100 | adding an absent option and removing it again restores the list |
| ProfileField.SplitOptions | src/pages/management/system/user/user-profile-field.tsx:61-63 | one trimmed piece per comma-separated part |
| ProfileField.PredefinedOptions | src/pages/management/system/user/user-profile-field.tsx:45-75 | options come from `validations.options.options`, else an `inputOptions` array, else a non-empty `inputOptions` string split and trimmed, else `inputOptions.values`, else nothing |
| ProfileField.AvailableOptions | src/pages/management/system/user/user-profile-field.tsx:103-111 | exactly the predefined options not chosen, every copy of them, in predefined order; none when nothing is predefined |
| ProfileField.AddShrinksAvailable | src/pages/management/system/user/user-profile-field.tsx:103-111 | choosing an available option removes just that one from the available options |
| RoleForm.StoredMenus | src/pages/management/system/role/role-modal.tsx:59-74 | the saved selection is repeat-free and holds exactly the elements of the stored array, ordered by where each first appears, or nothing when the attribute is missing, empty, unparsable or not an array |
| RoleForm.InitForm | src/pages/management/system/role/role-modal.tsx:51-85 | editing a role shows its name, its description or "", its composite flag or false, its level or DATA_INTERNAL, and its saved menus; otherwise the empty form |
| RoleForm.InitFormDefaults | src/pages/management/system/role/role-modal.tsx:57-74 | a missing level shows DATA_INTERNAL; missing, unparsable or non-array menus show no selection |
| RoleForm.ValidateName | src/pages/management/system/role/role-modal.tsx:103-112 | a blank name is refused first; otherwise the name is refused exactly when some character is outside `[A-Za-z0-9_-]`; it is accepted exactly when non-empty and all characters are allowed |
| RoleForm.AcceptedNameIsTrimmed | src/pages/management/system/role/role-modal.tsx:103-112 | an accepted name is its own trim |
| RoleForm.BaseAttributes | src/pages/management/system/role/role-modal.tsx:118-124 | the level always, `menuIds` exactly when a menu is selected, holding the encoded selection, and no other key |
| RoleForm.EditAttributes | src/pages/management/system/role/role-modal.tsx:136-144 | the level overwritten, `menuIds` set when a menu is selected and deleted otherwise, every other existing attribute kept |
| RoleForm.Submit | src/pages/management/system/role/role-modal.tsx:102-155 | a refused name makes no request; create sends the base attributes; edit sends the merged attributes to the role's own name, and no request at all when there is no role or its name is empty |
| RoleForm.SaveThenReopen | src/pages/management/system/role/role-modal.tsx:136-144 | for a JSON pair that reads back what it writes, reopening a saved role shows the saved level and exactly the saved menu selection |
| RoleForm.SetChecked | src/pages/management/system/role/role-modal.tsx:177-185 | checking makes the id present and unchecking absent; every other id is as before; checking leaves a selected id's list as it was and appends an unselected id at the end; unchecking only deletes |
| RoleForm.SetCheckedKeepsDistinct | src/pages/management/system/role/role-modal.tsx:177-185 | checkbox edits keep the selection repeat-free, as a `Set` is |
| RoleForm.CheckThenUncheck | src/pages/management/system/role/role-modal.tsx:177-185 | checking an unselected menu and unchecking it restores the selection |
| RoleForm.Key | src/pages/management/system/role/role-modal.tsx:168-169 | the key is a non-empty id, else a non-empty code, and is absent exactly when neither exists |
| RoleForm.BuildNodes | src/pages/management/system/role/role-modal.tsx:167-170 | every row has a non-empty `id \|\| code` key and is ticked exactly when that key is selected; rows sit at or below the starting depth, the first at it |
| RoleForm.BuildNodesRendersShown | src/pages/management/system/role/role-modal.tsx:166-196 | the rows are exactly the shown menus of the reference listing, in pre-order, with key, name, depth and tick: a menu is shown when it and every menu above it has a key, so a keyless menu hides its whole subtree, and a child sits one level deeper than its parent |
| RoleForm.RenderKeepsPreOrder | src/pages/management/system/role/role-modal.tsx:166-196 | the rendered rows, as key and name, are a subsequence of the menus in pre-order: nothing invented, order kept |
| RoleForm.RenderAllKeyed | src/pages/management/system/role/role-modal.tsx:166-196 | when every menu has a key, every menu is rendered once, in pre-order, each child one level deeper than its parent |
| UserStore.Adapt | src/store/userStore.ts:70-77 | a non-empty array starting with a string becomes records of equal length with id prefix + index and name = code = element; anything else passes through |
| UserStore.AdaptRecoversList | src/store/userStore.ts:70-86 | the records' names give back the server's list |
| UserStore.AdaptIdsDistinct | src/store/userStore.ts:72-76 | the record ids are pairwise different |
| UserStore.Avatar | src/store/userStore.ts:88 | a non-empty avatar is kept, otherwise `/logo.svg`; never empty |
| UserStore.AvatarStable | src/store/userStore.ts:88 | a stored avatar is kept by a later sign-in |
| UserStore.AdaptUser | src/store/userStore.ts:67-89 | other fields copied, roles adapted with `role-`, permissions with `permission-`, avatar defaulted |
| UserStore.SignIn | src/store/userStore.ts:61-99 | success stores the token pair and the adapted user; failure passes the error on |
| UserStore.Clear | src/store/userStore.ts:32-34 | both user and token become empty |
| UserStore.SignOut | src/store/userStore.ts:104-121 | the store is always cleared, whatever the logout call does; logout is called exactly when the captured refresh token is non-empty, and with that token |
| UserStore.SignInThenSignOut | src/store/userStore.ts:104-121 | signing out after a sign-in leaves no user and no token |
| Text.Trim | src/pages/management/system/user/user-modal.tsx:172-174 | the result is a piece of the input with only white space cut from both ends, and neither end of it is white space |
| Text.TrimIdempotent | src/pages/management/system/user/user-modal.tsx:172-174 | trimming twice is trimming once |
| Text.BlankIffAllSpace | src/pages/management/system/role/role-modal.tsx:103 | `!s.trim()` holds exactly when every character is white space |
| Text.NatToStringRoundTrip | src/store/userStore.ts:73 | the decimal text of an index reads back as the index |
| Text.NatToStringInjective | src/store/userStore.ts:73 | different indices give different decimal texts |
| Seqs.Distinct | src/admin/views/audit-center.tsx:233 | `Array.from(new Set(xs))`: every value once, nothing else, ordered by first appearance |
| Seqs.FilterConcat | src/admin/views/org-management.tsx:37 | filtering distributes over concatenation |
| Seqs.Filter | src/pages/management/system/user/user-profile-field.tsx:94 | `xs.filter(p)`: a value is in the result exactly when it is in the input and passes the test |
| Seqs.FilterMultiset | src/admin/views/audit-center.tsx:244 | a filter keeps every copy of a passing value and no copy of a failing one |
| Text.Upper | src/pages/management/system/audit-log/index.tsx:36 | `toUpperCase` on ASCII: same length, each lower-case letter replaced by its capital, every other character kept |
| Text.Lower | src/admin/views/org-management.tsx:25 | `toLowerCase` on ASCII: same length, each capital replaced by its lower-case letter, every other character kept |
| Text.Split | src/pages/management/system/user/user-profile-field.tsx:62 | `split(",")`: at least one piece, no piece holds the separator, and joining the pieces with it gives the string back |

## Left out

- JSX rendering, dialogs, toasts, widgets and the React hook plumbing: state updates are modelled as functions over explicit state records.
- The remote services (Keycloak services, `menuService`, `adminApi`, `userService.signin` and `logout`), react-query, zustand `persist` and `localStorage`: they are I/O. Their outcomes are parameters (`SignInResponse`, `logoutFails`).
- `Date` and `dayjs` parsing: they are parameters returning epoch milliseconds, or `None` for an invalid date. Date formatting and the table sorter are not modelled.
- `JSON.parse` and `JSON.stringify` of the role's `menuIds`: they are an encode/decode parameter pair. `parsed.map(String)` is folded into the decoder's result, which holds strings.
- `@/constants/governance` is not part of this model. `PERSON_SECURITY_LEVELS`, `deriveDataLevels` and the three role classifiers are fields of a `Governance` record. Nothing is assumed about them.
- The `MenuTree` type file is not part of this model. `Menu` holds the four fields `buildNodes` reads.
- `toUpperCase` and `toLowerCase` are modelled on ASCII letters only. Unicode case mapping is not.
- `hasUserInfoChanged` is not modelled. It depends on `JSON.stringify` key order.
- The required-field message template is not modelled.
- The first `buildAttributesPayload` and the other conflicting duplicates in `user-modal.tsx` are not modelled, being unresolved merge residue.
- `updateSingleValueAttribute` is not modelled.
- The sample audit arrays and mock data are fixtures, and the login page, navigation data and brand component are pure UI.
- The organisation view's `selected` lookup by id and the display-only node fields (description, security domains, level badge) are not modelled.
- Non-string items inside attribute arrays are not modelled: the attribute type declares `string[]`. In `signIn`, an element after the first that is not a string is carried as an opaque `OtherElem`.
- `AuditLog.ActionTableReachable` does not state that the table has exactly ten entries. The ten entries are written out in `ActionTable`.
- RoleToggle.ToggleExclusive: requires that the toggled role is not both a governance and an application-admin role. The two refusal checks cannot catch such a role, and the classifiers are unknown.
- UserAttributes.NormalizeIdempotent: requires a non-empty `level` argument or trimmed recognised levels. Without that, a level read from the bag is stored trimmed and can resolve differently on a second pass.
- RoleToggle.ToggleConsistent: the asynchronous role load (`loadUserRoles`, user-modal.tsx:237-247 and 301-306) is not modelled. It overwrites the held roles and keeps the pending changes. A toggle made before the load completes, or a failed load that keeps the previous user's roles, can leave a pending change that the loaded roles contradict. Consistency is proved only from a state reached after the load.
- OrgTree.Members: member counts are integers. A JavaScript number that is fractional or `NaN` is not modelled; `|| 0` would send `NaN` to 0.
- UserStore.SignOut: `logoutFails` is carried only to show that it does not matter. The error log of a failing logout is not modelled.
- ProfileField.PredefinedOptions: metadata values are modelled as booleans, numbers, strings, string arrays and records. Arrays of non-strings are not modelled.
