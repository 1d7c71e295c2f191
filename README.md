# CeylonRover server side: a verified model of content moderation

CeylonRover is a Laravel API for travel blogs and "travsnaps" (travel photo posts). This
project models its controllers as operations on an in-memory database. The core is the
moderation workflow, which has two approve/reject paths:

- **Supersession** (`TravsnapController`). It inserts a new active moderation record and
  deactivates the record the travsnap's `moderation_id` names. It also releases the
  travsnap's moderator assignments and moves the pointer to the new record.
- **In place** (`TravsnapModerationController`, `BlogModerationController`). It requires a
  pending item. It rewrites the first active record, or creates one when none is active. It
  touches neither the pointer nor the assignments.

Because the two paths coexist, "a travsnap has at most one active moderation record" is not
an invariant of the application. The model proves it under a stated link between pointers
and active records. It proves which operations keep that link, and it exhibits the sequence
(an in-place fallback create, then a supersession) that leaves two active records.

Around the workflow the model covers:
- the moderator-assignment registry, keyed by the pair (content type string, content id);
- e-mail verification by one-time password (OTP);
- registration and the account update;
- the partial profile update and the profile image upload;
- bookmarks, blog highlights and role changes;
- blog creation and the partial blog update.

## Layout

- `wrappers.dfy`: `Option`, and `Param` (a request field that is missing, null or given).
  `Http`: the failure kinds the actions answer (403, 404, 422, 500, ...).
- `text.dfy`: PHP string helpers: `sprintf("%06d")`, `explode`/`implode`, `str_replace`,
  Laravel's blank and `filled` tests.
- `tables.dfy`, `sorting.dfy`, `listings.dfy`: Eloquent queries over a table, namely
  `where`, `first`, `count`, `updateOrCreate`, bulk `update` and `orderBy(..., 'desc')`.
- `schema.dfy`: the rows, and the `Database` class holding every table as a field.
  - Tables that are never deleted from are positional: the row with id `k` sits at
    position `k - 1`.
  - Highlights are deleted, so they carry explicit ids and a next-id counter.
  - Framework services are total functions of an `Env` value: `Hash::make`, `Str::slug`,
    the `email` and `url` rules, and the regex that reads an image type.
- `ledger.dfy`: the moderation-record tables, both approval paths, and the link
  invariant.
- `registry.dfy`: the assignment table.
- `accounts.dfy`: the OTP format, its cache key, the name split, the user-detail upsert
  and the login image choice.
- `TravsnapModeration` and `BlogModeration`, like `SaveTravsnap` and `SaveBlog`, mirror each
  other on purpose: the source has two separate controllers over two row types with their own
  columns, and each is modelled where it stands.
- One file per controller. A controller action is a method on the `Database` whose
  `modifies` clause names exactly the tables the action writes. A query is a function.

Inputs the code reads from outside are parameters:
- the time (`now()`, `time()`);
- the `mt_rand` draw;
- whether the mail was sent;
- the authenticated caller;
- the stored file's path.

## Model

| member | source | states |
|---|---|---|
| TravsnapController.FirstSuperAdmin | app/Http/Controllers/TravsnapController.php:116 | the first user whose role is superAdmin, or none exactly when there is no superAdmin |
| TravsnapController.SavedNamesInjective | app/Http/Controllers/TravsnapController.php:105 | two images of one travsnap saved under different numbers get different paths |
| TravsnapController.ProcessGallery | app/Http/Controllers/TravsnapController.php:101-110 | the gallery loop succeeds exactly when every data:image entry can be saved; the result keeps length and order, the entry at index i becomes the path `img{offset+i+1}`, and other entries are kept verbatim |
| TravsnapController.Store | app/Http/Controllers/TravsnapController.php:72-164 | an invalid request answers 500 with nothing written; otherwise the travsnap is created pending, not featured and active, with one active pending record whose moderator is the first superAdmin or else the creator; `moderation_id` points to that record; an active assignment is created exactly when a superAdmin exists; an image that cannot be saved answers 500 and leaves the new row with an empty gallery and no record; the controller's consistency invariant is preserved |
| TravsnapController.ParseStatus | app/Http/Controllers/TravsnapController.php:177 | only pending, approved and rejected are accepted |
| TravsnapController.Update | app/Http/Controllers/TravsnapController.php:167-225 | absent fields are kept; a non-empty gallery becomes the old gallery followed by the processed entries, numbered after the existing images; status may be set directly; moderation records and assignments are untouched |
| TravsnapController.Destroy | app/Http/Controllers/TravsnapController.php:235-236 | only `is_active` becomes false; an unknown id answers 500 with nothing changed |
| TravsnapController.Featured | app/Http/Controllers/TravsnapController.php:447 | the featured flag is negated and nothing else changes |
| TravsnapController.FeaturedTwice | app/Http/Controllers/TravsnapController.php:447 | toggling twice restores the travsnap |
| TravsnapController.ToggleFeatured | app/Http/Controllers/TravsnapController.php:436-459 | a caller who is not an admin gets 403; otherwise only the featured flag of that travsnap is negated, and the new flag is answered |
| TravsnapController.GetPending | app/Http/Controllers/TravsnapController.php:254-277 | a non-moderator gets 403; a superAdmin gets exactly the pending active travsnaps; an admin gets exactly those with an active travsnap assignment to them; each travsnap is listed once |
| TravsnapController.SupersessionKeepsConsistent | app/Http/Controllers/TravsnapController.php:309-334 | one supersession keeps the pointer link and the single-assignment invariant; afterwards the travsnap has exactly one active record, the new one |
| TravsnapController.Decide | app/Http/Controllers/TravsnapController.php:300-334 | a non-moderator gets 403 with no change; otherwise there is no pending precondition; the new status, the appended record, the deactivated old record, the released assignments and the moved pointer are the whole new state; with the invariant, afterwards there is exactly one active record and no active assignment |
| TravsnapController.Approve | app/Http/Controllers/TravsnapController.php:300-334 | the approval record names the first superAdmin (else the caller), notes default to "Approved by admin", and `published_at` is now |
| TravsnapController.Reject | app/Http/Controllers/TravsnapController.php:357-391 | the notes are required, at most 500 characters, and not blank (otherwise 500, no change); the record names the caller and stores the notes as notes and reason, with `rejected_at` now |
| Ledger.Current | app/Http/Controllers/TravsnapModerationController.php:111-113 | the first active record of the content, or none exactly when it has no active record |
| Ledger.DecideInPlaceCount | app/Http/Controllers/TravsnapModerationController.php:111-131 | the in-place path never adds a second active record: the active count is kept when one existed, and becomes one when none did |
| Ledger.DecideInPlaceOthers | app/Http/Controllers/BlogModerationController.php:104-129 | the in-place path leaves every other content's records unchanged, adds only records of that content, and keeps every other content's active count |
| Ledger.DecideInPlaceCurrent | app/Http/Controllers/TravsnapModerationController.php:111-121 | afterwards the record `first()` finds carries the decided status, moderator, notes and time, and keeps the columns the update does not name |
| Ledger.RejectionDetails | app/Http/Controllers/TravsnapModerationController.php:342-366 | reason, notes and `rejected_at` of the first active rejected record, or '', '' and null when there is none |
| Ledger.RejectInPlaceDetails | app/Http/Controllers/TravsnapModerationController.php:163-190 | after an in-place rejection the rejected-details query reports exactly the decided reason, notes and time |
| Ledger.DeactivateRow | app/Http/Controllers/TravsnapController.php:322-325 | only the row with the given id loses `is_active`; an unknown id changes nothing |
| Ledger.LinkedAtMostOne | app/Http/Controllers/TravsnapController.php:322-334 | under the link between pointers and active records, a travsnap has at most one active record, and that record is the one its `moderation_id` names |
| Ledger.AppendUnlinkedKeepsLink | app/Http/Controllers/TravsnapController.php:86-95 | a new travsnap that points to no record keeps the link |
| Ledger.StoreKeepsLink | app/Http/Controllers/TravsnapController.php:132-151 | a completed store (the row, its first record, the pointer) keeps the link |
| Ledger.EditKeepsLink | app/Http/Controllers/TravsnapController.php:206-212 | rewriting a travsnap's own columns without moving its pointer keeps the link |
| Ledger.SupersedeKeepsLink | app/Http/Controllers/TravsnapController.php:309-334 | supersession keeps the link and leaves exactly one active record, the new one |
| Ledger.DecideInPlaceKeepsLink | app/Http/Controllers/TravsnapModerationController.php:111-121 | the in-place path keeps the link when an active record exists |
| Ledger.FallbackBreaksLink | app/Http/Controllers/TravsnapModerationController.php:122-131 | the fallback create breaks the link: the new active record is not the one `moderation_id` names |
| Ledger.FallbackThenSupersede | app/Http/Controllers/TravsnapModerationController.php:122-131 | a fallback create followed by a supersession leaves two active records for one travsnap |
| Registry.Release | app/Http/Controllers/ModeratorAssignmentController.php:46-49 | exactly the active assignments of the pair lose `is_active`; every other row is kept |
| Registry.ReleaseEmpties | app/Http/Controllers/TravsnapController.php:328-331 | after releasing, the pair has no active assignment and rows of other pairs are unchanged |
| Registry.ReleaseKeepsSingle | app/Http/Controllers/TravsnapController.php:328-331 | releasing keeps at most one active assignment per pair |
| Registry.ReassignSingle | app/Http/Controllers/ModeratorAssignmentController.php:46-57 | after assign the pair has exactly one active assignment, the new one naming the chosen moderator; other pairs are untouched |
| Registry.ReassignKeepsSingle | app/Http/Controllers/ModeratorAssignmentController.php:46-57 | assign keeps at most one active assignment per pair |
| Registry.CreateForNewTravsnapKeepsSingle | app/Http/Controllers/TravsnapController.php:141-148 | store inserts an assignment without releasing first, and this still keeps one active assignment per pair because the travsnap is new |
| Registry.AssignedIds | app/Http/Controllers/ModeratorAssignmentController.php:142-149 | exactly the content ids of the active assignments of one type, as a set (`pluck` may repeat an id; the model's `whereNotIn` use only reads membership) |
| Registry.AssignedTo | app/Http/Controllers/TravsnapController.php:266-269 | exactly the content ids of one moderator's active assignments of one type, as a set (the model's `whereIn` use only reads membership) |
| TravsnapModeration.Decided | app/Http/Controllers/TravsnapModerationController.php:107-108 | the travsnap takes the new status and keeps every other column |
| TravsnapModeration.ApproveTravsnap | app/Http/Controllers/TravsnapModerationController.php:95-141 | a non-pending travsnap is refused with nothing changed; otherwise it becomes approved and the in-place path records the approval (caller, notes default '', `published_at`); pointers, assignments and the active count are unchanged, or become one via the fallback |
| TravsnapModeration.RejectTravsnap | app/Http/Controllers/TravsnapModerationController.php:147-199 | the optional reason of at most 500 characters is checked first (422), then the travsnap must exist (404) and be pending; on success the reason and notes, defaulting to '', and `rejected_at` are recorded in place or by the fallback create |
| TravsnapModeration.Decide | app/Http/Controllers/TravsnapModerationController.php:107-131 | on a pending travsnap, the status changes and the moderation table becomes the in-place update; nothing else changes |
| TravsnapModeration.ApproveTwice | app/Http/Controllers/TravsnapModerationController.php:99-104 | a second approval of the same travsnap is always refused |
| TravsnapModeration.GetPendingTravsnaps | app/Http/Controllers/TravsnapModerationController.php:21-38 | exactly the pending travsnaps, newest first by creation; each listed once |
| TravsnapModeration.GetApprovedTravsnaps | app/Http/Controllers/TravsnapModerationController.php:206-245 | exactly the approved travsnaps, newest first by creation; each listed once |
| TravsnapModeration.GetRejectedTravsnaps | app/Http/Controllers/TravsnapModerationController.php:255-287 | exactly the rejected travsnaps, latest update first, each listed once with the reason of its first active rejected record or '' |
| TravsnapModeration.WithReasons | app/Http/Controllers/TravsnapModerationController.php:270-287 | each listed travsnap, in order, paired with its rejection reason |
| TravsnapModeration.WithReasonsMembers | app/Http/Controllers/TravsnapModerationController.php:270-287 | attaching reasons keeps exactly the listed travsnaps |
| TravsnapModeration.GetPendingTravsnapDetails | app/Http/Controllers/TravsnapModerationController.php:69-79 | the travsnap when it is pending, else 404 |
| TravsnapModeration.GetApprovedTravsnapDetails | app/Http/Controllers/TravsnapModerationController.php:313-323 | the travsnap when it is approved, else 404 |
| TravsnapModeration.GetRejectedTravsnapDetails | app/Http/Controllers/TravsnapModerationController.php:342-366 | the travsnap when it is rejected, with the first active rejected record's reason, notes and time (or '', '' and null); else 404 |
| BlogModeration.Decided | app/Http/Controllers/BlogModerationController.php:104-105 | the blog takes the new status and keeps every other column |
| BlogModeration.ApproveBlog | app/Http/Controllers/BlogModerationController.php:91-138 | a non-pending blog is refused with nothing changed; otherwise it becomes approved and the first active record is rewritten in place, or exactly one approved record is created |
| BlogModeration.RejectBlog | app/Http/Controllers/BlogModerationController.php:141-192 | reason validation (422) comes first, then existence (404) and the pending check; on success the rejection is recorded with reason and notes defaulting to '' |
| BlogModeration.Decide | app/Http/Controllers/BlogModerationController.php:104-129 | on a pending blog, the status changes and the moderation table becomes the in-place update; nothing else changes |
| BlogModeration.ApproveTwice | app/Http/Controllers/BlogModerationController.php:96-101 | a second approval of the same blog is always refused |
| BlogModeration.GetPendingBlogs | app/Http/Controllers/BlogModerationController.php:23-34 | exactly the pending blogs, newest first by creation; each listed once |
| BlogModeration.GetApprovedBlogs | app/Http/Controllers/BlogModerationController.php:199-210 | exactly the approved blogs, newest first by creation; each listed once |
| BlogModeration.GetRejectedBlogs | app/Http/Controllers/BlogModerationController.php:242-268 | exactly the rejected blogs, latest update first, each listed once with its active rejected record's reason or '' |
| BlogModeration.WithReasons | app/Http/Controllers/BlogModerationController.php:255-268 | each listed blog, in order, paired with its rejection reason |
| BlogModeration.WithReasonsMembers | app/Http/Controllers/BlogModerationController.php:255-268 | attaching reasons keeps exactly the listed blogs |
| BlogModeration.GetPendingBlogDetails | app/Http/Controllers/BlogModerationController.php:67-77 | the blog when it is pending, else 404 |
| BlogModeration.GetApprovedBlogDetails | app/Http/Controllers/BlogModerationController.php:293-303 | the blog when it is approved, else 404 |
| BlogModeration.GetRejectedBlogDetails | app/Http/Controllers/BlogModerationController.php:321-345 | the blog when it is rejected, with its rejection details or the defaults; else 404 |
| ModeratorAssignments.Assign | app/Http/Controllers/ModeratorAssignmentController.php:22-57 | a non-superAdmin gets 403; an unknown or non-moderator target, a bad type or missing content fails with nothing changed; otherwise the pair is released and one active assignment naming the moderator is inserted |
| ModeratorAssignments.CollectMembers | app/Http/Controllers/ModeratorAssignmentController.php:97-115 | the collected blogs are exactly the pending blogs some 'blog' assignment names; the collected travsnaps are exactly the pending travsnaps some assignment of another type names |
| ModeratorAssignments.ActiveAssignmentsOf | app/Http/Controllers/ModeratorAssignmentController.php:87-89 | exactly the moderator's active assignments, in table order; a null id matches none |
| ModeratorAssignments.CollectPending | app/Http/Controllers/ModeratorAssignmentController.php:97-115 | the loop's result equals the pending content the specification function collects |
| ModeratorAssignments.AccessAsWritten | app/Http/Controllers/ModeratorAssignmentController.php:79-84 | with the default commented out, a missing id is refused unless the caller is a superAdmin |
| ModeratorAssignments.AccessFor | app/Http/Controllers/ModeratorAssignmentController.php:79-84 | with the intended default, a missing id means the caller's own list, and the caller must be that moderator or a superAdmin |
| ModeratorAssignments.AdminWithoutIdRefused | app/Http/Controllers/ModeratorAssignmentController.php:79-84 | an admin asking for their own list without an id is refused as written and served with the default |
| ModeratorAssignments.GetModeratorAssignments | app/Http/Controllers/ModeratorAssignmentController.php:76-129 | models the corrected default of line 79 (`AccessFor`, see "## Findings"), not the line as written: a missing id means the caller; the caller must be that moderator or a superAdmin (otherwise 403); the answer is the pending content of the moderator's active assignments |
| ModeratorAssignments.GetUnassignedContent | app/Http/Controllers/ModeratorAssignmentController.php:137-159 | superAdmin only; exactly the pending blogs no active 'blog' assignment names, and likewise for travsnaps; each row listed once |
| ModeratorAssignments.GetAvailableModerators | app/Http/Controllers/ModeratorAssignmentController.php:184-191 | superAdmin only; exactly the users whose role is admin or superAdmin, each listed once |
| Accounts.FormatOtp | app/Http/Controllers/EmailVerificationController.php:25 | for a draw in 1..999999, exactly six digits that read back as the draw and are never 000000 |
| Accounts.OtpKeyInjective | app/Http/Controllers/EmailVerificationController.php:29 | different addresses never share a cache entry |
| Accounts.SplitFullNameSound | app/Http/Controllers/EmailVerificationController.php:94-95 | the first name is the text before the first space; first name, a space and last name give the name back; without a space, the last name is '' |
| Accounts.UserByEmail | app/Http/Controllers/EmailVerificationController.php:85 | the first user with the address, or none exactly when no user has it |
| Accounts.Detail | app/Http/Controllers/ProfileController.php:24 | the corrected `$user->detail` (see "## Findings"): the first detail row of the user, or none exactly when there is none |
| Accounts.DetailAsWritten | app/Models/User.php:9-25 | `$user->detail` as written: `User` declares no such relation, so the lookup is null for every user |
| Accounts.UpsertDetailSound | app/Http/Controllers/EmailVerificationController.php:90-103 | the user has a detail row afterwards, carrying the split name, the phone and zeroed counters; the upsert never adds a second one: the user's row count becomes one from zero and is otherwise kept (`user_details.user_id` has no unique index, so the count is not an invariant); no other user's row changes |
| Accounts.LoginImage | app/Http/Controllers/AuthController.php:85-93 | the detail's path when PHP reads it as true, else the user's profile image when it reads as true, else null |
| Accounts.LoginAsWrittenFallback | app/Http/Controllers/AuthController.php:85-93 | as written, login never uses a detail row's image: the answer is the user's own image when PHP reads it as true, else null |
| EmailVerification.SendOtp | app/Http/Controllers/EmailVerificationController.php:16-54 | an invalid address answers 422 with nothing stored; otherwise the formatted draw overwrites the address's entry, and it stays stored when the mail fails (500) |
| EmailVerification.MarkVerified | app/Http/Controllers/EmailVerificationController.php:85-103 | sets `email_verified_at` and upserts the user's detail row |
| EmailVerification.VerifyOtp | app/Http/Controllers/EmailVerificationController.php:59-113 | a missing entry answers "expired" and a mismatch "invalid", both with no change; a match verifies the user, upserts the detail row and forgets the entry |
| EmailVerification.ResendOtp | app/Http/Controllers/EmailVerificationController.php:118-131 | the entry is forgotten and a fresh OTP is stored under the same key |
| EmailVerification.SendThenVerify | tests/Feature/EmailVerificationTest.php:65 | the OTP just sent verifies, and the entry is gone afterwards |
| EmailVerification.VerifyTwice | app/Http/Controllers/EmailVerificationController.php:106 | after a successful verification the same OTP is answered "expired" |
| AuthController.Register | app/Http/Controllers/AuthController.php:14-65 | an invalid request answers 422 with nothing written; otherwise the user is created unverified with role user, and a six-digit OTP is stored under the address's key whatever the mail outcome |
| AuthController.CheckEmailVerification | app/Http/Controllers/AuthController.php:147-155 | verified exactly when `email_verified_at` is set |
| AuthController.VerifyEmail | app/Http/Controllers/AuthController.php:160-223 | an absent OTP, a strict mismatch or an unknown user changes nothing; success verifies the user, forgets the OTP, and upserts the detail row including the profile image path |
| AuthController.UpdateAccount | app/Http/Controllers/AuthController.php:119-143 | name and email are always overwritten and the password hash changes only when a password is filled in; a blank password skips `min:6` and `confirmed`, so such a request succeeds with the hash unchanged; only the caller's row changes, and the address then identifies the caller |
| AuthController.BlankPasswordIgnored | app/Http/Controllers/AuthController.php:124-133 | a blank password is judged as no password at all, whatever the confirmation says |
| ProfileController.GetProfile | app/Http/Controllers/ProfileController.php:19-62 | no caller or no detail row answers a failure (404 for the row); otherwise the user with their detail row |
| ProfileController.GetProfileAsWritten | app/Http/Controllers/ProfileController.php:23-30 | `getProfile` with `$user->detail` read as written: no caller answers 401 |
| ProfileController.ProfileAsWrittenNotFound | app/Http/Controllers/ProfileController.php:24-30 | as written, every authenticated caller gets 404, whatever detail rows exist |
| ProfileController.MergeProfile | app/Http/Controllers/ProfileController.php:103-114 | each of the ten fields takes the request value when given, and keeps the stored one otherwise |
| ProfileController.SameFields | app/Http/Controllers/ProfileController.php:103-114 | row extensionality: two detail rows that agree on the ten profile fields and on every other column are the same row |
| ProfileController.MergeNeverClears | app/Http/Controllers/ProfileController.php:104-113 | a null or missing field never clears the stored value |
| ProfileController.MergeBioOnly | test_partial_update.php:47-60 | supplying only the bio changes only the bio |
| ProfileController.MergeIdempotent | app/Http/Controllers/ProfileController.php:103-114 | applying the same update twice equals applying it once |
| ProfileController.MergeEmpty | test_partial_update.php:24-35 | an update with no fields leaves the row as it is |
| ProfileController.UpdateProfile | app/Http/Controllers/ProfileController.php:70-120 | an invalid request answers 422, and no detail row answers 404, both with nothing written; otherwise only the caller's detail row becomes the merge; a blank field skips its `url` and `max` rules and is stored as sent |
| ProfileController.BlankFieldsValid | app/Http/Controllers/ProfileController.php:75-86 | a request whose every supplied field is blank passes validation |
| ProfileController.RawImageExtension | app/Http/Controllers/ProfileController.php:180-181 | `jpg` for image/jpeg, otherwise the content type without `image/` |
| ProfileController.ClassifyUpload | app/Http/Controllers/ProfileController.php:140-220 | a file upload is checked against the allowed types and the size bound; a raw body needs a whitelisted type (else 422) and at most 2048*1024 bytes (else 422); with neither a file nor a body the answer is 400 |
| ProfileController.UploadPathsBySecond | app/Http/Controllers/ProfileController.php:184 | two uploads get the same path only in the same second |
| ProfileController.UploadProfileImage | app/Http/Controllers/ProfileController.php:127-221 | no detail row answers 404; a refused upload writes nothing; an accepted one sets only the caller's image path |
| BookmarkController.Toggled | app/Http/Controllers/BookmarkController.php:16-21 | the pair is in the result exactly when it was not before; every other pair is kept |
| BookmarkController.ToggleTwice | app/Http/Controllers/BookmarkController.php:16-21 | toggling twice restores the bookmark set |
| BookmarkController.ToggleCommutes | app/Http/Controllers/BookmarkController.php:16-21 | toggles of two bookmarks commute |
| BookmarkController.Toggle | app/Http/Controllers/BookmarkController.php:11-23 | an unknown blog answers 404 with no change, whether or not there is a caller (the lookup comes first); a missing caller then answers the null-user error; otherwise the caller's pair is toggled and the message says "Bookmark removed" or "Bookmark added" |
| BookmarkController.Index | app/Http/Controllers/BookmarkController.php:26-32 | exactly the blogs the caller bookmarked, newest first, each listed once |
| BlogHighlightController.UpsertSound | app/Http/Controllers/BlogHighlightController.php:19-22 | with unique keys before, keys stay unique and the key has exactly one row, active as requested; the row keeps its id or gets the next one |
| BlogHighlightController.UpsertIds | app/Http/Controllers/BlogHighlightController.php:19-22 | the upsert keeps ids valid and uses a new id exactly when it creates a row |
| BlogHighlightController.StoreOrUpdate | app/Http/Controllers/BlogHighlightController.php:10-25 | an invalid request answers 422 with nothing written; otherwise the key's row is updated or created with `is_active` defaulting to true; `is_blog` is never stored |
| BlogHighlightController.DeleteKeepsValid | app/Http/Controllers/BlogHighlightController.php:37 | deleting a row keeps ids valid and keys unique |
| BlogHighlightController.DeleteMembers | app/Http/Controllers/BlogHighlightController.php:37 | deleting removes exactly the row with that id |
| BlogHighlightController.Destroy | app/Http/Controllers/BlogHighlightController.php:34-40 | an unknown id answers 404 with nothing changed; otherwise exactly that row goes and the others keep their order |
| BlogHighlightController.StoreOrUpdateAsWritten | app/Http/Controllers/BlogHighlightController.php:5-22 | as written, a valid request fails with 500 and an invalid one with 422 |
| BlogHighlightController.DestroyAsWritten | app/Http/Controllers/BlogHighlightController.php:36 | as written, every destroy fails with 500 |
| BlogHighlightController.ValidHighlightRefused | app/Http/Controllers/BlogHighlightController.php:5 | as written a valid request is refused, where the intended upsert leaves one highlight for the key |
| AdminUserController.Index | app/Http/Controllers/AdminUserController.php:12 | every user, exactly once, with its id |
| AdminUserController.ParseRole | app/Http/Controllers/AdminUserController.php:17 | exactly "user" and "admin" are accepted, never superAdmin |
| AdminUserController.RoleUpdateAddsNoSuperAdmin | app/Http/Controllers/AdminUserController.php:25-26 | a role change that is not to superAdmin never raises the superAdmin count |
| AdminUserController.UpdateRole | app/Http/Controllers/AdminUserController.php:14-29 | a bad role answers 422 and an unknown id 404, both with no change; otherwise only that user's role changes, and no superAdmin appears |
| BlogController.ParseBlogStatus | app/Http/Controllers/BlogController.php:26 | exactly draft and published are accepted |
| BlogController.NewBlog | app/Http/Controllers/BlogController.php:30-43 | the slug is the slug of the title; additional info and review default to '', location and gallery to []; the status is draft or published; no user id is set |
| BlogController.Store | app/Http/Controllers/BlogController.php:11-51 | an invalid request or a taken slug answers 500 with nothing written; otherwise the new blog is appended; slugs stay unique |
| BlogController.MergeBlog | app/Http/Controllers/BlogController.php:88-101 | column by column: a supplied (present, not null) title, description, additional info, content, categories, location, image, gallery, review or status replaces the stored value, and an absent or null one keeps it; a supplied title recomputes the slug; the status stays, or becomes draft or published; the user id and timestamps are kept |
| BlogController.MergeNoFields | app/Http/Controllers/BlogController.php:88-101 | an update with no fields leaves the blog as it is |
| BlogController.MergeNullKeeps | app/Http/Controllers/BlogController.php:88-101 | for each nullable field on its own (additional info, location, image, gallery, review), a null keeps the stored value, whatever the other fields are |
| BlogController.MergeBlogIdempotent | app/Http/Controllers/BlogController.php:88-101 | applying the same update to its own result changes nothing more |
| BlogController.Update | app/Http/Controllers/BlogController.php:66-109 | an invalid request, an unknown id or a taken slug answers 500 with no change; otherwise the blog becomes the merge; slugs stay unique; a blog never enters pending, approved or rejected here |
| Text.ParseNatToString | app/Http/Controllers/EmailVerificationController.php:25 | a printed number reads back as itself |
| Text.ImplodeExplode | app/Http/Controllers/EmailVerificationController.php:95 | imploding the exploded pieces gives the string back |
| Tables.UpdateOrCreateCount | app/Http/Controllers/BlogHighlightController.php:19-22 | `updateOrCreate` leaves at least one match and never adds a second one |

## Left out

- HTTP shaping: JSON bodies, messages other than the bookmark ones, `Log::` calls and the
  `with('user:...')` projections. Each action answers an outcome or a failure kind.
- File storage: base64 decoding, `Storage::put`, `move` and `file_put_contents`. A saved
  image is represented by its path. A data URL whose type cannot be read makes the save fail.
- Mail delivery and the Blade templates. Whether a mail was sent is a boolean input.
- The 10-minute OTP lifetime. An expired entry is an absent key.
- `mt_rand`, `time()` and `now()` are parameters.
- `createToken` and `Auth::attempt` are not modelled. Login is modelled only through its image
  choice (`Accounts.LoginImage`).
- Concurrency. There are no transactions, and each action is modelled as atomic.
- Seeders, scripts, migrations, routes, the middleware (`CheckTokenExpiry`,
  `EnsureEmailIsVerified`) and `LikeController` are not part of this model.
- The getters `getAllTravsnaps`, `getById`, `getFeatured` and `getUserTravsnaps` of
  `TravsnapController` are not part of this model. Neither are the highlight `index` and
  `BlogController`'s listing actions.
- `ToggleFeatured`: the caller's `is_admin` attribute is an input. That column is dropped by a
  migration, so the model draws no policy from it.
- `EmailVerification.VerifyOtp`: the loose `!=` of `verifyOTP` is modelled as string
  inequality. PHP's loose comparison treats two numeric strings as numbers, so a submitted
  "1234.0" would be accepted for a stored "001234"; the model does not capture that.
- `BlogController.NewBlog`, `BlogController.MergeBlog`, `BlogController.Update`: the array
  columns (categories, location, gallery) are stored as the request gave them. Both `store`
  and `update` call `json_encode` on them, and the model's `array` cast encodes them again, so
  the stored column holds a JSON string rather than the array; the model does not capture
  that double encoding. `author` is not fillable, so it is never stored.
- Laravel's `TrimStrings` and `ConvertEmptyStringsToNull` middleware are not modelled: request
  values reach the controller as sent. A required string must be present, not null and not
  blank. Every other rule (`string`, `max`, `min`, `url`, `confirmed`, `in`) is skipped on a
  blank value, as Laravel's validator skips it, and `??` then stores the blank value as sent.
- `TravsnapController.Update`: a blank `status` skips the `in:` rule, and with the middleware
  off the string column would store `''`. The model's status has only the three values, so it
  answers 500 with no change, which is the source's answer when `ConvertEmptyStringsToNull`
  turns the blank value into null.
- `TravsnapController.Store`: a missing required field and a blank one are treated alike. Both
  fail validation, and inside the try both answer 500.
- `Unauthenticated` stands for the error PHP raises when an action dereferences a null user.
  `BookmarkController.Toggle` looks the blog up first, so an unknown blog answers 404 even
  without a caller.
- `TravsnapModeration.ApproveTravsnap`, `BlogModeration.ApproveBlog`: these controllers check
  no role, and the caller's id is a given user id. An unauthenticated call is not modelled.
- `AdminUserController.UpdateRole`: the controller performs no authorization check, and the
  model adds none.
- `ProfileController.UploadProfileImage`: the file name is the upload second and the
  extension (`UploadPathsBySecond`). Two uploads in the same second with the same extension
  therefore write the same file, whichever user made them.
- `AuthController.Register`: the mail outcome does not affect the result. The model answers
  success once the user and the OTP are stored.
- `TravsnapModeration.GetPendingTravsnaps`: the gallery is always a list in the model, so the
  normalisation of a non-array gallery to `[]` is the identity here.
- Integer widths: ids, sizes and times are unbounded integers. No source arithmetic on them
  wraps in practice.

## Findings

| source | as written | input that shows it | evidently intended | confidence | as-written member | corrected member |
|---|---|---|---|---|---|---|
| app/Http/Controllers/BlogHighlightController.php:5 | the controller imports only `Request` and refers to `BlogHighlight` unqualified, so PHP looks for `App\Http\Controllers\BlogHighlight` and every action that reaches it fails | a valid `storeOrUpdate` for an existing blog, category "featured": 500, no highlight saved | `use App\Models\BlogHighlight;`, so the upsert and the delete run | high (not executed) | BlogHighlightController.StoreOrUpdateAsWritten | BlogHighlightController.StoreOrUpdate |
| app/Http/Controllers/ModeratorAssignmentController.php:79 | the statement that defaults the moderator id to the caller follows a `//` on the same line, so it is part of the comment and a missing id stays null | an admin calling `getModeratorAssignments()` with no id: the loose `!=` between their id and null holds, and they get 403 | a missing id means the caller's own assignments | high (not executed) | ModeratorAssignments.AccessAsWritten | ModeratorAssignments.AccessFor |
| app/Models/User.php:9-25 | `User` declares no `detail` relation, so `$user->detail` is null for every user; `getProfile`, `updateProfile` and `uploadProfileImage` (ProfileController.php lines 24, 95 and 130) take their 404 branch, and `login` always falls back to the user's own image | a verified user with a detail row calling `getProfile()`: 404 "Profile not found" | a `detail()` method returning `hasOne(UserDetail::class)` | high (not executed) | Accounts.DetailAsWritten | Accounts.Detail |
