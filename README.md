# Unchecked-product queue and talk access, modelled in Dafny

This project models two controllers of a coding-bootcamp community web
application:

- the staff API that lists submitted products nobody has checked yet
  (`API::Products::UncheckedController#index`), and
- the private consultation threads between a user and the staff
  (`TalksController`, actions `show` and `index`).

The product queue is pure data shaping, so it is modelled with functions
over sequences:

- the `target` parameter is normalised against a two-entry allow-list;
- a `case` on the normalised target picks one of two queries over an
  abstract product catalogue;
- the page of products found is grouped by elapsed days, capped at 7.
  Only the first product of each group is kept.

Ruby's insertion-ordered `Hash` is modelled as a key sequence plus a map,
so the order of the summary keys is part of the model.

The talks controller runs a chain of before-actions. Each one sets an
instance variable or halts the request. It is modelled as a class whose
fields are `@talk`, `@user`, `@members`, `@target` and the response.
Each filter is a method that updates those fields. The decisions inside
the filters are pure functions, and the properties are lemmas about them:

- who may see a talk;
- which user the page is about;
- who the members are, and in what order.

Files:

- `wrappers.dfy`: `Option`, standing for Ruby's `nil`.
- `collections.dfy`: `Filter`, `Find` and an insertion sort `SortBy`. These
  stand for the ORM's `where`, `find` and `order`.
- `targets.dfy`: the allow-list-with-fallback rule both controllers share.
- `unchecked_products.dfy`: the unchecked-products `index` action.
- `talks.dfy`: the talks controller.

## Model

| member | source | states |
|---|---|---|
| UncheckedProducts.TargetAllowlist | app/controllers/api/products/unchecked_controller.rb:29-31 | the allow-list holds exactly `unchecked_all` and `unchecked_no_replied` |
| UncheckedProducts.NormalizeTarget | app/controllers/api/products/unchecked_controller.rb:6-7 | the effective target is always one of the two queue names; an allow-listed value is kept; nil or any other value becomes `unchecked_all` |
| UncheckedProducts.NormalizeTargetIdempotent | app/controllers/api/products/unchecked_controller.rb:7 | normalising an effective target again leaves it unchanged |
| Targets.Normalize | app/controllers/talks_controller.rb:12-13 | the shared rule: a listed raw value is kept, anything else (nil included) becomes the fallback |
| UncheckedProducts.Select | app/controllers/api/products/unchecked_controller.rb:8-21 | the `case` yields products exactly when the target is allow-listed (nil otherwise), so it is total over normalised targets; `unchecked_all` yields the window's page of the `unchecked_all` queue and `unchecked_no_replied` the window's page of the no-reply queue; every product returned is in the catalogue, unchecked and not WIP; `unchecked_all` comes back ordered by submission date then id; `unchecked_no_replied` returns only products the store relates to the current reviewer |
| UncheckedProducts.NoRepliedQueueKeepsOrder | app/controllers/api/products/unchecked_controller.rb:15-19 | the no-reply query keeps catalogue order: the queue of a catalogue split in two is the first part's queue followed by the second's, and a single product is kept exactly when it qualifies |
| UncheckedProducts.AllQueue | app/controllers/api/products/unchecked_controller.rb:9-13 | before paging, `unchecked_all` holds exactly the unchecked, non-WIP products, each as often as in the catalogue, in ascending (date, id) order |
| UncheckedProducts.NoRepliedQueue | app/controllers/api/products/unchecked_controller.rb:15-19 | before paging, `unchecked_no_replied` holds exactly the unchecked, non-WIP products that the no-reply scope relates to the reviewer's id |
| UncheckedProducts.Page | app/controllers/api/products/unchecked_controller.rb:14 | the page is the run of the result that starts at the window offset; its length is the limit, or whatever remains after the offset when that is less |
| UncheckedProducts.SelectAllComplete | app/controllers/api/products/unchecked_controller.rb:9-14 | with a window covering everything, `unchecked_all` returns every waiting product and nothing else |
| UncheckedProducts.NoRepliedIsPerReviewer | app/controllers/api/products/unchecked_controller.rb:16 | the no-reply queue depends on the reviewer: a product related to reviewer a but not to reviewer b is on a's page when the window covers the catalogue, and on none of b's pages for any window |
| UncheckedProducts.ElapsedBucket | app/controllers/api/products/unchecked_controller.rb:23 | the bucket is `elapsed_days` when that is at most 7, and 7 when it is 7 or more |
| UncheckedProducts.GroupByBucket | app/controllers/api/products/unchecked_controller.rb:22-23 | `group_by` keys are the distinct buckets of the page in first-occurrence order; each key's group is exactly that bucket's products, in list order |
| UncheckedProducts.DistinctBucketsPresent | app/controllers/api/products/unchecked_controller.rb:23 | a bucket is a key exactly when some product of the page falls in it; there are never more keys than products |
| UncheckedProducts.DistinctBucketsOrdered | app/controllers/api/products/unchecked_controller.rb:23 | keys come in the order of their first products |
| UncheckedProducts.TransformFirst | app/controllers/api/products/unchecked_controller.rb:24 | `transform_values(&:first)` keeps the keys and their order, and each value becomes the first element of its group |
| UncheckedProducts.SubmittedSummary | app/controllers/api/products/unchecked_controller.rb:22-24 | the summary's keys and entries match, and each entry is a product of the page whose bucket is its key |
| UncheckedProducts.SubmittedSummaryFirstPerBucket | app/controllers/api/products/unchecked_controller.rb:22-24 | the summary has one entry per bucket present and no other; keys are distinct and in first-occurrence order; entries never outnumber products; each value is the first product in list order whose bucket is the key |
| UncheckedProducts.SubmittedSummaryKeys | app/controllers/api/products/unchecked_controller.rb:23 | every summary key is at most 7 and is the capped elapsed days of some product on the page |
| UncheckedProducts.Index | app/controllers/api/products/unchecked_controller.rb:5-25 | the whole action: the target is the normalised request target, so one of the two queue names; the products are exactly what the `case` selects for that target, the reviewer and the window; every product is a waiting catalogue product; the page respects the window limit; the summary is taken from that page |
| UncheckedProducts.SortedSummaryKeepsEarliest | app/controllers/api/products/unchecked_controller.rb:22-24 | on a page sorted by submission, the product kept for a bucket was submitted no later than any other product of the page in that bucket |
| UncheckedProducts.IndexAllSummaryKeepsEarliest | app/controllers/api/products/unchecked_controller.rb:9-24 | for `unchecked_all`, each summary entry is the earliest-submitted product of the page in its bucket |
| Collections.Filter | app/controllers/api/products/unchecked_controller.rb:10-11 | a filtered result holds each input element that passes the test exactly as often as the input does, and no other element |
| Collections.FilterConcat | app/controllers/api/products/unchecked_controller.rb:10-11 | filtering keeps the original order: filtering a concatenation filters each part and concatenates the results |
| Collections.Find | app/controllers/talks_controller.rb:27 | the result is the first element that passes the test; there is none exactly when no element passes |
| Collections.SortBy | app/controllers/api/products/unchecked_controller.rb:13 | ordering returns a permutation of its input, sorted by the given total preorder |
| Collections.InsertBySorted | app/controllers/talks_controller.rb:37 | inserting into a sorted sequence keeps it sorted, which is the step of the ordering proof |
| Talks.FindTalk | app/controllers/talks_controller.rb:26-28 | `Talk.find` returns a stored talk with the requested id; it finds nothing exactly when no talk has that id |
| Talks.OwnerOf | app/controllers/talks_controller.rb:31 | `@talk.user` is the stored user whose id is the talk's `user_id`; it is nil exactly when there is none |
| Talks.TalkOf | app/controllers/talks_controller.rb:23 | `current_user.talk` is a stored talk owned by that user |
| Talks.MayShowIffOwnerIsViewer | app/controllers/talks_controller.rb:21 | for a stored viewer, the id test of `MayShow` is the same as "admin, or the talk's owner record is the viewer" |
| Talks.DisplayedUser | app/controllers/talks_controller.rb:30-32 | an admin is shown the talk's owner; anyone else is shown themself |
| Talks.DisplayedUserIsOwnerWhenShown | app/controllers/talks_controller.rb:20-32 | whenever the page may be shown, the displayed user is the talk's owner; a non-admin who may see it is that owner |
| Talks.AdminIds | app/controllers/talks_controller.rb:36 | `User.admins.ids` holds exactly the ids of admin users |
| Talks.MemberIds | app/controllers/talks_controller.rb:36 | the member ids are the admins' ids plus the owner's id |
| Talks.Members | app/controllers/talks_controller.rb:34-38 | `@members` is the users whose id is a member id, ordered by id, each drawn from the users table |
| Talks.MembersAreAdminsAndOwner | app/controllers/talks_controller.rb:35-36 | the member list contains every admin and the talk owner and nobody else |
| Talks.MembersStrictlyAscending | app/controllers/talks_controller.rb:36-37 | member ids strictly ascend, so nobody is listed twice even when the owner is an admin |
| Talks.ShowResponse | app/controllers/talks_controller.rb:4-24 | the outcome of `show` is never the admin rejection; it is the login redirect exactly without a login; it is not-found exactly for a logged-in viewer and an unknown id; a redirect always goes to the viewer's own talk; a rendered page means the talk exists and the viewer may see it |
| Talks.ShowRenderedIffAdminOrOwner | app/controllers/talks_controller.rb:20-24 | for a logged-in viewer and an existing talk, the page renders exactly when the viewer is an admin or the talk's owner; otherwise the viewer is redirected to their own talk, which is never the requested one |
| Talks.IndexTarget | app/controllers/talks_controller.rb:11-14 | the index target is the raw value when that is listed in `TARGETS`, otherwise `all` |
| Talks.IndexTargetIdempotent | app/controllers/talks_controller.rb:13 | when `all` is in `TARGETS`, the effective target is listed, and normalising it again changes nothing |
| Talks.TalksController.RequireLogin | app/controllers/talks_controller.rb:4 | halts with a login redirect exactly when nobody is logged in |
| Talks.TalksController.RequireAdminLogin | app/controllers/talks_controller.rb:5 | halts unless an admin is logged in |
| Talks.TalksController.SetTalk | app/controllers/talks_controller.rb:26-28 | `@talk` is the found talk; a missing talk halts with not-found |
| Talks.TalksController.SetUser | app/controllers/talks_controller.rb:30-32 | `@user` is the owner for an admin viewer and the viewer otherwise |
| Talks.TalksController.SetMembers | app/controllers/talks_controller.rb:34-38 | `@members` is the admins-plus-owner list ordered by id |
| Talks.TalksController.AllowShowTalkPageOnlyAdmin | app/controllers/talks_controller.rb:20-24 | the response is left alone for an admin or the owner; anyone else is redirected to their own talk |
| Talks.TalksController.Show | app/controllers/talks_controller.rb:4-16 | the chain runs in order and stops at the first response. The outcome is the login redirect, not-found, the redirect or the rendered page. Nothing is loaded without a login. `@user` and `@members` are computed before the authorisation check. A not-found talk leaves `@user` and `@members` untouched. A rendered page shows the requested talk with its owner as `@user` |
| Talks.TalksController.Index | app/controllers/talks_controller.rb:5-14 | only an admin reaches the action and gets the normalised target; anyone else is rejected and no target is set |

## Left out

- The browser-driven system tests (`test/system/users_test.rb`,
  `test/system/home_test.rb`) hold no logic beyond rendered HTML. The
  client-side incremental-search thresholds they exercise live in
  front-end code that is not part of this model.
- `require_staff_login_for_api`, the unchecked API's filter, is defined
  in a base controller that is not part of this model. The product model
  starts after it has let the request through.
- `require_login` and `require_admin_login` are defined in a base
  controller that is not part of this model. They are modelled by what
  their names promise: halt with a login redirect when nobody is logged
  in, and halt unless the user is an admin. The exact redirect target of
  the admin check is an abstract `AdminLoginRequired` outcome.
- UncheckedProducts.NoRepliedQueue: `unchecked_no_replied_products(id)`
  is assumed to carry no ordering of its own. Its definition is not part
  of this model. If it orders, that order decides the
  `unchecked_no_replied` pages and which product the summary keeps per
  bucket, and this member does not capture that.
- The `list` scope is assumed to carry no ordering of its own. Its
  definition is not part of this model. If it did order, that order would
  come first and `ascending_by_date_of_publishing_and_id` would only break
  ties, which `UncheckedProducts.AllQueue` does not capture.
- ORM scopes are abstract:
  - `unchecked` and `not_wip` read two flags of a product;
  - `unchecked_no_replied_products(id)` is a relation between a reviewer
    id and a product, passed in with the catalogue;
  - the order of the `list` scope is the order of the catalogue sequence;
  - `with_attached_avatar` (avatar preloading) changes no rows and is
    left out.
- `ascending_by_date_of_publishing_and_id` is modelled as its name reads:
  ascending submission date, then ascending id. Its definition is not
  part of this model.
- Paging is left abstract. `page(params[:page])` is a given window, an
  offset and a limit. How the page number becomes that window
  (pagination library, page size) is not modelled.
- `elapsed_days` is a given integer per product. Its computation from
  dates and the clock is not modelled.
- `API::TalksController::TARGETS` is defined elsewhere. It is a
  parameter of `Talks.IndexTarget`.
- `Talk.find` raises when no talk has the id, and the framework answers
  "not found". The model makes this a `NotFound` outcome that halts the
  chain.
- The database is assumed well formed: unique user ids, unique talk ids,
  and every user owns exactly one talk. The controller's constructor
  requires this. A user without a talk (where `talk_path(nil)` would
  fail) is not modelled.
- HTTP mechanics, rendering and JSON views are not modelled. A response
  is a value of `Talks.Response`.
- The `unchecked_no_replied` branch applies no ordering scope of its own.
  The model assumes the scopes deliver catalogue order.
  So for that target the summary keeps the first product of each bucket
  in that order, which need not be the earliest submitted.
