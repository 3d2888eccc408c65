# BookingController: a model of the booking request dispatcher

The system is a Laravel HTTP controller, `BookingController`. It receives booking requests,
validates them lightly and passes them to a `BookingRepository`. This project models the
controller's decision logic:

- which repository call each action makes, with which arguments;
- when it makes no call at all;
- what it gives back: the repository's result, a bare `null`, a fixed text, a
  `['success' => …]` array, or a thrown `ValidationException`.

It also models the two table writes that `distanceFeed` makes itself.

Files and modules:

- `wrappers.dfy`, module `Wrappers`: `Option`, used for PHP's `null`. `Outcome`, used for a
  call that returns or throws.
- `php.dfy`, module `Php`: the PHP semantics the controller relies on:
  - `trim`;
  - the boolean value of a string (only `""` and `"0"` are false);
  - `??`;
  - `==` between a string-or-null and a non-numeric literal.
- `laravel.dfy`, module `Laravel`: a request with string input and an optional
  authenticated user, and the request helpers `has`, `get`, `all` and `except`. It also has
  the validator's `required` rule, which fails when the field is missing or `trim` leaves
  nothing of it.
- `booking_repository.dfy`, module `BookingRepository`: the repository calls as descriptors
  (operation and arguments). The repository's behaviour is not modelled.
- `booking_controller.dfy`, module `BookingController`:
  - one function per controller action, each returning a `Dispatch`: the ordered list of
    repository calls and the reply;
  - for `distanceFeed`, a plan function `PlanDistanceFeed` that computes the optional
    Distance write and the optional Job write;
  - the class `FeedTables`, which holds the Distance and Job tables as maps keyed by job id.
    Its method `DistanceFeed` performs the two conditional writes step by step, as the
    source does, and is proved against the plan.

Some of the controller's behaviour is easy to misread. The model follows the code:

- Once `distanceFeed` has read its three flags, it always writes the Job row. The flags
  are always the strings `'yes'` or `'no'`, and both are true in PHP, so the guard on
  line 172 of the controller never fails. `BlankFeedStillWritesJob` shows this for a body
  that sets every flag to `"false"` and leaves everything else empty. A body that lacks a
  flag field is read here with PHP's `null` for the missing key (see "## Left out").
- `getHistory` without `user_id` returns a bare `null` (not `response(null)`), while `index`
  returns `response(null)`. The model keeps the two apart as `BareNull` and
  `Response(Null)`.
- The `required` rule also rejects a `key` that is made only of whitespace, as Laravel's
  validator trims strings before it checks them.

## Model

| member | source | states |
|---|---|---|
| Php.Trim | app/Http/Controllers/BookingController.php:250-251 | the result is the infix `s[a..b]` of the input after a blank prefix `s[..a]` and before a blank suffix `s[b..]`. It is empty exactly when every character is one `trim` strips, and otherwise starts and ends with a kept character |
| Php.LooseEquals | app/Http/Controllers/BookingController.php:163-165 | comparing null or a string by `==` with a non-empty literal that has no digit, and so is not numeric, holds exactly when the value is that literal |
| Php.Truthy | app/Http/Controllers/BookingController.php:168-172 | a string is true in PHP exactly when it is neither `""` nor `"0"`: the empty string is false, a one-character string is false only for `"0"`, and every longer string is true |
| Laravel.Has | app/Http/Controllers/BookingController.php:30 | `has` holds exactly when `get` yields a value, that is when the key is present, whatever its value |
| Laravel.All | app/Http/Controllers/BookingController.php:61 | `all` holds exactly the fields `has` reports, each with the value `get` reads |
| Php.Coalesce | app/Http/Controllers/BookingController.php:158-161 | `??` yields the value when present and the default when absent |
| Laravel.Get | app/Http/Controllers/BookingController.php:129 | `get` yields a value exactly when the key is present, and that value is the input's |
| Laravel.Except | app/Http/Controllers/BookingController.php:77 | `except` keeps exactly the fields whose names are not excluded, with their values unchanged |
| Laravel.FailsRequired | app/Http/Controllers/BookingController.php:250-255 | the `required` rule fails exactly when the field is missing or blank; a value starting with a non-whitespace character passes |
| BookingController.IsAdminOrSuperAdmin | app/Http/Controllers/BookingController.php:235-239 | true only for an authenticated user whose type is exactly `admin` or `superadmin` |
| BookingController.Index | app/Http/Controllers/BookingController.php:28-39 | with `user_id` present: `getUsersJobs(user_id)` whatever the user. Without it: exactly when the user is admin or superadmin, `getAll(request)`, whose result is the response; otherwise `response(null)` and no call. Never more than one call |
| BookingController.Show | app/Http/Controllers/BookingController.php:45-50 | one lookup of the id with the `translatorJobRel.user` relation, whose result is the response |
| BookingController.ValidateJobRequest | app/Http/Controllers/BookingController.php:248-258 | a `required` validation error on `key` exactly when `key` is missing or blank |
| BookingController.Store | app/Http/Controllers/BookingController.php:57-65 | a validation error and no call exactly when validation fails; otherwise `store(user, all input)` |
| BookingController.Update | app/Http/Controllers/BookingController.php:73-82 | a validation error and no call exactly when validation fails; otherwise one `updateJob` call with the path id and the user, whose result is the response. Its data holds exactly the input fields other than `_token` and `submit`, with their values unchanged |
| BookingController.ImmediateJobEmail | app/Http/Controllers/BookingController.php:88-94 | `storeJobEmail(all input)` without validation |
| BookingController.GetHistory | app/Http/Controllers/BookingController.php:100-108 | with `user_id`: `getUsersJobsHistory(user_id, request)`; without it: a bare null and no repository call |
| BookingController.AcceptJob | app/Http/Controllers/BookingController.php:114-121 | `acceptJob(all input, user)` |
| BookingController.AcceptJobWithId | app/Http/Controllers/BookingController.php:127-134 | one `acceptJobWithId` call with the user and the `job_id`, whose result is the response; the id is null exactly when `job_id` is absent |
| BookingController.CancelJob | app/Http/Controllers/BookingController.php:141-149 | `cancelJobAjax(all input, user)`; the path id is not forwarded |
| BookingController.Reopen | app/Http/Controllers/BookingController.php:189-195 | `reopen(all input)` |
| BookingController.ResendNotifications | app/Http/Controllers/BookingController.php:201-209 | find the job by `jobid`, build its data, push it to target `*`, reply `{success: 'Push sent'}` |
| BookingController.ResendSmsNotifications | app/Http/Controllers/BookingController.php:215-227 | always an ordinary response with a `success` entry: `'SMS sent'` when the send returns, the message of the `\Exception` when it throws one |
| BookingController.UserIdIgnoresPrincipal | app/Http/Controllers/BookingController.php:30-31 | with `user_id` present, `index` gives the same dispatch for any two users, and `getHistory` looks up the same user id |
| BookingController.IndexWithoutUserIdNeedsAdmin | app/Http/Controllers/BookingController.php:32-36 | without `user_id`, `index` calls the repository exactly when the user's type is `admin` or `superadmin` |
| BookingController.StoreAndUpdateValidateAlike | app/Http/Controllers/BookingController.php:57-79 | `store` and `update` reject the same requests. A request is rejected exactly when `key` is missing or blank, and exactly then neither makes a call |
| BookingController.BlankKeyIsRejected | app/Http/Controllers/BookingController.php:250-253 | a whitespace-only `key` is rejected; the key `"0"`, which is false in PHP, is accepted and stored |
| BookingController.UpdateStrippingIsIdempotent | app/Http/Controllers/BookingController.php:77 | replaying `update` with the data it forwarded yields the same dispatch |
| BookingController.CancelIgnoresPathId | app/Http/Controllers/BookingController.php:141-146 | `cancelJob` gives the same dispatch for any two path ids |
| BookingController.SmsFailureLooksLikeSuccess | app/Http/Controllers/BookingController.php:221-226 | a send that throws an `\Exception` with message `SMS sent` gives the same reply as a send that succeeds, and every caught `\Exception` gives an ordinary response |
| BookingController.YesNo | app/Http/Controllers/BookingController.php:163-165 | a flag is `'yes'` exactly when the field equals `'true'` and `'no'` otherwise, absence included; either way it is a true string |
| BookingController.PlanDistanceFeed | app/Http/Controllers/BookingController.php:155-183 | both writes are keyed by `jobid` (or `''`). The Distance write of `distance` and `time` happens exactly when either is truthy. The Job write always happens, with `admin_comments`, `session_time` and three `'yes'`/`'no'` flags |
| BookingController.Written | app/Http/Controllers/BookingController.php:168-180 | a conditional write changes only the row of its key, and changes nothing when it does not happen |
| BookingController.FeedTables.DistanceFeed | app/Http/Controllers/BookingController.php:155-183 | the reply is always `Record updated!`, and each table becomes the old table after the planned write |
| BookingController.BlankFeedStillWritesJob | app/Http/Controllers/BookingController.php:163-180 | a body with every flag `"false"` and every other field absent or empty writes no Distance row, but writes the Job row for job id `''` with flags `no` |
| BookingController.SampleFeed | app/Http/Controllers/BookingController.php:157-180 | `{distance: 5, time: '', jobid: 7, flagged: true, manually_handled: false, by_admin: false}` writes distance 5 with an empty time, and flags job 7 with `yes` |
| BookingController.ZeroAndUppercaseAreFalse | app/Http/Controllers/BookingController.php:163-169 | with all three flag fields given, distance and time `"0"` write no Distance row, and `flagged` `"TRUE"` becomes `'no'` |
| BookingController.FeedIsIdempotent | app/Http/Controllers/BookingController.php:168-180 | repeating a feed request leaves both tables as the first request left them |

## Left out

- BookingRepository: none of its operations is modelled. Each call is a descriptor of the
  operation and its arguments, and its result is opaque (`Returned`).
- Exceptions thrown by the repository propagate to the framework. The model does not
  represent them. The one exception the controller catches, from the SMS send, is a
  parameter of `ResendSmsNotifications`.
- Non-string input: the input is a map from names to strings. PHP's loose comparison with
  other JSON values is not modelled (for example, boolean `true == 'true'` holds in PHP).
  Nor is the truthiness of arrays or numbers.
- Missing array keys and a missing user: the model uses PHP's value, `null`. This covers
  `$data['flagged']`, `$data['manually_handled']` and `$data['by_admin']` without their
  fields (lines 163-165), `$data['jobid']` in the two resend actions, and `user_type` read
  from no user. Laravel's default error handler turns the warning PHP raises there into an
  `ErrorException`. In `distanceFeed` that exception comes before either write. The model
  does not capture that conversion.
- PlanDistanceFeed: for a body missing a flag field, it plans the writes as if the flag were
  `'no'`; under Laravel's error handler the request throws instead and writes nothing.
- ResendSmsNotifications: only an `\Exception` from the send is caught (line 224); an
  `\Error` from the send, such as a `TypeError`, propagates and is not modelled.
- `has` follows Laravel 5.5 and later: a key is present whatever its value. Before 5.5,
  `has` was false for a value that trims to an empty string; that version is not modelled.
- Laravel's input middleware, such as trimming strings and converting `""` to null, is not
  modelled. Neither is the split of input between query string and body; the model uses
  one merged map for `has`, `get` and `all`.
- Framework plumbing is not modelled: `response()` and HTTP status codes, how a
  `ValidationException` is rendered, routing and middleware, and how `__authenticatedUser`
  is set. The constructor's dependency injection is also left out.
- Eloquent's `where(...)->update(...)` is not modelled. The tables hold the last columns
  written per job id, so a write to a job id with no row simply records the row. The two
  writes of `distanceFeed` are not in one transaction in the source. A failure between
  them is not modelled.
- Push and SMS delivery are I/O and are not modelled. `find` and `jobToData` appear only as
  calls.
