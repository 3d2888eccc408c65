/**
 * BookingController: each action maps a request onto the repository calls it
 * makes and the reply it gives. What the repository returns is opaque: a reply
 * `Response(Returned)` passes on whatever the last call in `calls` returned.
 * `distanceFeed`, which writes two tables itself, is modelled by the plan
 * function `PlanDistanceFeed` and by the class `FeedTables` whose method
 * performs the writes.
 */
module BookingController {
  import opened Wrappers
  import opened Laravel
  import Php
  import Repo = BookingRepository

  /** The body handed to `response(...)`. */
  datatype Body =
    | Returned                       // the value the last repository call returned
    | Null
    | Text(text: string)
    | SuccessMessage(success: string) // the array ['success' => ...]

  /** What an action gives back to the framework. */
  datatype Reply =
    | Response(body: Body)                       // `return response(...)`
    | BareNull                                   // `return null`, not wrapped in a response
    | ValidationError(field: string, rule: string) // a thrown ValidationException

  /** The repository calls an action makes, in order, and its reply. */
  datatype Dispatch = Dispatch(calls: seq<Repo.Call>, reply: Reply)

  /** One repository call whose result is the response body. */
  function Delegate(call: Repo.Call): Dispatch
  {
    Dispatch([call], Response(Returned))
  }

  const ValidatedField := "key"
  const StrippedOnUpdate: set<string> := {"_token", "submit"}
  const Acknowledgement := "Record updated!"

  /** `isAdminOrSuperAdmin`: the user's type is exactly "admin" or "superadmin" (case-sensitive). */
  function IsAdminOrSuperAdmin(user: Option<Principal>): (b: bool)
    ensures b ==> user.Some?
    ensures user.Some? ==> (b <==> user.value.userType in {"admin", "superadmin"})
  {
    match user
    // reading a property of null yields null, and null === 'admin' is false
    case None => false
    case Some(u) => u.userType == "admin" || u.userType == "superadmin"
  }

  /** `index`: the user's own jobs when `user_id` is given, else every job for an admin, else null. */
  function Index(req: Request): (d: Dispatch)
    ensures Has(req, "user_id") ==> d == Delegate(Repo.GetUsersJobs(req.input["user_id"]))
    ensures !Has(req, "user_id") ==> (d.calls == [Repo.GetAll(req)] <==> IsAdminOrSuperAdmin(req.user))
    ensures !Has(req, "user_id") && IsAdminOrSuperAdmin(req.user) ==> d == Delegate(Repo.GetAll(req))
    ensures !Has(req, "user_id") && !IsAdminOrSuperAdmin(req.user) ==> d == Dispatch([], Response(Null))
    ensures d.reply.Response? && |d.calls| <= 1
  {
    if Has(req, "user_id") then
      Delegate(Repo.GetUsersJobs(req.input["user_id"]))
    else if IsAdminOrSuperAdmin(req.user) then
      Delegate(Repo.GetAll(req))
    else
      Dispatch([], Response(Null))
  }

  /** `show`: the job with its translator relation, as the repository returns it. */
  function Show(id: string): (d: Dispatch)
    ensures d.calls == [Repo.FindWith("translatorJobRel.user", id)] && d.reply == Response(Returned)
  {
    Delegate(Repo.FindWith("translatorJobRel.user", id))
  }

  /** `validateJobRequest`: a ValidationException exactly when `key` is missing or blank. */
  function ValidateJobRequest(req: Request): (err: Option<Reply>)
    ensures err.Some? <==> !Has(req, ValidatedField) || Php.Blank(req.input[ValidatedField])
    ensures err.Some? ==> err.value == ValidationError(ValidatedField, "required")
  {
    if FailsRequired(All(req), ValidatedField) then Some(ValidationError(ValidatedField, "required")) else None
  }

  /** `store`: validate, then hand the user and every input field to the repository. */
  function Store(req: Request): (d: Dispatch)
    ensures d.reply.ValidationError? <==> ValidateJobRequest(req).Some?
    ensures d.reply.ValidationError? ==> d.calls == []
    ensures !d.reply.ValidationError? ==> d == Delegate(Repo.Store(req.user, req.input))
  {
    match ValidateJobRequest(req)
    case Some(err) => Dispatch([], err)
    case None => Delegate(Repo.Store(req.user, All(req)))
  }

  /** `update`: validate, then hand the path id, the input minus `_token` and `submit`, and the user on. */
  function Update(id: string, req: Request): (d: Dispatch)
    ensures d.reply.ValidationError? <==> ValidateJobRequest(req).Some?
    ensures d.reply.ValidationError? ==> d.calls == []
    ensures !d.reply.ValidationError? ==>
      && |d.calls| == 1 && d.reply == Response(Returned)
      && d.calls[0].UpdateJob? && d.calls[0].id == id && d.calls[0].user == req.user
      && d.calls[0].data.Keys == req.input.Keys - StrippedOnUpdate
      && "_token" !in d.calls[0].data && "submit" !in d.calls[0].data
      && forall k :: k in req.input && k != "_token" && k != "submit" ==>
           k in d.calls[0].data && d.calls[0].data[k] == req.input[k]
  {
    match ValidateJobRequest(req)
    case Some(err) => Dispatch([], err)
    case None => Delegate(Repo.UpdateJob(id, Except(req, StrippedOnUpdate), req.user))
  }

  /** `immediateJobEmail`: every input field to the repository, no validation. */
  function ImmediateJobEmail(req: Request): (d: Dispatch)
    ensures d.calls == [Repo.StoreJobEmail(req.input)] && d.reply == Response(Returned)
  {
    Delegate(Repo.StoreJobEmail(All(req)))
  }

  /** `getHistory`: the user's history when `user_id` is given, else a bare null and no call. */
  function GetHistory(req: Request): (d: Dispatch)
    ensures Has(req, "user_id") ==> d == Delegate(Repo.GetUsersJobsHistory(req.input["user_id"], req))
    ensures !Has(req, "user_id") ==> d.calls == [] && d.reply == BareNull
  {
    if Has(req, "user_id") then Delegate(Repo.GetUsersJobsHistory(req.input["user_id"], req))
    else Dispatch([], BareNull)
  }

  /** `acceptJob`: every input field and the user to the repository. */
  function AcceptJob(req: Request): (d: Dispatch)
    ensures d.calls == [Repo.AcceptJob(req.input, req.user)] && d.reply == Response(Returned)
  {
    Delegate(Repo.AcceptJob(All(req), req.user))
  }

  /** `acceptJobWithId`: only `job_id` (null when absent) and the user to the repository. */
  function AcceptJobWithId(req: Request): (d: Dispatch)
    ensures |d.calls| == 1 && d.calls[0].AcceptJobWithId? && d.calls[0].user == req.user
    ensures d.reply == Response(Returned)
    ensures d.calls[0].jobId.Some? <==> Has(req, "job_id")
    ensures Has(req, "job_id") ==> d.calls[0].jobId.value == req.input["job_id"]
  {
    Delegate(Repo.AcceptJobWithId(Get(All(req), "job_id"), req.user))
  }

  /** `cancelJob`: every input field and the user to the repository; the path id is not passed on. */
  function CancelJob(id: string, req: Request): (d: Dispatch)
    ensures d.calls == [Repo.CancelJobAjax(req.input, req.user)] && d.reply == Response(Returned)
  {
    Delegate(Repo.CancelJobAjax(All(req), req.user))
  }

  /** `reopen`: every input field to the repository. */
  function Reopen(req: Request): (d: Dispatch)
    ensures d.calls == [Repo.Reopen(req.input)] && d.reply == Response(Returned)
  {
    Delegate(Repo.Reopen(All(req)))
  }

  /** `resendNotifications`: look the job up, build its payload, push it to every translator ('*'). */
  function ResendNotifications(req: Request): (d: Dispatch)
    ensures d.reply == Response(SuccessMessage("Push sent"))
    ensures var jobId := Get(req.input, "jobid");
      d.calls == [Repo.Find(jobId), Repo.JobToData(jobId), Repo.SendNotificationTranslator(jobId, "*")]
  {
    var jobId := Get(All(req), "jobid");
    Dispatch([Repo.Find(jobId), Repo.JobToData(jobId), Repo.SendNotificationTranslator(jobId, "*")],
             Response(SuccessMessage("Push sent")))
  }

  /**
   * `resendSMSNotifications`: look the job up, build its payload, send the SMS.
   * `sent` is how the send ended; the message of a thrown `\Exception`
   * becomes the `success` entry of an ordinary response.
   */
  function ResendSmsNotifications(req: Request, sent: Outcome<string>): (d: Dispatch)
    ensures d.reply.Response? && d.reply.body.SuccessMessage?
    ensures sent.Pass? ==> d.reply.body.success == "SMS sent"
    ensures sent.Fail? ==> d.reply.body.success == sent.error
    ensures var jobId := Get(req.input, "jobid");
      d.calls == [Repo.Find(jobId), Repo.JobToData(jobId), Repo.SendSmsNotificationToTranslator(jobId)]
  {
    var jobId := Get(All(req), "jobid");
    var calls := [Repo.Find(jobId), Repo.JobToData(jobId), Repo.SendSmsNotificationToTranslator(jobId)];
    match sent
    case Pass => Dispatch(calls, Response(SuccessMessage("SMS sent")))
    case Fail(message) => Dispatch(calls, Response(SuccessMessage(message)))
  }

  // ---------------------------------------------------------------------------
  // Properties relating several requests
  // ---------------------------------------------------------------------------

  /** With `user_id` given, `index` and `getHistory` do not depend on who is asking. */
  lemma UserIdIgnoresPrincipal(input: Params, u1: Option<Principal>, u2: Option<Principal>)
    requires "user_id" in input
    ensures Index(Request(input, u1)) == Index(Request(input, u2))
    ensures GetHistory(Request(input, u1)).calls[0].userId == GetHistory(Request(input, u2)).calls[0].userId
  {
  }

  /** Without `user_id`, only an admin or superadmin reaches the repository through `index`. */
  lemma IndexWithoutUserIdNeedsAdmin(req: Request)
    requires !Has(req, "user_id")
    ensures Index(req).calls != [] <==> req.user.Some? && req.user.value.userType in {"admin", "superadmin"}
  {
  }

  /** `store` and `update` reject exactly the same requests, and then call nothing. */
  lemma StoreAndUpdateValidateAlike(id: string, req: Request)
    ensures Store(req).reply.ValidationError? <==> Update(id, req).reply.ValidationError?
    ensures Store(req).reply.ValidationError? <==> "key" !in req.input || Php.Blank(req.input["key"])
    ensures Store(req).calls == [] <==> Store(req).reply.ValidationError?
    ensures Update(id, req).calls == [] <==> Update(id, req).reply.ValidationError?
  {
  }

  /** A `key` made only of spaces, tabs and newlines is as missing as no `key` at all. */
  lemma BlankKeyIsRejected(u: Option<Principal>)
    ensures Store(Request(map["key" := " \t\n"], u)).reply == ValidationError("key", "required")
    ensures Store(Request(map["key" := "0"], u)).calls == [Repo.Store(u, map["key" := "0"])]
  {
  }

  /** Sending `update` the fields it already forwarded forwards them again unchanged. */
  lemma UpdateStrippingIsIdempotent(id: string, req: Request)
    requires Update(id, req).calls != []
    ensures Update(id, Request(Update(id, req).calls[0].data, req.user)) == Update(id, req)
  {
    var data := Update(id, req).calls[0].data;
    assert data - StrippedOnUpdate == data;
    assert data["key"] == req.input["key"];
  }

  /** `cancelJob` ignores the job id in its path. */
  lemma CancelIgnoresPathId(id1: string, id2: string, req: Request)
    ensures CancelJob(id1, req) == CancelJob(id2, req)
  {
  }

  /**
   * A send that throws an `\Exception` with message "SMS sent" cannot be told
   * from a successful send, and every caught exception yields an ordinary response.
   */
  lemma SmsFailureLooksLikeSuccess(req: Request)
    ensures ResendSmsNotifications(req, Fail("SMS sent")) == ResendSmsNotifications(req, Pass)
    ensures forall m :: ResendSmsNotifications(req, Fail(m)).reply.Response?
  {
  }

  // ---------------------------------------------------------------------------
  // distanceFeed
  // ---------------------------------------------------------------------------

  /** The columns written to the Distance row of a job. */
  datatype DistanceWrite = DistanceWrite(distance: string, time: string)

  /** The columns written to a Job row. */
  datatype JobWrite = JobWrite(adminComments: string, flagged: string, sessionTime: string,
                               manuallyHandled: string, byAdmin: string)

  /** The writes one `distanceFeed` request performs, both keyed by `jobId`. */
  datatype FeedPlan = FeedPlan(jobId: string, distance: Option<DistanceWrite>, job: Option<JobWrite>)

  /** `$data[$field] == 'true' ? 'yes' : 'no'`. */
  function YesNo(data: Params, field: string): (flag: string)
    ensures flag == "yes" <==> field in data && data[field] == "true"
    ensures flag == "no" <==> !(field in data && data[field] == "true")
    ensures Php.Truthy(flag)
  {
    if Php.LooseEquals(Get(data, field), "true") then "yes" else "no"
  }

  /** The writes `distanceFeed` decides on for the input `data`. */
  function PlanDistanceFeed(data: Params): (p: FeedPlan)
    ensures p.jobId == Php.Coalesce(Get(data, "jobid"), "")
    ensures p.distance.Some? <==>
      Php.Truthy(Php.Coalesce(Get(data, "time"), "")) || Php.Truthy(Php.Coalesce(Get(data, "distance"), ""))
    ensures p.distance.Some? ==>
      p.distance.value == DistanceWrite(Php.Coalesce(Get(data, "distance"), ""), Php.Coalesce(Get(data, "time"), ""))
    ensures p.job.Some?
    ensures p.job.value.adminComments == Php.Coalesce(Get(data, "admincomment"), "")
    ensures p.job.value.sessionTime == Php.Coalesce(Get(data, "session_time"), "")
    ensures p.job.value.flagged in {"yes", "no"}
    ensures p.job.value.manuallyHandled in {"yes", "no"}
    ensures p.job.value.byAdmin in {"yes", "no"}
    ensures p.job.value.flagged == "yes" <==> "flagged" in data && data["flagged"] == "true"
    ensures p.job.value.manuallyHandled == "yes" <==> "manually_handled" in data && data["manually_handled"] == "true"
    ensures p.job.value.byAdmin == "yes" <==> "by_admin" in data && data["by_admin"] == "true"
  {
    var distance := Php.Coalesce(Get(data, "distance"), "");
    var time := Php.Coalesce(Get(data, "time"), "");
    var jobId := Php.Coalesce(Get(data, "jobid"), "");
    var sessionTime := Php.Coalesce(Get(data, "session_time"), "");
    var flagged := YesNo(data, "flagged");
    var manuallyHandled := YesNo(data, "manually_handled");
    var byAdmin := YesNo(data, "by_admin");
    var adminComment := Php.Coalesce(Get(data, "admincomment"), "");
    FeedPlan(
      jobId,
      if Php.Truthy(time) || Php.Truthy(distance) then Some(DistanceWrite(distance, time)) else None,
      if Php.Truthy(adminComment) || Php.Truthy(sessionTime) || Php.Truthy(flagged)
         || Php.Truthy(manuallyHandled) || Php.Truthy(byAdmin)
      then Some(JobWrite(adminComment, flagged, sessionTime, manuallyHandled, byAdmin))
      else None)
  }

  /** `table` after the write `w`, if any, to the row `key`. */
  function Written<V>(table: map<string, V>, key: string, w: Option<V>): (t: map<string, V>)
    ensures t.Keys == if w.Some? then table.Keys + {key} else table.Keys
    ensures forall k :: k in t && k != key ==> t[k] == table[k]
    ensures w.Some? ==> t[key] == w.value
    ensures w.None? ==> t == table
  {
    match w
    case Some(v) => table[key := v]
    case None => table
  }

  /** The Distance and Job tables as `distanceFeed` sees them: the columns last written per job id. */
  class FeedTables {
    var distances: map<string, DistanceWrite>
    var jobs: map<string, JobWrite>

    constructor (distances: map<string, DistanceWrite>, jobs: map<string, JobWrite>)
      ensures this.distances == distances && this.jobs == jobs
    {
      this.distances := distances;
      this.jobs := jobs;
    }

    /** `distanceFeed`: the two conditional writes, then a fixed acknowledgement. */
    method DistanceFeed(req: Request) returns (reply: Reply)
      modifies this
      ensures reply == Response(Text(Acknowledgement))
      ensures var p := PlanDistanceFeed(req.input);
        && distances == Written(old(distances), p.jobId, p.distance)
        && jobs == Written(old(jobs), p.jobId, p.job)
    {
      var data := All(req);
      var distance := Php.Coalesce(Get(data, "distance"), "");
      var time := Php.Coalesce(Get(data, "time"), "");
      var jobId := Php.Coalesce(Get(data, "jobid"), "");
      var sessionTime := Php.Coalesce(Get(data, "session_time"), "");

      var flagged := YesNo(data, "flagged");
      var manuallyHandled := YesNo(data, "manually_handled");
      var byAdmin := YesNo(data, "by_admin");
      var adminComment := Php.Coalesce(Get(data, "admincomment"), "");

      if Php.Truthy(time) || Php.Truthy(distance) {
        distances := distances[jobId := DistanceWrite(distance, time)];
      }

      if Php.Truthy(adminComment) || Php.Truthy(sessionTime) || Php.Truthy(flagged)
         || Php.Truthy(manuallyHandled) || Php.Truthy(byAdmin) {
        jobs := jobs[jobId := JobWrite(adminComment, flagged, sessionTime, manuallyHandled, byAdmin)];
      }

      reply := Response(Text(Acknowledgement));
    }
  }

  /**
   * A body that sets nothing (every flag "false", every other field absent or
   * empty) writes no Distance row but still writes the Job row for job id "".
   */
  lemma BlankFeedStillWritesJob()
    ensures PlanDistanceFeed(map["flagged" := "false", "manually_handled" := "false", "by_admin" := "false"])
         == FeedPlan("", None, Some(JobWrite("", "no", "", "no", "no")))
    ensures PlanDistanceFeed(map["distance" := "", "time" := "", "jobid" := "", "session_time" := "",
                                 "flagged" := "false", "manually_handled" := "false", "by_admin" := "false",
                                 "admincomment" := ""])
         == FeedPlan("", None, Some(JobWrite("", "no", "", "no", "no")))
  {
  }

  /** A sample feed: the distance is written with an empty time, and `flagged` becomes "yes". */
  lemma SampleFeed()
    ensures var p := PlanDistanceFeed(map["distance" := "5", "time" := "", "jobid" := "7", "flagged" := "true",
                                          "manually_handled" := "false", "by_admin" := "false"]);
      && p.jobId == "7"
      && p.distance == Some(DistanceWrite("5", ""))
      && p.job == Some(JobWrite("", "yes", "", "no", "no"))
  {
  }

  /** "0" is false in PHP, so a zero distance and time write no Distance row; "TRUE" is not "true". */
  lemma ZeroAndUppercaseAreFalse()
    ensures PlanDistanceFeed(map["distance" := "0", "time" := "0", "flagged" := "false",
                                 "manually_handled" := "false", "by_admin" := "false"]).distance == None
    ensures PlanDistanceFeed(map["flagged" := "TRUE", "manually_handled" := "false",
                                 "by_admin" := "false"]).job.value.flagged == "no"
  {
  }

  /** Repeating a feed request leaves both tables as the first request left them. */
  lemma FeedIsIdempotent(distances: map<string, DistanceWrite>, jobs: map<string, JobWrite>, data: Params)
    ensures var p := PlanDistanceFeed(data);
      && Written(Written(distances, p.jobId, p.distance), p.jobId, p.distance) == Written(distances, p.jobId, p.distance)
      && Written(Written(jobs, p.jobId, p.job), p.jobId, p.job) == Written(jobs, p.jobId, p.job)
  {
  }
}
