/**
 * The calls the controller makes on its BookingRepository, as descriptors:
 * which operation, with which arguments. What the repository does with them
 * is not part of this model.
 */
module BookingRepository {
  import opened Wrappers
  import opened Laravel

  /** A call on the booking repository (or on the job it looked up), with its arguments. */
  datatype Call =
    | GetUsersJobs(userId: string)
    | GetAll(request: Request)
    | FindWith(relation: string, id: string)
    | Store(user: Option<Principal>, data: Params)
    | UpdateJob(id: string, data: Params, user: Option<Principal>)
    | StoreJobEmail(data: Params)
    | GetUsersJobsHistory(userId: string, request: Request)
    | AcceptJob(data: Params, user: Option<Principal>)
    | AcceptJobWithId(jobId: Option<string>, user: Option<Principal>)
    | CancelJobAjax(data: Params, user: Option<Principal>)
    | Reopen(data: Params)
    | Find(jobId: Option<string>)
    /** `jobToData` of the job that `find(jobId)` returned. */
    | JobToData(jobId: Option<string>)
    | SendNotificationTranslator(jobId: Option<string>, target: string)
    | SendSmsNotificationToTranslator(jobId: Option<string>)
}
