/** The queue entries the upload route adds and the relay reads back. The
    queue's own delivery, retry and backoff machinery is not modelled; only
    the values the server hands to it are. */
module TaskQueue {
  import opened Wrappers

  /** The payload of one thumbnail task. */
  datatype TaskData = TaskData(jobId: string, filePath: string, userId: string)

  datatype Backoff = Exponential(delayMillis: nat)

  datatype JobOptions = JobOptions(priority: nat, attempts: nat, backoff: Backoff)

  const QueueName: string := "thumbnail-queue"
  const TaskName: string := "thumbnail"

  /** Options of every thumbnail task: priority 1, three attempts,
      exponential backoff starting at 2000 ms. */
  const ThumbnailOptions: JobOptions := JobOptions(1, 3, Exponential(2000))

  /** One `queue.add(name, data, options)` call. */
  datatype QueueAdd = QueueAdd(name: string, data: TaskData, options: JobOptions)

  /** A queue entry as `getJob` returns it; its data may be missing. */
  datatype QueueJob = QueueJob(data: Option<TaskData>)
}
