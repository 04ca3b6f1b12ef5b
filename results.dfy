/** The ways the schedule computation can fail, and a result carrying them. */
module Results {

  /** `nx.topological_sort` raising on a cyclic graph, and `max` of an
      empty `earliest_finish` dict at the total-duration line. */
  datatype ScheduleError = CycleFound | EmptyGraph

  datatype Result<T> = Ok(value: T) | Err(error: ScheduleError)
}
