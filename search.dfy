/** What each script hands the search service: the query text and the job's keyword arguments. */
module Search {

  /** The `kwargs_normalsearch` dictionary: `exec_mode`, `earliest_time`, `latest_time`. */
  datatype SearchOptions = SearchOptions(execMode: string, earliestTime: string, latestTime: string)

  /** A search job as submitted: query text plus options. */
  datatype SearchRequest = SearchRequest(query: string, options: SearchOptions)

  /** The options every DHCP and user lookup runs with: a normal job over the last 72 hours. */
  const Last72Hours: SearchOptions := SearchOptions("normal", "-72h", "now")
}
