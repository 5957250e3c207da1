/**
 * The records of constants/types.ts that the streak engine reads.
 * Dates are calendar days written as integer day numbers (days since some
 * fixed epoch), so "the next day" is `d + 1`.
 */
module Types {
  import opened Options

  /** FrequencyType: the kinds of schedule an activity can have. */
  datatype Frequency = Daily | Weekly | Monthly | Yearly | Period | Repeat

  /**
   * The yearly schedule detail. The habit editor stores the text the user
   * typed (a plain string); older data may hold a list of "MM-DD" keys.
   */
  datatype YearlyDetail = YearText(text: string) | YearKeys(keys: seq<string>)

  /**
   * The parts of `frequencyDetails` the schedule test reads. An absent
   * `frequencyDetails` object is the value with all three parts `None`.
   */
  datatype FrequencyDetails = FrequencyDetails(
    weekly: Option<seq<bool>>,
    monthly: Option<seq<bool>>,
    yearly: Option<YearlyDetail>)

  /** An activity, reduced to the fields the streak engine reads. */
  datatype Activity = Activity(id: string, frequency: Frequency, details: FrequencyDetails)

  /** A completion log; `date` is the calendar day it was logged for. */
  datatype ActivityLog = ActivityLog(
    id: string,
    activityId: string,
    date: int,
    duration: int,
    completionPercentage: int,
    timestamp: int)
}
