/** The enumerations stored as text. */
module Models {

  datatype PingKind = Success | Fail | Start | Log | Exitcode

  /** A ping as the handlers apply it: the exit-code route has already chosen success or failure. */
  type AppliedKind = k: PingKind | k != Exitcode witness Log

  datatype ScheduleKind = Period | Cron
}
