/** The enumerations and the record of types.ts. */
module Types {
  /** Which screen the application shows (types.ts:1-5). */
  datatype Stage = ModeSelection | SetupTrickTime | ActiveStopwatch

  /** Which disguised value a stopped stopwatch shows (types.ts:7-10). */
  datatype TrickMode = CurrentTime | FixedTime

  /** A minutes/seconds pair as entered by the user (types.ts:12-15). */
  datatype TimeValue = TimeValue(minutes: nat, seconds: nat)
}
