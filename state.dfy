/** The injury record of app/state.py. */
module State {
  import opened Wrappers

  /**
   * One player's injury record.
   *
   * app/state.py:6 declares `team` as a required string, yet the conversion of
   * the scraped table (app/tools.py:53) always passes no team, meaning "filled in
   * later". The model follows what the conversion intends and makes `team`
   * optional; NewPlayerStatus below models the declared type, which rejects the
   * conversion's records.
   */
  datatype PlayerStatus = PlayerStatus(
    team: Option<string>,
    playerName: string,
    status: string,
    reason: Option<string>,
    expectedReturn: Option<string>)

  /** Why validating a record against its declared field types fails. */
  datatype ValidationError = TeamNotAString

  /**
   * Building a PlayerStatus as declared in app/state.py:5-10: validation accepts
   * a missing reason or expected return, but not a missing team.
   */
  function NewPlayerStatus(team: Option<string>, playerName: string, status: string,
                           reason: Option<string>, expectedReturn: Option<string>)
    : (r: Result<PlayerStatus, ValidationError>)
    ensures r.Ok? <==> team.Some?
    ensures r.Ok? ==> r.value.team == team && r.value.playerName == playerName && r.value.status == status
    ensures r.Ok? ==> r.value.reason == reason && r.value.expectedReturn == expectedReturn
    ensures r.Err? ==> r.error == TeamNotAString
  {
    if team.None? then Err(TeamNotAString)
    else Ok(PlayerStatus(team, playerName, status, reason, expectedReturn))
  }
}
