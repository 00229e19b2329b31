/** `create_game_result`: turn the resolver's verdict into a Win or Draw
    record that embeds the reveal and the move address unchanged. */
module Game {
  import opened Records
  import opened Resolver

  /** The record `create_game_result` builds once the Move at `moveAddress`
      has been fetched. The host's component is the Move's, the challenger's
      is the revealed one; the challenger's identity comes from the Move. */
  function BuildGameResult(revealed: Reveal, moveAddress: Address, hostId: Address, m: Move): (r: GameResult)
    ensures r.revealed == revealed && r.moveAddress == moveAddress && r.formatId == m.formatId
    ensures r.Draw? <==> !Beats(m.component, revealed.component) && !Beats(revealed.component, m.component)
    ensures r.Draw? ==> r.players == [hostId, m.challengerId]
    ensures r.Win? ==>
      || (r.winnerId == hostId && r.loserId == m.challengerId && Beats(m.component, revealed.component))
      || (r.winnerId == m.challengerId && r.loserId == hostId && Beats(revealed.component, m.component))
    ensures ConsistentPair(m.component, revealed.component) && Beats(m.component, revealed.component) ==>
      r == Win(revealed, moveAddress, hostId, m.challengerId, m.formatId)
    ensures ConsistentPair(m.component, revealed.component) && Beats(revealed.component, m.component) ==>
      r == Win(revealed, moveAddress, m.challengerId, hostId, m.formatId)
    ensures Beats(m.component, revealed.component) && Beats(revealed.component, m.component) ==>
      r == if revealed.component.name in m.component.winsAgainst
           then Win(revealed, moveAddress, hostId, m.challengerId, m.formatId)
           else Win(revealed, moveAddress, m.challengerId, hostId, m.formatId)
  {
    var challengerId := m.challengerId;
    var winner := ResolveComponents(m.component, revealed.component);
    if winner == HostWins then
      Win(revealed, moveAddress, hostId, challengerId, m.formatId)
    else if winner == ChallengerWins then
      Win(revealed, moveAddress, challengerId, hostId, m.formatId)
    else if winner == NoWinner then
      Draw(revealed, moveAddress, [hostId, challengerId], m.formatId)
    else
      // the `unimplemented!()` arm: the resolver never returns another string
      assert false; Draw(revealed, moveAddress, [hostId, challengerId], m.formatId)
  }

  /** `create_game_result`, including its `handle_get_move` lookup. */
  function CreateGameResult(entries: map<Address, Entry>, revealed: Reveal, moveAddress: Address,
                            hostId: Address): (r: Result<GameResult>)
    ensures r.Ok? <==> GetMove(entries, moveAddress).Ok?
    ensures r.Err? ==> r.error == GetMove(entries, moveAddress).error
    ensures r.Ok? ==> r.value == BuildGameResult(revealed, moveAddress, hostId, GetMove(entries, moveAddress).value)
  {
    match GetMove(entries, moveAddress)
    case Err(e) => Err(e)
    case Ok(m) => Ok(BuildGameResult(revealed, moveAddress, hostId, m))
  }

  /** The result names the two players and nobody else, whatever the verdict. */
  lemma ResultNamesBothPlayers(revealed: Reveal, moveAddress: Address, hostId: Address, m: Move)
    ensures var r := BuildGameResult(revealed, moveAddress, hostId, m);
            if r.Win? then {r.winnerId, r.loserId} == {hostId, m.challengerId}
            else multiset(r.players) == multiset{hostId, m.challengerId}
  {
  }

  /** Rock against Rock is a draw, and the test round (host Paper, challenger
      reveals Rock) is a win for the host. */
  lemma TestRoundOutcomes(nonce: string, moveAddress: Address, hostId: Address, challengerId: Address,
                          commitHash: HashString, commitmentAddress: Address, formatId: string)
    ensures BuildGameResult(Reveal(Rock, nonce), moveAddress, hostId,
                            Move(Rock, commitmentAddress, challengerId, commitHash, formatId)).Draw?
    ensures BuildGameResult(Reveal(Rock, nonce), moveAddress, hostId,
                            Move(Paper, commitmentAddress, challengerId, commitHash, formatId))
            == Win(Reveal(Rock, nonce), moveAddress, hostId, challengerId, formatId)
  {
  }
}
