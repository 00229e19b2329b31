/** The generalized resolver of the current zome, run on the three
    components of the repository's integration tests, agrees with the
    prototype's fixed rock/paper/scissors table. */
module Agreement {
  import opened Records
  import Resolver
  import Prototype

  /** The test component that plays the prototype's move. */
  function ComponentOf(m: Prototype.ValidMove): (c: Component)
    ensures c in Resolver.RockPaperScissors.moves
    ensures m.Rock? <==> c.name == "Rock"
    ensures m.Paper? <==> c.name == "Paper"
    ensures m.Scissors? <==> c.name == "Scissors"
  {
    match m
    case Rock => Resolver.Rock
    case Paper => Resolver.Paper
    case Scissors => Resolver.Scissors
  }

  /** With player 1 seated as host and player 2 as challenger, the resolver's
      verdict names the same winner as the prototype's table, and "draw"
      exactly when the table draws. */
  lemma ResolverAgreesWithPrototype(p1move: Prototype.MoveChoice, p2move: Prototype.MoveChoice)
    ensures var verdict := Resolver.ResolveComponents(ComponentOf(p1move.name), ComponentOf(p2move.name));
      var r := Prototype.CreateGameResult(p1move, p2move).result;
      && (verdict == Resolver.HostWins ==> r == Prototype.Win(p1move.address))
      && (verdict == Resolver.ChallengerWins ==> r == Prototype.Win(p2move.address))
      && (verdict == Resolver.NoWinner <==> r == Prototype.Draw)
  {
  }
}
