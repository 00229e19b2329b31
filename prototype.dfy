/** The earlier rock/paper/scissors zome: a closed 3x3 table over an enum,
    a hash comparison, and a stub that confirms two choices. */
module Prototype {

  type Address = string

  /** `u64`, the width of `DefaultHasher`'s output. */
  newtype U64 = x: int | 0 <= x < 0x1_0000_0000_0000_0000

  datatype ValidMove = Rock | Paper | Scissors

  datatype MoveChoice = MoveChoice(name: ValidMove, nonce: string, address: Address)

  datatype MoveChoiceHash = MoveChoiceHash(hash: U64)

  datatype RoundResult = Win(winner: Address) | Draw

  /** `player_addresses` is a fixed array of two: a pair here. */
  datatype GameResult = GameResult(playerAddresses: (Address, Address), result: RoundResult)

  /** Reference relation of the game: Rock beats Scissors, Paper beats Rock,
      Scissors beats Paper. */
  predicate Beats(a: ValidMove, b: ValidMove)
  {
    (a == Rock && b == Scissors) || (a == Paper && b == Rock) || (a == Scissors && b == Paper)
  }

  /** Of two different moves exactly one beats the other; no move beats itself. */
  lemma BeatsIsTournament(a: ValidMove, b: ValidMove)
    ensures a == b ==> !Beats(a, b)
    ensures a != b ==> Beats(a, b) != Beats(b, a)
  {
  }

  /** `create_game_result`: the nested match over both players' moves. */
  function CreateGameResult(p1move: MoveChoice, p2move: MoveChoice): (r: GameResult)
    ensures r.playerAddresses == (p1move.address, p2move.address)
    ensures r.result == Draw <==> p1move.name == p2move.name
    ensures Beats(p1move.name, p2move.name) ==> r.result == Win(p1move.address)
    ensures Beats(p2move.name, p1move.name) ==> r.result == Win(p2move.address)
  {
    var addresses := (p1move.address, p2move.address);
    var roundResult :=
      match p1move.name
      case Rock =>
        (match p2move.name
         case Paper => Win(p2move.address)
         case Scissors => Win(p1move.address)
         case Rock => Draw)
      case Paper =>
        (match p2move.name
         case Rock => Win(p1move.address)
         case Scissors => Win(p2move.address)
         case Paper => Draw)
      case Scissors =>
        (match p2move.name
         case Rock => Win(p2move.address)
         case Paper => Win(p1move.address)
         case Scissors => Draw);
    GameResult(addresses, roundResult)
  }

  /** Swapping the players swaps `player_addresses` and leaves the round result unchanged. */
  lemma SwapPlayers(p1move: MoveChoice, p2move: MoveChoice)
    ensures CreateGameResult(p2move, p1move).playerAddresses == (p2move.address, p1move.address)
    ensures CreateGameResult(p2move, p1move).result == CreateGameResult(p1move, p2move).result
  {
    BeatsIsTournament(p1move.name, p2move.name);
  }

  /** `compare_move_choice_hashes` as written: the arm `hash2 => true`
      binds a fresh name instead of comparing with the computed hash, so the
      function answers true for every input. */
  function CompareMoveChoiceHashes(moveChoice: MoveChoice, hash1: MoveChoiceHash,
                                   hasher: MoveChoice -> U64): (r: bool)
    ensures r
  {
    var hash2 := MoveChoiceHash(hasher(moveChoice));
    match hash1
    case hash2 => true
    // the source's `_ => false` arm is unreachable
  }

  /** What the comparison evidently intends: the stored hash is the hash of the choice. */
  function MoveChoiceMatchesHash(moveChoice: MoveChoice, hash1: MoveChoiceHash,
                                 hasher: MoveChoice -> U64): (r: bool)
    ensures r <==> hash1.hash == hasher(moveChoice)
  {
    hash1 == MoveChoiceHash(hasher(moveChoice))
  }

  /** The comparison as written binds nothing: a choice whose hash is not
      the committed one, such as the committed move with another nonce, is
      accepted all the same, while the intended comparison rejects it. */
  lemma CompareAcceptsAnyChoice(other: MoveChoice, hash1: MoveChoiceHash, hasher: MoveChoice -> U64)
    requires hasher(other) != hash1.hash
    ensures CompareMoveChoiceHashes(other, hash1, hasher)
    ensures !MoveChoiceMatchesHash(other, hash1, hasher)
  {
  }

  /** The intended comparison binds: when no other choice hashes like the
      committed one, against its hash it accepts that choice and no other. */
  lemma MatchesHashBindsChoice(moveChoice: MoveChoice, committed: MoveChoice, hasher: MoveChoice -> U64)
    requires forall mc :: mc != committed ==> hasher(mc) != hasher(committed)
    ensures MoveChoiceMatchesHash(moveChoice, MoveChoiceHash(hasher(committed)), hasher) <==>
            moveChoice == committed
  {
  }

  /** `handle_confirm_choices_and_create_game_result`: a stub that ignores
      both moves and always reports a draw between the two hash addresses. */
  function ConfirmChoicesAndCreateGameResult(p1move: MoveChoice, p2move: MoveChoice,
                                             p1hashAddress: Address, p2hashAddress: Address): (r: GameResult)
    ensures r.result == Draw
    ensures r.playerAddresses == (p1hashAddress, p2hashAddress)
  {
    GameResult((p1hashAddress, p2hashAddress), Draw)
  }

  /** The stub disagrees with the table whenever the two moves differ. */
  lemma StubDisagreesWithTable(p1move: MoveChoice, p2move: MoveChoice,
                               p1hashAddress: Address, p2hashAddress: Address)
    requires p1move.name != p2move.name
    ensures ConfirmChoicesAndCreateGameResult(p1move, p2move, p1hashAddress, p2hashAddress).result
            != CreateGameResult(p1move, p2move).result
  {
  }
}
