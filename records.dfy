/** The ledger records of the roshambo zome (Offer, Commitment, Move, Reveal,
    GameResult), their hand-written equality, and the typed lookups that
    dereference a content address in the store. */
module Records {

  /** Holochain addresses and hash strings are both content hashes rendered as text. */
  type Address = string
  type HashString = string

  /** Why an operation or a validation failed. */
  datatype Error =
    | NotFound(message: string)        // a handle_get_* found nothing at the address
    | WrongEntryType                   // the stored entry does not decode as the wanted record
    | NoAuthor                         // no header, hence no author, for the address
    | AssertionFailed(check: string)   // an assert! in a validator panicked
    | Rejected(message: string)        // a validator returned Err(message)

  datatype Result<+T> = Ok(value: T) | Err(error: Error)

  /** The yes/no answer of an entry validator. */
  datatype Verdict = Accept | Reject(error: Error)

  /** A move of a game format: its name and the names it beats / is beaten by. */
  datatype Component = Component(name: string, winsAgainst: seq<string>, losesAgainst: seq<string>)

  /** A rule set. The zome declares it but never consults it. */
  datatype Format = Format(moves: seq<Component>)

  datatype Offer = Offer(challengerId: Address, formatId: string)

  datatype Commitment = Commitment(hash: HashString, offerAddress: Address, hostId: Address, formatId: string)

  datatype Move = Move(component: Component, commitmentAddress: Address, challengerId: Address,
                       hash: HashString, formatId: string)

  /** The challenger's hidden move and the nonce that salts its hash. */
  datatype Reveal = Reveal(component: Component, nonce: string)

  datatype GameResult =
    | Win(revealed: Reveal, moveAddress: Address, winnerId: Address, loserId: Address, formatId: string)
    | Draw(revealed: Reveal, moveAddress: Address, players: seq<Address>, formatId: string)

  /** An app entry of one of the four entry types the zome defines. */
  datatype Entry =
    | OfferEntry(offer: Offer)
    | CommitmentEntry(commitment: Commitment)
    | MoveEntry(move: Move)
    | GameResultEntry(result: GameResult)

  /** `impl PartialEq for Component`: field-by-field comparison. */
  function ComponentEq(a: Component, b: Component): (r: bool)
    ensures r <==> a == b
  {
    a.name == b.name && a.winsAgainst == b.winsAgainst && a.losesAgainst == b.losesAgainst
  }

  /** `impl PartialEq for Reveal`. */
  function RevealEq(a: Reveal, b: Reveal): (r: bool)
    ensures r <==> a == b
  {
    ComponentEq(a.component, b.component) && a.nonce == b.nonce
  }

  /** `impl PartialEq for GameResult`: variant by variant; a Win never equals a Draw. */
  function GameResultEq(a: GameResult, b: GameResult): (r: bool)
    ensures r <==> a == b
    ensures a.Win? != b.Win? ==> !r
  {
    match a
    case Win(rv, moveAddress, winnerId, loserId, formatId) =>
      (match b
       case Win(otherReveal, otherMoveAddress, otherWinnerId, otherLoserId, otherFormatId) =>
         RevealEq(rv, otherReveal) && moveAddress == otherMoveAddress &&
         winnerId == otherWinnerId && loserId == otherLoserId && formatId == otherFormatId
       case Draw(_, _, _, _) => false)
    case Draw(rv, moveAddress, players, formatId) =>
      (match b
       case Draw(otherReveal, otherMoveAddress, otherPlayers, otherFormatId) =>
         RevealEq(rv, otherReveal) && moveAddress == otherMoveAddress &&
         players == otherPlayers && formatId == otherFormatId
       case Win(_, _, _, _, _) => false)
  }

  /** `handle_get_offer`: the Offer stored at `address`, "No offer found" when nothing is. */
  function GetOffer(entries: map<Address, Entry>, address: Address): (r: Result<Offer>)
    ensures address !in entries <==> r == Err(NotFound("No offer found"))
    ensures r.Ok? <==> address in entries && entries[address].OfferEntry?
    ensures r.Ok? ==> entries[address] == OfferEntry(r.value)
    ensures address in entries && !entries[address].OfferEntry? ==> r == Err(WrongEntryType)
  {
    if address !in entries then Err(NotFound("No offer found"))
    else match entries[address]
      case OfferEntry(offer) => Ok(offer)
      case _ => Err(WrongEntryType)
  }

  /** `handle_get_commitment`. */
  function GetCommitment(entries: map<Address, Entry>, address: Address): (r: Result<Commitment>)
    ensures address !in entries <==> r == Err(NotFound("No commitment found"))
    ensures r.Ok? <==> address in entries && entries[address].CommitmentEntry?
    ensures r.Ok? ==> entries[address] == CommitmentEntry(r.value)
    ensures address in entries && !entries[address].CommitmentEntry? ==> r == Err(WrongEntryType)
  {
    if address !in entries then Err(NotFound("No commitment found"))
    else match entries[address]
      case CommitmentEntry(commitment) => Ok(commitment)
      case _ => Err(WrongEntryType)
  }

  /** `handle_get_move`. */
  function GetMove(entries: map<Address, Entry>, address: Address): (r: Result<Move>)
    ensures address !in entries <==> r == Err(NotFound("No move found"))
    ensures r.Ok? <==> address in entries && entries[address].MoveEntry?
    ensures r.Ok? ==> entries[address] == MoveEntry(r.value)
    ensures address in entries && !entries[address].MoveEntry? ==> r == Err(WrongEntryType)
  {
    if address !in entries then Err(NotFound("No move found"))
    else match entries[address]
      case MoveEntry(m) => Ok(m)
      case _ => Err(WrongEntryType)
  }

  /** `get_author`: the first provenance of the entry's header, here the author map. */
  function GetAuthor(authors: map<Address, Address>, address: Address): (r: Result<Address>)
    ensures r.Ok? <==> address in authors
    ensures r.Ok? ==> r.value == authors[address]
    ensures r.Err? ==> r.error == NoAuthor
  {
    if address in authors then Ok(authors[address]) else Err(NoAuthor)
  }
}
