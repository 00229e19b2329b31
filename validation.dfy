/** The four entry validators. Each is a yes/no decision over the candidate
    record, its author and the predecessor it references; a validator
    consults the store only at that predecessor's address. */
module Validation {
  import opened Records
  import opened Resolver
  import opened Game

  /** The Offer validator only logs the entry: every Offer is accepted. */
  function ValidateOffer(offer: Offer): (v: Verdict)
    ensures v.Accept?
  {
    Accept
  }

  /** The Commitment validator: the Offer's author is the declared host, the
      Commitment's author is the Offer's challenger, and the formats agree. */
  function ValidateCommitment(entries: map<Address, Entry>, authors: map<Address, Address>,
                              c: Commitment, author: Address): (v: Verdict)
    ensures v.Accept? <==>
      && c.offerAddress in authors
      && GetOffer(entries, c.offerAddress).Ok?
      && authors[c.offerAddress] == c.hostId
      && author == GetOffer(entries, c.offerAddress).value.challengerId
      && c.formatId == GetOffer(entries, c.offerAddress).value.formatId
    ensures c.offerAddress !in authors ==> v == Reject(NoAuthor)
    ensures c.offerAddress !in entries && c.offerAddress in authors ==>
      v == Reject(NotFound("No offer found"))
  {
    match GetAuthor(authors, c.offerAddress)
    case Err(e) => Reject(e)
    case Ok(offerAuthor) =>
      match GetOffer(entries, c.offerAddress)
      case Err(e) => Reject(e)
      case Ok(offer) =>
        if offerAuthor != c.hostId then
          Reject(AssertionFailed("offer_author_address == commitment.host_id"))
        else if author != offer.challengerId then
          Reject(AssertionFailed("commitment_author_address == offer.challenger_id"))
        else if c.formatId != offer.formatId then
          Reject(Rejected("Commitment format does not match offer"))
        else
          Accept
  }

  /** The Move validator: the Move's author is the Commitment's host, the
      Commitment's author is the Move's challenger, and hash and format are
      the Commitment's. Whether the component belongs to the format is not checked. */
  function ValidateMove(entries: map<Address, Entry>, authors: map<Address, Address>,
                        m: Move, author: Address): (v: Verdict)
    ensures v.Accept? <==>
      && m.commitmentAddress in authors
      && GetCommitment(entries, m.commitmentAddress).Ok?
      && author == GetCommitment(entries, m.commitmentAddress).value.hostId
      && authors[m.commitmentAddress] == m.challengerId
      && m.hash == GetCommitment(entries, m.commitmentAddress).value.hash
      && m.formatId == GetCommitment(entries, m.commitmentAddress).value.formatId
    ensures m.commitmentAddress !in authors ==> v == Reject(NoAuthor)
    ensures m.commitmentAddress !in entries && m.commitmentAddress in authors ==>
      v == Reject(NotFound("No commitment found"))
  {
    match GetAuthor(authors, m.commitmentAddress)
    case Err(e) => Reject(e)
    case Ok(commitmentAuthor) =>
      match GetCommitment(entries, m.commitmentAddress)
      case Err(e) => Reject(e)
      case Ok(c) =>
        if author != c.hostId then
          Reject(AssertionFailed("move_author_address == commitment.host_id"))
        else if commitmentAuthor != m.challengerId then
          Reject(AssertionFailed("commitment_author_address == move_.challenger_id"))
        else if m.hash != c.hash then
          Reject(Rejected("Move hash does not match commitment"))
        else if m.formatId != c.formatId then
          Reject(Rejected("Move format does not match commitment"))
        else
          Accept
  }

  /** `validate_game_result`: the reveal must hash to the Move's hash, the
      format must be the Move's, and the candidate must be structurally equal
      to the result re-derived with the Move's author as host. */
  function ValidateGameResult(entries: map<Address, Entry>, authors: map<Address, Address>,
                              hash: Reveal -> HashString, gr: GameResult): (v: Verdict)
    ensures v.Accept? <==>
      && gr.moveAddress in authors
      && GetMove(entries, gr.moveAddress).Ok?
      && hash(gr.revealed) == GetMove(entries, gr.moveAddress).value.hash
      && gr.formatId == GetMove(entries, gr.moveAddress).value.formatId
      && gr == BuildGameResult(gr.revealed, gr.moveAddress, authors[gr.moveAddress],
                               GetMove(entries, gr.moveAddress).value)
    ensures gr.moveAddress !in authors ==> v == Reject(NoAuthor)
    ensures gr.moveAddress !in entries && gr.moveAddress in authors ==>
      v == Reject(NotFound("No move found"))
    ensures gr.moveAddress in authors && GetMove(entries, gr.moveAddress).Ok? &&
            hash(gr.revealed) != GetMove(entries, gr.moveAddress).value.hash ==>
      v == Reject(Rejected("Move hash does not match hash of reveal"))
  {
    match GetAuthor(authors, gr.moveAddress)
    case Err(e) => Reject(e)
    case Ok(moveAuthor) =>
      match GetMove(entries, gr.moveAddress)
      case Err(e) => Reject(e)
      case Ok(m) =>
        if m.hash != hash(gr.revealed) then
          Reject(Rejected("Move hash does not match hash of reveal"))
        else if gr.formatId != m.formatId then
          Reject(Rejected("Format id does not match move"))
        else
          match CreateGameResult(entries, gr.revealed, gr.moveAddress, moveAuthor)
          case Err(e) => Reject(e)
          case Ok(expected) =>
            if !GameResultEq(gr, expected) then Reject(Rejected("Game results do not match"))
            else Accept
  }

  /** The validation callback the entry's type selects. */
  function ValidateEntry(entries: map<Address, Entry>, authors: map<Address, Address>,
                         hash: Reveal -> HashString, e: Entry, author: Address): Verdict
  {
    match e
    case OfferEntry(o) => ValidateOffer(o)
    case CommitmentEntry(c) => ValidateCommitment(entries, authors, c, author)
    case MoveEntry(m) => ValidateMove(entries, authors, m, author)
    case GameResultEntry(gr) => ValidateGameResult(entries, authors, hash, gr)
  }

  /** The addresses a validator dereferences. */
  function Predecessors(e: Entry): set<Address>
  {
    match e
    case OfferEntry(_) => {}
    case CommitmentEntry(c) => {c.offerAddress}
    case MoveEntry(m) => {m.commitmentAddress}
    case GameResultEntry(gr) => {gr.moveAddress}
  }

  /** Two replicas hold the same entries and authors at `keys`. */
  ghost predicate AgreeOn(entries1: map<Address, Entry>, authors1: map<Address, Address>,
                          entries2: map<Address, Entry>, authors2: map<Address, Address>,
                          keys: set<Address>)
  {
    forall k :: k in keys ==>
      (k in entries1 <==> k in entries2) && (k in entries1 ==> entries1[k] == entries2[k]) &&
      (k in authors1 <==> k in authors2) && (k in authors1 ==> authors1[k] == authors2[k])
  }

  /** The store only grew: every entry and author of the first is kept in the second. */
  ghost predicate Extends(entries1: map<Address, Entry>, authors1: map<Address, Address>,
                          entries2: map<Address, Entry>, authors2: map<Address, Address>)
  {
    && (forall k :: k in entries1 ==> k in entries2 && entries2[k] == entries1[k])
    && (forall k :: k in authors1 ==> k in authors2 && authors2[k] == authors1[k])
  }

  /** Replay determinism: two replicas that agree on the referenced
      predecessor reach the same verdict, whatever else they hold. */
  lemma ReplayDeterminism(entries1: map<Address, Entry>, authors1: map<Address, Address>,
                          entries2: map<Address, Entry>, authors2: map<Address, Address>,
                          hash: Reveal -> HashString, e: Entry, author: Address)
    requires AgreeOn(entries1, authors1, entries2, authors2, Predecessors(e))
    ensures ValidateEntry(entries1, authors1, hash, e, author) ==
            ValidateEntry(entries2, authors2, hash, e, author)
  {
    match e
    case OfferEntry(_) =>
    case CommitmentEntry(c) =>
      assert c.offerAddress in Predecessors(e);
      assert GetOffer(entries1, c.offerAddress) == GetOffer(entries2, c.offerAddress);
      assert GetAuthor(authors1, c.offerAddress) == GetAuthor(authors2, c.offerAddress);
    case MoveEntry(m) =>
      assert m.commitmentAddress in Predecessors(e);
      assert GetCommitment(entries1, m.commitmentAddress) == GetCommitment(entries2, m.commitmentAddress);
      assert GetAuthor(authors1, m.commitmentAddress) == GetAuthor(authors2, m.commitmentAddress);
    case GameResultEntry(gr) =>
      assert gr.moveAddress in Predecessors(e);
      assert GetMove(entries1, gr.moveAddress) == GetMove(entries2, gr.moveAddress);
      assert GetAuthor(authors1, gr.moveAddress) == GetAuthor(authors2, gr.moveAddress);
      assert forall ra, h :: CreateGameResult(entries1, ra, gr.moveAddress, h) ==
                             CreateGameResult(entries2, ra, gr.moveAddress, h);
  }

  /** An accepted entry's predecessors are stored and have authors. */
  lemma AcceptedPredecessorsStored(entries: map<Address, Entry>, authors: map<Address, Address>,
                                   hash: Reveal -> HashString, e: Entry, author: Address)
    requires ValidateEntry(entries, authors, hash, e, author).Accept?
    ensures Predecessors(e) <= entries.Keys && Predecessors(e) <= authors.Keys
  {
  }

  /** Self-certification: once accepted, an entry stays accepted however the
      store grows, so no later re-validation is needed. */
  lemma AcceptanceIsStable(entries1: map<Address, Entry>, authors1: map<Address, Address>,
                           entries2: map<Address, Entry>, authors2: map<Address, Address>,
                           hash: Reveal -> HashString, e: Entry, author: Address)
    requires Extends(entries1, authors1, entries2, authors2)
    requires ValidateEntry(entries1, authors1, hash, e, author).Accept?
    ensures ValidateEntry(entries2, authors2, hash, e, author).Accept?
  {
    AcceptedPredecessorsStored(entries1, authors1, hash, e, author);
    ReplayDeterminism(entries1, authors1, entries2, authors2, hash, e, author);
  }

  /** Every stored entry passes its validator, with its own author, against the store. */
  ghost predicate LedgerValid(entries: map<Address, Entry>, authors: map<Address, Address>,
                              hash: Reveal -> HashString)
  {
    forall a :: a in entries ==>
      a in authors && ValidateEntry(entries, authors, hash, entries[a], authors[a]).Accept?
  }

  /** Storing an entry its validator accepts, at a fresh address, keeps the whole ledger valid. */
  lemma StoreAcceptedKeepsLedgerValid(entries: map<Address, Entry>, authors: map<Address, Address>,
                                      hash: Reveal -> HashString, a: Address, e: Entry, author: Address)
    requires LedgerValid(entries, authors, hash)
    requires a !in entries && a !in authors
    requires ValidateEntry(entries, authors, hash, e, author).Accept?
    ensures LedgerValid(entries[a := e], authors[a := author], hash)
  {
    var entries', authors' := entries[a := e], authors[a := author];
    assert Extends(entries, authors, entries', authors');
    forall k | k in entries'
      ensures k in authors' && ValidateEntry(entries', authors', hash, entries'[k], authors'[k]).Accept?
    {
      if k == a {
        AcceptanceIsStable(entries, authors, entries', authors', hash, e, author);
      } else {
        AcceptanceIsStable(entries, authors, entries', authors', hash, entries[k], authors[k]);
      }
    }
  }

  /** In a valid ledger every stored game result sits on a complete chain
      Offer -> Commitment -> Move -> GameResult whose records agree: one
      format throughout, the reveal opens the committed hash, the authors are
      the parties each record names, and the result is the re-derived one. */
  lemma GameChain(entries: map<Address, Entry>, authors: map<Address, Address>,
                  hash: Reveal -> HashString, a: Address)
    requires LedgerValid(entries, authors, hash)
    requires a in entries && entries[a].GameResultEntry?
    ensures var gr := entries[a].result;
      gr.moveAddress in entries && entries[gr.moveAddress].MoveEntry? &&
      (var m := entries[gr.moveAddress].move;
       m.commitmentAddress in entries && entries[m.commitmentAddress].CommitmentEntry? &&
       (var c := entries[m.commitmentAddress].commitment;
        c.offerAddress in entries && entries[c.offerAddress].OfferEntry? &&
        (var o := entries[c.offerAddress].offer;
         && hash(gr.revealed) == m.hash == c.hash
         && gr.formatId == m.formatId == c.formatId == o.formatId
         && authors[c.offerAddress] == c.hostId == authors[gr.moveAddress]
         && authors[m.commitmentAddress] == o.challengerId == m.challengerId
         && gr == BuildGameResult(gr.revealed, gr.moveAddress, c.hostId, m))))
  {
    var gr := entries[a].result;
    assert ValidateEntry(entries, authors, hash, entries[a], authors[a]).Accept?;
    var m := GetMove(entries, gr.moveAddress).value;
    assert ValidateEntry(entries, authors, hash, entries[gr.moveAddress], authors[gr.moveAddress]).Accept?;
    var c := GetCommitment(entries, m.commitmentAddress).value;
    assert ValidateEntry(entries, authors, hash, entries[m.commitmentAddress], authors[m.commitmentAddress]).Accept?;
  }

  /** A hash function that no two reveals share. */
  ghost predicate CollisionFree(hash: Reveal -> HashString)
  {
    forall r1, r2 :: hash(r1) == hash(r2) ==> r1 == r2
  }

  /** Commit-reveal binding: with a collision-free hash, the reveal a stored
      game result carries is the one whose hash the challenger committed. */
  lemma CommitRevealBinding(entries: map<Address, Entry>, authors: map<Address, Address>,
                            hash: Reveal -> HashString, a: Address, committed: Reveal)
    requires LedgerValid(entries, authors, hash) && CollisionFree(hash)
    requires a in entries && entries[a].GameResultEntry?
    requires var gr := entries[a].result;
      gr.moveAddress in entries && entries[gr.moveAddress].MoveEntry? &&
      (var m := entries[gr.moveAddress].move;
       m.commitmentAddress in entries && entries[m.commitmentAddress].CommitmentEntry? &&
       entries[m.commitmentAddress].commitment.hash == hash(committed))
    ensures entries[a].result.revealed == committed
  {
    GameChain(entries, authors, hash, a);
  }
}
