/** The zome's public operations over the shared content-addressed store.
    A Ledger holds the entries by address and, beside them, the author of
    each (what the entry headers' provenances give). Every new record is
    built from its predecessor and committed; committing runs the entry's
    validator with the calling agent as author, as the runtime does. */
module Protocol {
  import opened Records
  import opened Resolver
  import opened Game
  import opened Validation

  /** The Commitment `handle_new_commitment` builds: it hashes the reveal
      and copies the format from the Offer. */
  function BuildCommitment(hash: Reveal -> HashString, component: Component, nonce: string,
                           offerAddress: Address, hostId: Address, offer: Offer): (c: Commitment)
    ensures c.hash == hash(Reveal(component, nonce))
    ensures c.offerAddress == offerAddress && c.hostId == hostId
    ensures c.formatId == offer.formatId
  {
    Commitment(hash(Reveal(component, nonce)), offerAddress, hostId, offer.formatId)
  }

  /** The Move `handle_new_move` builds: hash and format are copied from the Commitment. */
  function BuildMove(component: Component, commitmentAddress: Address, challengerId: Address,
                     c: Commitment): (m: Move)
    ensures m.component == component && m.commitmentAddress == commitmentAddress
    ensures m.challengerId == challengerId
    ensures m.hash == c.hash && m.formatId == c.formatId
  {
    Move(component, commitmentAddress, challengerId, c.hash, c.formatId)
  }

  /** A Commitment built from a stored Offer passes validation exactly when
      the Offer's author is the named host and the caller is the Offer's challenger. */
  lemma NewCommitmentAcceptedIff(entries: map<Address, Entry>, authors: map<Address, Address>,
                                 hash: Reveal -> HashString, component: Component, nonce: string,
                                 offerAddress: Address, hostId: Address, agent: Address)
    requires GetOffer(entries, offerAddress).Ok?
    ensures var offer := GetOffer(entries, offerAddress).value;
      var c := BuildCommitment(hash, component, nonce, offerAddress, hostId, offer);
      && c.hash == hash(Reveal(component, nonce))
      && c.formatId == offer.formatId
      && (ValidateCommitment(entries, authors, c, agent).Accept? <==>
          offerAddress in authors && authors[offerAddress] == hostId && agent == offer.challengerId)
  {
  }

  /** A Move built from a stored Commitment passes validation exactly when
      the caller is the Commitment's host and the named challenger is the
      Commitment's author. */
  lemma NewMoveAcceptedIff(entries: map<Address, Entry>, authors: map<Address, Address>,
                           component: Component, commitmentAddress: Address,
                           challengerId: Address, agent: Address)
    requires GetCommitment(entries, commitmentAddress).Ok?
    ensures var c := GetCommitment(entries, commitmentAddress).value;
      var m := BuildMove(component, commitmentAddress, challengerId, c);
      && m.hash == c.hash && m.formatId == c.formatId
      && (ValidateMove(entries, authors, m, agent).Accept? <==>
          commitmentAddress in authors && agent == c.hostId && authors[commitmentAddress] == challengerId)
  {
  }

  /** Only the host identity decides which record is built: two results
      built for different hosts differ. */
  lemma BuildGameResultHostInjective(revealed: Reveal, moveAddress: Address, host1: Address,
                                     host2: Address, m: Move)
    requires BuildGameResult(revealed, moveAddress, host1, m) == BuildGameResult(revealed, moveAddress, host2, m)
    ensures host1 == host2
  {
    var r1 := BuildGameResult(revealed, moveAddress, host1, m);
    var r2 := BuildGameResult(revealed, moveAddress, host2, m);
    if r1.Draw? {
      assert r1.players[0] == host1 && r2.players[0] == host2;
    } else if r1.winnerId == host1 && r1.loserId == m.challengerId && Beats(m.component, revealed.component) {
      assert r2.winnerId == host2 || r2.loserId == host2;
    } else {
      assert r1.loserId == host1;
      assert r2.winnerId == host2 || r2.loserId == host2;
    }
  }

  /** The result `handle_new_game_result` builds passes validation exactly
      when the reveal opens the Move's hash and the named host is the Move's
      author: a wrong host or a wrong reveal is rejected. */
  lemma NewGameResultAcceptedIff(entries: map<Address, Entry>, authors: map<Address, Address>,
                                 hash: Reveal -> HashString, revealed: Reveal, moveAddress: Address,
                                 hostId: Address)
    requires GetMove(entries, moveAddress).Ok?
    ensures var m := GetMove(entries, moveAddress).value;
      ValidateGameResult(entries, authors, hash, BuildGameResult(revealed, moveAddress, hostId, m)).Accept?
      <==> moveAddress in authors && hash(revealed) == m.hash && hostId == authors[moveAddress]
  {
    var m := GetMove(entries, moveAddress).value;
    var gr := BuildGameResult(revealed, moveAddress, hostId, m);
    if ValidateGameResult(entries, authors, hash, gr).Accept? {
      BuildGameResultHostInjective(revealed, moveAddress, hostId, authors[moveAddress], m);
    }
  }

  /** The integration test's wrong nonce: with a collision-free hash, a
      reveal other than the committed one is rejected. */
  lemma WrongRevealRejected(entries: map<Address, Entry>, authors: map<Address, Address>,
                            hash: Reveal -> HashString, committed: Reveal, revealed: Reveal,
                            moveAddress: Address, hostId: Address)
    requires CollisionFree(hash) && revealed != committed
    requires GetMove(entries, moveAddress).Ok? && GetMove(entries, moveAddress).value.hash == hash(committed)
    ensures !ValidateGameResult(entries, authors, hash,
              BuildGameResult(revealed, moveAddress, hostId, GetMove(entries, moveAddress).value)).Accept?
  {
    NewGameResultAcceptedIff(entries, authors, hash, revealed, moveAddress, hostId);
  }

  /** Nobody checks who authors a game result: the verdict is the same for every author. */
  lemma GameResultAuthorNotChecked(entries: map<Address, Entry>, authors: map<Address, Address>,
                                   hash: Reveal -> HashString, gr: GameResult, author1: Address,
                                   author2: Address)
    ensures ValidateEntry(entries, authors, hash, GameResultEntry(gr), author1) ==
            ValidateEntry(entries, authors, hash, GameResultEntry(gr), author2)
  {
  }

  /** `entries1`/`authors1` are `entries0`/`authors0` with `e` stored at `a`
      by `agent`, unless `a` was already taken, in which case nothing changed. */
  ghost predicate Stored(entries0: map<Address, Entry>, authors0: map<Address, Address>,
                         entries1: map<Address, Entry>, authors1: map<Address, Address>,
                         a: Address, e: Entry, agent: Address)
  {
    if a in entries0 then entries1 == entries0 && authors1 == authors0
    else entries1 == entries0[a := e] && authors1 == authors0[a := agent]
  }

  /** A store every replica can hold: each address has an author, each
      entry sits at its content address, and every entry is valid. */
  ghost predicate StoreValid(entries: map<Address, Entry>, authors: map<Address, Address>,
                             hash: Reveal -> HashString, addressOf: Entry -> Address)
  {
    && entries.Keys == authors.Keys
    && (forall a :: a in entries ==> addressOf(entries[a]) == a)
    && LedgerValid(entries, authors, hash)
  }

  /** The store after `agent` commits `e`: validated against the store as
      it is, then stored at its content address unless that address is taken. */
  function Commit(entries: map<Address, Entry>, authors: map<Address, Address>,
                  hash: Reveal -> HashString, addressOf: Entry -> Address,
                  agent: Address, e: Entry): (r: (map<Address, Entry>, map<Address, Address>))
    ensures ValidateEntry(entries, authors, hash, e, agent).Reject? ==> r == (entries, authors)
    ensures ValidateEntry(entries, authors, hash, e, agent).Accept? ==>
      Stored(entries, authors, r.0, r.1, addressOf(e), e, agent)
  {
    if ValidateEntry(entries, authors, hash, e, agent).Reject? || addressOf(e) in entries then
      (entries, authors)
    else
      (entries[addressOf(e) := e], authors[addressOf(e) := agent])
  }

  /** One commit keeps a valid store valid and loses nothing. */
  lemma CommitKeepsStoreValid(entries: map<Address, Entry>, authors: map<Address, Address>,
                              hash: Reveal -> HashString, addressOf: Entry -> Address,
                              agent: Address, e: Entry)
    requires StoreValid(entries, authors, hash, addressOf)
    ensures var r := Commit(entries, authors, hash, addressOf, agent, e);
      StoreValid(r.0, r.1, hash, addressOf) && Extends(entries, authors, r.0, r.1)
  {
    var a := addressOf(e);
    if ValidateEntry(entries, authors, hash, e, agent).Accept? && a !in entries {
      StoreAcceptedKeepsLedgerValid(entries, authors, hash, a, e, agent);
    }
  }

  /** The store after a sequence of commits, each a calling agent and an
      entry, applied in order: what every replica sees as the zome's calls
      of `hdk::commit_entry` arrive. */
  function Replay(entries: map<Address, Entry>, authors: map<Address, Address>,
                  hash: Reveal -> HashString, addressOf: Entry -> Address,
                  commits: seq<(Address, Entry)>): (r: (map<Address, Entry>, map<Address, Address>))
    decreases |commits|
  {
    if |commits| == 0 then (entries, authors)
    else
      var next := Commit(entries, authors, hash, addressOf, commits[0].0, commits[0].1);
      Replay(next.0, next.1, hash, addressOf, commits[1..])
  }

  /** However many commits arrive, from whichever agents and in whatever
      order, a valid store stays valid (every entry still passes its
      validator) and never loses an entry or an author. */
  lemma {:induction false} ReplayKeepsStoreValid(entries: map<Address, Entry>, authors: map<Address, Address>,
                                                 hash: Reveal -> HashString, addressOf: Entry -> Address,
                                                 commits: seq<(Address, Entry)>)
    requires StoreValid(entries, authors, hash, addressOf)
    ensures var r := Replay(entries, authors, hash, addressOf, commits);
      StoreValid(r.0, r.1, hash, addressOf) && Extends(entries, authors, r.0, r.1)
    decreases |commits|
  {
    if |commits| > 0 {
      var next := Commit(entries, authors, hash, addressOf, commits[0].0, commits[0].1);
      CommitKeepsStoreValid(entries, authors, hash, addressOf, commits[0].0, commits[0].1);
      ReplayKeepsStoreValid(next.0, next.1, hash, addressOf, commits[1..]);
    }
  }

  /** An entry that reaches the store stays there, under the same author,
      through any later commits. */
  lemma {:induction false} ReplayKeepsEntry(entries: map<Address, Entry>, authors: map<Address, Address>,
                                            hash: Reveal -> HashString, addressOf: Entry -> Address,
                                            commits: seq<(Address, Entry)>, a: Address)
    requires a in entries && a in authors
    ensures var r := Replay(entries, authors, hash, addressOf, commits);
      a in r.0 && r.0[a] == entries[a] && a in r.1 && r.1[a] == authors[a]
    decreases |commits|
  {
    if |commits| > 0 {
      var next := Commit(entries, authors, hash, addressOf, commits[0].0, commits[0].1);
      ReplayKeepsEntry(next.0, next.1, hash, addressOf, commits[1..], a);
    }
  }

  class Ledger {
    var entries: map<Address, Entry>
    var authors: map<Address, Address>
    /** `calculate_hash` (SHA2-256 of the JSON encoding), left abstract. */
    const hash: Reveal -> HashString
    /** The content address the store gives an entry, left abstract. */
    const addressOf: Entry -> Address

    ghost predicate Valid()
      reads this
    {
      StoreValid(entries, authors, hash, addressOf)
    }

    constructor (hash: Reveal -> HashString, addressOf: Entry -> Address)
      ensures Valid()
      ensures entries == map[] && authors == map[]
      ensures this.hash == hash && this.addressOf == addressOf
    {
      this.hash := hash;
      this.addressOf := addressOf;
      entries := map[];
      authors := map[];
    }

    /** `hdk::commit_entry`: validate `e` with `agent` as its author; on
        acceptance store it at its content address (a no-op when that
        address is already taken) and return the address. */
    method CommitEntry(agent: Address, e: Entry) returns (r: Result<Address>)
      requires Valid()
      modifies this
      ensures Valid()
      ensures Extends(old(entries), old(authors), entries, authors)
      ensures (entries, authors) == Commit(old(entries), old(authors), hash, addressOf, agent, e)
      ensures var v := ValidateEntry(old(entries), old(authors), hash, e, agent);
        if v.Reject? then r == Err(v.error) && entries == old(entries) && authors == old(authors)
        else r == Ok(addressOf(e)) &&
             Stored(old(entries), old(authors), entries, authors, addressOf(e), e, agent)
    {
      var v := ValidateEntry(entries, authors, hash, e, agent);
      if v.Reject? {
        return Err(v.error);
      }
      var a := addressOf(e);
      if a !in entries {
        StoreAcceptedKeepsLedgerValid(entries, authors, hash, a, e, agent);
        entries := entries[a := e];
        authors := authors[a := agent];
      }
      r := Ok(a);
    }

    /** `handle_new_offer`: an Offer always passes validation, so this never fails. */
    method NewOffer(agent: Address, challengerId: Address, formatId: string) returns (r: Result<Address>)
      requires Valid()
      modifies this
      ensures Valid()
      ensures var e := OfferEntry(Offer(challengerId, formatId));
        r == Ok(addressOf(e)) && Stored(old(entries), old(authors), entries, authors, addressOf(e), e, agent)
    {
      r := CommitEntry(agent, OfferEntry(Offer(challengerId, formatId)));
    }

    /** `handle_new_commitment`: look up the Offer, hash the reveal made of
        the component and the nonce, and commit a Commitment carrying that
        hash and the Offer's format. */
    method NewCommitment(agent: Address, component: Component, offerAddress: Address,
                         hostId: Address, nonce: string) returns (r: Result<Address>)
      requires Valid()
      modifies this
      ensures Valid()
      ensures Extends(old(entries), old(authors), entries, authors)
      ensures GetOffer(old(entries), offerAddress).Err? ==>
        r == Err(GetOffer(old(entries), offerAddress).error) && entries == old(entries) && authors == old(authors)
      ensures GetOffer(old(entries), offerAddress).Ok? ==>
        var offer := GetOffer(old(entries), offerAddress).value;
        var e := CommitmentEntry(BuildCommitment(hash, component, nonce, offerAddress, hostId, offer));
        && (r.Ok? <==> old(authors)[offerAddress] == hostId && agent == offer.challengerId)
        && (r.Ok? ==> r.value == addressOf(e) && Stored(old(entries), old(authors), entries, authors, r.value, e, agent))
        && (r.Err? ==> entries == old(entries) && authors == old(authors))
    {
      var got := GetOffer(entries, offerAddress);
      if got.Err? {
        return Err(got.error);
      }
      var c := BuildCommitment(hash, component, nonce, offerAddress, hostId, got.value);
      NewCommitmentAcceptedIff(entries, authors, hash, component, nonce, offerAddress, hostId, agent);
      r := CommitEntry(agent, CommitmentEntry(c));
    }

    /** `handle_new_move`: look up the Commitment and commit a Move carrying
        its hash and format. */
    method NewMove(agent: Address, component: Component, commitmentAddress: Address,
                   challengerId: Address) returns (r: Result<Address>)
      requires Valid()
      modifies this
      ensures Valid()
      ensures Extends(old(entries), old(authors), entries, authors)
      ensures GetCommitment(old(entries), commitmentAddress).Err? ==>
        r == Err(GetCommitment(old(entries), commitmentAddress).error) &&
        entries == old(entries) && authors == old(authors)
      ensures GetCommitment(old(entries), commitmentAddress).Ok? ==>
        var c := GetCommitment(old(entries), commitmentAddress).value;
        var e := MoveEntry(BuildMove(component, commitmentAddress, challengerId, c));
        && (r.Ok? <==> agent == c.hostId && old(authors)[commitmentAddress] == challengerId)
        && (r.Ok? ==> r.value == addressOf(e) && Stored(old(entries), old(authors), entries, authors, r.value, e, agent))
        && (r.Err? ==> entries == old(entries) && authors == old(authors))
    {
      var got := GetCommitment(entries, commitmentAddress);
      if got.Err? {
        return Err(got.error);
      }
      var m := BuildMove(component, commitmentAddress, challengerId, got.value);
      NewMoveAcceptedIff(entries, authors, component, commitmentAddress, challengerId, agent);
      r := CommitEntry(agent, MoveEntry(m));
    }

    /** `handle_new_game_result`: build the result with `create_game_result`
        and commit it. */
    method NewGameResult(agent: Address, revealed: Reveal, moveAddress: Address,
                         hostId: Address) returns (r: Result<Address>)
      requires Valid()
      modifies this
      ensures Valid()
      ensures Extends(old(entries), old(authors), entries, authors)
      ensures GetMove(old(entries), moveAddress).Err? ==>
        r == Err(GetMove(old(entries), moveAddress).error) && entries == old(entries) && authors == old(authors)
      ensures GetMove(old(entries), moveAddress).Ok? ==>
        var m := GetMove(old(entries), moveAddress).value;
        var e := GameResultEntry(BuildGameResult(revealed, moveAddress, hostId, m));
        && (r.Ok? <==> hash(revealed) == m.hash && hostId == old(authors)[moveAddress])
        && (r.Ok? ==> r.value == addressOf(e) && Stored(old(entries), old(authors), entries, authors, r.value, e, agent))
        && (r.Err? ==> entries == old(entries) && authors == old(authors))
    {
      var created := CreateGameResult(entries, revealed, moveAddress, hostId);
      if created.Err? {
        return Err(created.error);
      }
      NewGameResultAcceptedIff(entries, authors, hash, revealed, moveAddress, hostId);
      r := CommitEntry(agent, GameResultEntry(created.value));
    }
  }

  /** Under injective content addressing, a stored entry is found at its address. */
  lemma StoredIsFound(entries0: map<Address, Entry>, authors0: map<Address, Address>,
                      entries1: map<Address, Entry>, authors1: map<Address, Address>,
                      addressOf: Entry -> Address, e: Entry, agent: Address)
    requires forall e1, e2 :: addressOf(e1) == addressOf(e2) ==> e1 == e2
    requires forall k :: k in entries0 ==> addressOf(entries0[k]) == k
    requires Stored(entries0, authors0, entries1, authors1, addressOf(e), e, agent)
    ensures addressOf(e) in entries1 && entries1[addressOf(e)] == e
    ensures addressOf(e) !in entries0 ==> authors1[addressOf(e)] == agent
  {
    if addressOf(e) in entries0 {
      assert addressOf(entries0[addressOf(e)]) == addressOf(e);
    }
  }

  /** The integration test's successful round, as a client of the Ledger:
      on a fresh ledger Alice offers Bob a game, Bob commits to Rock, Alice
      plays Paper, Bob reveals; every step succeeds and Alice wins. Distinct
      content is assumed to get distinct addresses. */
  method SuccessfulRound(ledger: Ledger, alice: Address, bob: Address, formatId: string, nonce: string)
    returns (resultAddress: Address)
    requires ledger.Valid() && ledger.entries == map[]
    requires forall e1, e2 :: ledger.addressOf(e1) == ledger.addressOf(e2) ==> e1 == e2
    modifies ledger
    ensures ledger.Valid()
    ensures resultAddress in ledger.entries && ledger.entries[resultAddress].GameResultEntry?
    ensures var gr := ledger.entries[resultAddress].result;
      gr.Win? && gr.winnerId == alice && gr.loserId == bob && gr.revealed == Reveal(Rock, nonce)
  {
    var offer := OfferEntry(Offer(bob, formatId));
    var offerAddress := ledger.NewOffer(alice, bob, formatId);
    assert ledger.entries == map[ledger.addressOf(offer) := offer];
    assert ledger.authors == map[ledger.addressOf(offer) := alice];

    var commitment := CommitmentEntry(BuildCommitment(ledger.hash, Rock, nonce, offerAddress.value, alice, Offer(bob, formatId)));
    var commitmentAddress := ledger.NewCommitment(bob, Rock, offerAddress.value, alice, nonce);
    assert commitmentAddress.Ok?;
    assert ledger.addressOf(commitment) != ledger.addressOf(offer);
    assert ledger.entries[ledger.addressOf(commitment)] == commitment;
    assert ledger.authors[ledger.addressOf(commitment)] == bob;

    var mv := MoveEntry(BuildMove(Paper, commitmentAddress.value, bob, commitment.commitment));
    var moveAddress := ledger.NewMove(alice, Paper, commitmentAddress.value, bob);
    assert moveAddress.Ok?;
    assert ledger.addressOf(mv) !in old(ledger.entries);
    assert ledger.entries[ledger.addressOf(mv)] == mv;
    assert ledger.authors[ledger.addressOf(mv)] == alice;

    var gr := GameResultEntry(BuildGameResult(Reveal(Rock, nonce), moveAddress.value, alice, mv.move));
    var entries3, authors3 := ledger.entries, ledger.authors;
    var gameResultAddress := ledger.NewGameResult(bob, Reveal(Rock, nonce), moveAddress.value, alice);
    assert gameResultAddress.Ok?;
    StoredIsFound(entries3, authors3, ledger.entries, ledger.authors, ledger.addressOf, gr, bob);
    resultAddress := gameResultAddress.value;
  }
}
