/** The outcome resolver: a first-match decision over the two components'
    own `winsAgainst` / `losesAgainst` lists. */
module Resolver {
  import opened Records

  const HostWins := "host"
  const ChallengerWins := "challenger"
  const NoWinner := "draw"

  /** `resolve_components`: four checks in a fixed order, first hit wins, else "draw". */
  function ResolveComponents(host: Component, challenger: Component): (r: string)
    ensures r == HostWins || r == ChallengerWins || r == NoWinner
    ensures r == NoWinner <==> !Beats(host, challenger) && !Beats(challenger, host)
    ensures r == HostWins ==> Beats(host, challenger)
    ensures r == ChallengerWins ==> Beats(challenger, host)
    // when each list claims a win over the other, the first check decides
    ensures Beats(host, challenger) && Beats(challenger, host) ==>
      (r == HostWins <==> challenger.name in host.winsAgainst)
  {
    if challenger.name in host.winsAgainst then HostWins
    else if host.name in challenger.winsAgainst then ChallengerWins
    else if challenger.name in host.losesAgainst then ChallengerWins
    else if host.name in challenger.losesAgainst then HostWins
    else NoWinner
  }

  /** Reference relation: `a` beats `b` when either list records it. */
  predicate Beats(a: Component, b: Component)
  {
    b.name in a.winsAgainst || a.name in b.losesAgainst
  }

  /** The two components' lists do not claim that each beats the other. */
  predicate ConsistentPair(a: Component, b: Component)
  {
    !(Beats(a, b) && Beats(b, a))
  }

  /** The verdict seen from the other seat. */
  function SwapRoles(verdict: string): string
  {
    if verdict == HostWins then ChallengerWins
    else if verdict == ChallengerWins then HostWins
    else verdict
  }

  /** On a consistent pair the verdict is exactly the reference relation. */
  lemma ResolveMatchesBeats(host: Component, challenger: Component)
    requires ConsistentPair(host, challenger)
    ensures ResolveComponents(host, challenger) == HostWins <==> Beats(host, challenger)
    ensures ResolveComponents(host, challenger) == ChallengerWins <==> Beats(challenger, host)
  {
  }

  /** Seat symmetry: exchanging host and challenger exchanges the verdict. */
  lemma ResolveRoleSymmetric(a: Component, b: Component)
    requires ConsistentPair(a, b)
    ensures ResolveComponents(b, a) == SwapRoles(ResolveComponents(a, b))
  {
    ResolveMatchesBeats(a, b);
    ResolveMatchesBeats(b, a);
  }

  /** Without consistency the symmetry fails: two components that each list the
      other in `winsAgainst` both resolve to "host", whichever seat they take. */
  lemma ContradictoryListsFavourHost()
    ensures var a := Component("A", ["B"], []);
            var b := Component("B", ["A"], []);
            ResolveComponents(a, b) == HostWins && ResolveComponents(b, a) == HostWins &&
            ResolveComponents(b, a) != SwapRoles(ResolveComponents(a, b))
  {
  }

  /** A component that does not list its own name draws against itself. */
  lemma IdenticalComponentsDraw(c: Component)
    requires c.name !in c.winsAgainst && c.name !in c.losesAgainst
    ensures ResolveComponents(c, c) == NoWinner
  {
  }

  /** A format whose components never claim a win over a same-named
      component and never claim mutual wins. */
  predicate WellFormedFormat(f: Format)
  {
    forall i, j :: 0 <= i < |f.moves| && 0 <= j < |f.moves| ==>
      ConsistentPair(f.moves[i], f.moves[j]) &&
      (f.moves[i].name == f.moves[j].name ==> !Beats(f.moves[i], f.moves[j]))
  }

  /** Every two differently named components of the format are related. */
  predicate PopulatedFormat(f: Format)
  {
    forall i, j :: 0 <= i < |f.moves| && 0 <= j < |f.moves| ==>
      f.moves[i].name != f.moves[j].name ==>
      Beats(f.moves[i], f.moves[j]) || Beats(f.moves[j], f.moves[i])
  }

  /** Move membership in a format, the check the zome leaves as a TODO. */
  predicate ComponentInFormat(c: Component, f: Format)
  {
    c in f.moves
  }

  /** In a well-formed, fully populated format, name equality is the sole draw condition. */
  lemma DrawIffSameName(f: Format, host: Component, challenger: Component)
    requires WellFormedFormat(f) && PopulatedFormat(f)
    requires ComponentInFormat(host, f) && ComponentInFormat(challenger, f)
    ensures ResolveComponents(host, challenger) == NoWinner <==> host.name == challenger.name
  {
    var i :| 0 <= i < |f.moves| && f.moves[i] == host;
    var j :| 0 <= j < |f.moves| && f.moves[j] == challenger;
    assert ConsistentPair(f.moves[i], f.moves[j]);
    assert ConsistentPair(f.moves[j], f.moves[i]);
  }

  /** The components of the repository's integration tests. */
  const Rock := Component("Rock", ["Scissors"], ["Paper"])
  const Paper := Component("Paper", ["Rock"], ["Scissors"])
  const Scissors := Component("Scissors", ["Paper"], ["Rock"])

  const RockPaperScissors := Format([Rock, Paper, Scissors])

  lemma RockPaperScissorsWellFormed()
    ensures WellFormedFormat(RockPaperScissors)
    ensures PopulatedFormat(RockPaperScissors)
  {
    var m := RockPaperScissors.moves;
    forall i, j | 0 <= i < 3 && 0 <= j < 3
      ensures ConsistentPair(m[i], m[j])
      ensures m[i].name == m[j].name ==> !Beats(m[i], m[j])
      ensures m[i].name != m[j].name ==> Beats(m[i], m[j]) || Beats(m[j], m[i])
    {
      assert i == 0 || i == 1 || i == 2;
      assert j == 0 || j == 1 || j == 2;
    }
  }
}
