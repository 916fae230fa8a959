// Consensus endpoints for oracle releases: a round-robin picker and the release
// loop that consumes it.
module RoundRobin {
  import opened Seqs
  import opened Strings
  import opened Wrappers

  // The comma-separated list, trimmed, without blanks; clPrivate when nothing is left.
  function Pool(uris: Option<string>, clPrivate: string): (r: seq<string>)
    ensures r != []
  {
    var trimmed := Map((u: string) => Trim(u), Split(uris.GetOr(""), ','));
    var listed := Select((u: string) => u != "", (u: string) => u, trimmed);
    if listed != [] then listed else [clPrivate]
  }

  class ConsensusPicker {
    const consensusPool: seq<string>
    var consensusIndex: nat

    constructor (uris: Option<string>, clPrivate: string)
      ensures consensusPool == Pool(uris, clPrivate) && consensusIndex == 0
    {
      consensusPool := Pool(uris, clPrivate);
      consensusIndex := 0;
    }

    method Next() returns (uri: string)
      requires consensusPool != []
      modifies this
      ensures uri == consensusPool[old(consensusIndex) % |consensusPool|]
      ensures consensusIndex == old(consensusIndex) + 1
    {
      uri := consensusPool[consensusIndex % |consensusPool|];
      consensusIndex := consensusIndex + 1;
    }
  }

  // running: what isReleaseRunning reports.
  datatype Release = Release(name: string, command: string, running: bool)

  predicate Skipped(r: Release) {
    r.running && r.command != "performance_collector" && r.command != "performance_web_server"
  }

  predicate UsesPerformance(r: Release, performanceUri: Option<string>) {
    r.command == "performance_collector" && performanceUri.Some? && performanceUri.value != ""
  }

  predicate TakesTurn(r: Release, performanceUri: Option<string>) {
    !Skipped(r) && !UsesPerformance(r, performanceUri)
  }

  // How many of the releases take a turn of the picker.
  function Turns(rs: seq<Release>, performanceUri: Option<string>): nat {
    if rs == [] then 0
    else Turns(rs[..|rs| - 1], performanceUri) + (if TakesTurn(rs[|rs| - 1], performanceUri) then 1 else 0)
  }

  // Skipped releases and the one on the performance endpoint take no turn; every
  // other release gets the pool entry of its own turn.
  function EndpointAt(pool: seq<string>, start: nat, rs: seq<Release>, performanceUri: Option<string>,
                      i: nat): Option<string>
    requires pool != [] && i < |rs|
  {
    if Skipped(rs[i]) then None
    else if UsesPerformance(rs[i], performanceUri) then performanceUri
    else Some(pool[(start + Turns(rs[..i], performanceUri)) % |pool|])
  }

  method AssignEndpoints(picker: ConsensusPicker, releases: seq<Release>, performanceUri: Option<string>)
    returns (uris: seq<Option<string>>)
    requires picker.consensusPool != []
    modifies picker
    ensures |uris| == |releases|
    ensures picker.consensusIndex == old(picker.consensusIndex) + Turns(releases, performanceUri)
    ensures forall i :: 0 <= i < |releases| ==>
      uris[i] == EndpointAt(picker.consensusPool, old(picker.consensusIndex), releases, performanceUri, i)
  {
    ghost var start := picker.consensusIndex;
    uris := [];
    for k := 0 to |releases|
      invariant |uris| == k
      invariant picker.consensusIndex == start + Turns(releases[..k], performanceUri)
      invariant forall i :: 0 <= i < k ==>
        uris[i] == EndpointAt(picker.consensusPool, start, releases, performanceUri, i)
    {
      var release := releases[k];
      assert releases[..k + 1][..k] == releases[..k];
      if release.running && release.command != "performance_collector" && release.command != "performance_web_server" {
        uris := uris + [None];
        continue;
      }
      if release.command == "performance_collector" && performanceUri.Some? && performanceUri.value != "" {
        uris := uris + [performanceUri];
      } else {
        var uri := picker.Next();
        uris := uris + [Some(uri)];
      }
    }
    assert releases[..|releases|] == releases;
  }

  // How often position p is picked in the first m turns over a pool of size l.
  function PickCount(l: nat, m: nat, p: nat): nat
    requires l > 0
  {
    if m == 0 then 0 else PickCount(l, m - 1, p) + (if (m - 1) % l == p then 1 else 0)
  }

  lemma NextTurn(l: nat, m: nat)
    requires l > 0 && m > 0
    ensures if (m - 1) % l == l - 1 then m / l == (m - 1) / l + 1 && m % l == 0
            else m / l == (m - 1) / l && m % l == (m - 1) % l + 1
  {
    var q, r := (m - 1) / l, (m - 1) % l;
    assert m - 1 == q * l + r;
    if r == l - 1 {
      assert m == (q + 1) * l;
      DivMod(m, l, q + 1, 0);
    } else {
      DivMod(m, l, q, r + 1);
    }
  }

  lemma DivMod(m: nat, l: nat, q: nat, r: nat)
    requires l > 0 && r < l && m == q * l + r
    ensures m / l == q && m % l == r
  {
    assert m == (m / l) * l + m % l;
    if m / l > q {
      MulMonotone(q + 1, m / l, l);
    } else if m / l < q {
      MulMonotone(m / l + 1, q, l);
    }
  }

  lemma MulMonotone(a: nat, b: nat, l: nat)
    requires a <= b
    ensures a * l <= b * l
  {
  }

  // Fairness: after m turns every pool position has been picked floor(m/l) or
  // ceil(m/l) times, the extra pick going to the first m mod l positions.
  lemma {:induction false} PicksAreFair(l: nat, m: nat, p: nat)
    requires p < l
    ensures PickCount(l, m, p) == m / l + (if p < m % l then 1 else 0)
  {
    if m == 0 {
    } else {
      PicksAreFair(l, m - 1, p);
      NextTurn(l, m);
    }
  }

  // How many releases the fresh picker sends to pool position p.
  function AssignedTo(l: nat, rs: seq<Release>, performanceUri: Option<string>, p: nat): nat
    requires l > 0
  {
    if rs == [] then 0
    else
      var front, last := rs[..|rs| - 1], rs[|rs| - 1];
      AssignedTo(l, front, performanceUri, p) +
      (if TakesTurn(last, performanceUri) && Turns(front, performanceUri) % l == p then 1 else 0)
  }

  lemma {:induction false} AssignedIsPicked(l: nat, rs: seq<Release>, performanceUri: Option<string>, p: nat)
    requires l > 0
    ensures AssignedTo(l, rs, performanceUri, p) == PickCount(l, Turns(rs, performanceUri), p)
  {
    if rs == [] {
    } else {
      AssignedIsPicked(l, rs[..|rs| - 1], performanceUri, p);
    }
  }

  // So whatever is skipped or sent to the performance endpoint, the releases that
  // take a turn are spread evenly over the pool.
  lemma AssignmentsAreFair(l: nat, rs: seq<Release>, performanceUri: Option<string>, p: nat)
    requires p < l
    ensures AssignedTo(l, rs, performanceUri, p) ==
            Turns(rs, performanceUri) / l + (if p < Turns(rs, performanceUri) % l then 1 else 0)
  {
    AssignedIsPicked(l, rs, performanceUri, p);
    PicksAreFair(l, Turns(rs, performanceUri), p);
  }

  // The releases that take a turn at pool position p.
  ghost function TurnsAt(l: nat, rs: seq<Release>, performanceUri: Option<string>, p: nat): set<nat>
    requires l > 0
  {
    set i: nat | i < |rs| && TakesTurnAt(l, rs, performanceUri, p, i)
  }

  predicate TakesTurnAt(l: nat, rs: seq<Release>, performanceUri: Option<string>, p: nat, i: nat)
    requires l > 0 && i < |rs|
  {
    TakesTurn(rs[i], performanceUri) && Turns(rs[..i], performanceUri) % l == p
  }

  lemma SameTurn(l: nat, rs: seq<Release>, performanceUri: Option<string>, p: nat, i: nat, n: nat)
    requires l > 0 && i < n <= |rs|
    ensures TakesTurnAt(l, rs, performanceUri, p, i) == TakesTurnAt(l, rs[..n], performanceUri, p, i)
  {
    assert rs[..n][..i] == rs[..i];
  }

  lemma TurnsAtNext(l: nat, rs: seq<Release>, performanceUri: Option<string>, p: nat)
    requires l > 0 && rs != []
    ensures var n := |rs| - 1;
      TurnsAt(l, rs, performanceUri, p) ==
      TurnsAt(l, rs[..n], performanceUri, p) + if TakesTurnAt(l, rs, performanceUri, p, n) then {n} else {}
  {
    var n := |rs| - 1;
    forall i: nat | i < n
      ensures i in TurnsAt(l, rs, performanceUri, p) <==> i in TurnsAt(l, rs[..n], performanceUri, p)
    {
      SameTurn(l, rs, performanceUri, p, i, n);
    }
  }

  lemma AssignedNext(l: nat, rs: seq<Release>, performanceUri: Option<string>, p: nat)
    requires l > 0 && rs != []
    ensures var n := |rs| - 1;
      AssignedTo(l, rs, performanceUri, p) ==
      AssignedTo(l, rs[..n], performanceUri, p) + if TakesTurnAt(l, rs, performanceUri, p, n) then 1 else 0
  {
  }

  // Those are the releases counted above,
  lemma {:induction false} AssignedCounts(l: nat, rs: seq<Release>, performanceUri: Option<string>, p: nat)
    requires l > 0
    ensures AssignedTo(l, rs, performanceUri, p) == |TurnsAt(l, rs, performanceUri, p)|
  {
    if rs == [] {
    } else {
      AssignedCounts(l, rs[..|rs| - 1], performanceUri, p);
      AssignedNext(l, rs, performanceUri, p);
      TurnsAtNext(l, rs, performanceUri, p);
    }
  }

  // and a fresh picker sends each of them to that position of its pool.
  lemma AssignedEndpoint(pool: seq<string>, rs: seq<Release>, performanceUri: Option<string>, p: nat, i: nat)
    requires p < |pool| && i < |rs| && TakesTurnAt(|pool|, rs, performanceUri, p, i)
    ensures EndpointAt(pool, 0, rs, performanceUri, i) == Some(pool[p])
  {
  }

  // ---- What the pool holds ----

  // The parts that are not blank, trimmed, in order.
  function Listed(parts: seq<string>): seq<string> {
    if parts == [] then [] else (if Trim(parts[0]) == "" then [] else [Trim(parts[0])]) + Listed(parts[1..])
  }

  lemma {:induction false} SelectsListed(parts: seq<string>)
    ensures Select((u: string) => u != "", (u: string) => u, Map((u: string) => Trim(u), parts)) == Listed(parts)
  {
    if parts == [] {
    } else {
      SelectsListed(parts[1..]);
      assert Map((u: string) => Trim(u), parts)[1..] == Map((u: string) => Trim(u), parts[1..]);
    }
  }

  // The pool of comma-separated text: its parts that are not blank, trimmed, in order;
  // or, without any, the one private endpoint.
  lemma PoolExactly(parts: seq<string>, clPrivate: string)
    requires parts != [] && forall i :: 0 <= i < |parts| ==> ',' !in parts[i]
    ensures Pool(Some(Join(parts, ',')), clPrivate) == if Listed(parts) == [] then [clPrivate] else Listed(parts)
    ensures Pool(None, clPrivate) == [clPrivate]
  {
    JoinExact(parts, ',');
    SelectsListed(parts);
    SelectsListed([""]);
    BlankListed();
  }

  lemma BlankListed()
    ensures Listed([""]) == [] && Split("", ',') == [""]
  {
    assert Trim("") == "" && [""][1..] == [];
  }

  // ---- What a release gets ----

  // A running release is skipped unless it is one of the two performance commands. Of
  // the others, the collector takes the performance endpoint, if there is one; each
  // remaining release takes the entry of its own turn.
  lemma EndpointExactly(pool: seq<string>, start: nat, rs: seq<Release>, performanceUri: Option<string>, i: nat)
    requires pool != [] && i < |rs|
    ensures var e, r := EndpointAt(pool, start, rs, performanceUri, i), rs[i];
      var skipped := r.running && r.command != "performance_collector" && r.command != "performance_web_server";
      var performance := r.command == "performance_collector" && performanceUri.Some? && performanceUri.value != "";
      && (skipped ==> e == None)
      && (!skipped && performance ==> e == performanceUri)
      && (!skipped && !performance ==> e == Some(pool[(start + Turns(rs[..i], performanceUri)) % |pool|]))
      && Turns(rs[..i + 1], performanceUri) == Turns(rs[..i], performanceUri) + if skipped || performance then 0 else 1
  {
    assert rs[..i + 1][..i] == rs[..i];
  }
}
