// Safety of the key lifecycle over every sequence of generations, uses and
// foreign appends.
module KeySafety {
  import opened Credentials
  import opened Keys
  import opened Seqs
  import opened State
  import opened Strings
  import opened Wrappers

  // An append by another command is any list of complete entries.
  datatype Op =
    | GenerateOp(n: int, wcAddress: string, wcType: string)
    | UseOp(name: string, vault: string, wcType: string)
    | ForeignOp(entries: seq<Entry>)

  function Step(derive: Derive, w: World, op: Op): World {
    match op
    case GenerateOp(n, wcAddress, wcType) => Generate(derive, w, n, wcAddress, wcType).0
    case UseOp(name, vault, wcType) => Use(w, name, vault, wcType).0
    case ForeignOp(entries) => w.(validators := Appended(w.validators, entries))
  }

  function Run(derive: Derive, w: World, ops: seq<Op>): World
    decreases |ops|
  {
    if ops == [] then w else Run(derive, Step(derive, w, ops[0]), ops[1..])
  }

  function Empty(fallback: Option<seq<Record>>): World {
    World(Validators(None, None), fallback, map[], [], [])
  }

  function Records(w: World): seq<Record> {
    w.validators.depositData.GetOr([])
  }

  // ---- Conservation: dumped keys are exactly the used ones ----

  function UsedDeposits(records: seq<Record>): seq<Deposit> {
    Select((r: Record) => r.used, (r: Record) => r.deposit, records)
  }

  // Every key written by any use, in order.
  function Dumped(log: seq<Dump>): seq<Deposit> {
    if log == [] then [] else Dumped(log[..|log| - 1]) + log[|log| - 1].keys
  }

  // The dump files after a log: each dump under its name, later ones overwriting.
  function Written(files: map<string, seq<Deposit>>, log: seq<Dump>): map<string, seq<Deposit>> {
    if log == [] then files
    else
      var last := log[|log| - 1];
      Written(files, log[..|log| - 1])[last.name := last.keys]
  }

  lemma {:induction false} FreshAreUnused(entries: seq<Entry>)
    ensures UsedDeposits(Map((e: Entry) => Record(e.deposit, false), entries)) == []
  {
    if entries == [] {
    } else {
      FreshAreUnused(entries[1..]);
      assert Map((e: Entry) => Record(e.deposit, false), entries)[1..] ==
             Map((e: Entry) => Record(e.deposit, false), entries[1..]);
    }
  }

  lemma UsedFirst(records: seq<Record>)
    requires records != []
    ensures multiset(UsedDeposits(records)) ==
            multiset(if records[0].used then [records[0].deposit] else []) + multiset(UsedDeposits(records[1..]))
  {
  }

  // Marking moves exactly the dumped keys from unused to used.
  lemma {:induction false} MarkingConserves(records: seq<Record>, wc: string)
    ensures multiset(UsedDeposits(MarkUsed(records, wc))) ==
            multiset(UsedDeposits(records)) + multiset(Unused(records, wc))
  {
    if records == [] {
    } else {
      var marked := MarkUsed(records, wc);
      assert marked[1..] == MarkUsed(records[1..], wc);
      UnusedFirst(records, wc);
      MarkingConserves(records[1..], wc);
      UsedFirst(records);
      UsedFirst(marked);
    }
  }

  lemma UnusedFirst(records: seq<Record>, wc: string)
    requires records != []
    ensures Unused(records, wc) ==
      (if records[0].deposit.credentials == wc && !records[0].used then [records[0].deposit] else []) +
      Unused(records[1..], wc)
  {
    var rest := WithCredentials(records[1..], wc);
    if records[0].deposit.credentials == wc {
      assert WithCredentials(records, wc)[1..] == rest;
    } else {
      assert WithCredentials(records, wc) == rest;
    }
  }

  // After a use, no key with those credentials is left unused.
  lemma {:induction false} MarkingExhausts(records: seq<Record>, wc: string)
    ensures Unused(MarkUsed(records, wc), wc) == []
  {
    if records == [] {
    } else {
      MarkingExhausts(records[1..], wc);
      assert MarkUsed(records, wc)[1..] == MarkUsed(records[1..], wc);
      UnusedFirst(MarkUsed(records, wc), wc);
    }
  }

  // ---- The invariant ----

  ghost predicate Aligned(v: Validators) {
    && (v.depositData.Some? <==> v.keystores.Some?)
    && (v.depositData.Some? ==>
          && |v.depositData.value| == |v.keystores.value|
          && forall p :: 0 <= p < |v.depositData.value| ==>
               v.keystores.value[p].pubkey == v.depositData.value[p].deposit.pubkey)
  }

  // Every interval lies inside the store, and its positions hold the keys
  // derived at those very indices.
  ghost predicate IntervalHeld(derive: Derive, v: Validators, i: Interval) {
    && i.count > 0
    && i.start + i.count <= |v.depositData.GetOr([])|
    && forall p :: i.start <= p < i.start + i.count ==> v.depositData.GetOr([])[p].deposit.pubkey == derive(p)
  }

  ghost predicate Ordered(derived: seq<Interval>) {
    forall i, j :: 0 <= i < j < |derived| ==> derived[i].start + derived[i].count <= derived[j].start
  }

  ghost predicate Inv(derive: Derive, w: World) {
    && w.fallback == None
    && Aligned(w.validators)
    && multiset(Dumped(w.log)) == multiset(UsedDeposits(Records(w)))
    && w.files == Written(map[], w.log)
    && (forall i :: 0 <= i < |w.log| ==> w.log[i].keys != [])
    && Ordered(w.derived)
    && forall i :: i in w.derived ==> IntervalHeld(derive, w.validators, i)
  }

  lemma AppendUsesNothing(v: Validators, entries: seq<Entry>)
    ensures UsedDeposits(Appended(v, entries).depositData.value) == UsedDeposits(v.depositData.GetOr([]))
  {
    FreshAreUnused(entries);
    SelectConcat((r: Record) => r.used, (r: Record) => r.deposit, v.depositData.GetOr([]),
                 Map((e: Entry) => Record(e.deposit, false), entries));
  }

  lemma AppendAligned(v: Validators, entries: seq<Entry>)
    requires Aligned(v)
    ensures Aligned(Appended(v, entries))
  {
  }

  lemma AppendKeepsInv(derive: Derive, w: World, entries: seq<Entry>)
    requires Inv(derive, w)
    ensures Inv(derive, w.(validators := Appended(w.validators, entries)))
  {
    AppendUsesNothing(w.validators, entries);
    AppendAligned(w.validators, entries);
  }

  lemma FreshIntervalHeld(derive: Derive, v: Validators, entries: seq<Entry>)
    requires entries != []
    requires forall i :: 0 <= i < |entries| ==> entries[i].deposit.pubkey == derive(|v.depositData.GetOr([])| + i)
    ensures IntervalHeld(derive, Appended(v, entries), Interval(|v.depositData.GetOr([])|, |entries|))
  {
  }

  lemma OrderedExtends(derive: Derive, w: World, i: Interval)
    requires Inv(derive, w) && i.start == |Records(w)|
    ensures Ordered(w.derived + [i])
  {
    forall k | 0 <= k < |w.derived| ensures w.derived[k].start + w.derived[k].count <= i.start {
      assert w.derived[k] in w.derived;
    }
  }

  lemma IntervalKeepsInv(derive: Derive, w: World, i: Interval)
    requires Inv(derive, w) && IntervalHeld(derive, w.validators, i) && Ordered(w.derived + [i])
    ensures Inv(derive, w.(derived := w.derived + [i]))
  {
  }

  lemma DerivedKeepsInv(derive: Derive, w: World, entries: seq<Entry>)
    requires Inv(derive, w) && entries != []
    requires forall i :: 0 <= i < |entries| ==> entries[i].deposit.pubkey == derive(|Records(w)| + i)
    ensures Inv(derive, w.(validators := Appended(w.validators, entries),
                           derived := w.derived + [Interval(|Records(w)|, |entries|)]))
  {
    var w1, i := w.(validators := Appended(w.validators, entries)), Interval(|Records(w)|, |entries|);
    AppendKeepsInv(derive, w, entries);
    assert IntervalHeld(derive, w1.validators, i) by { FreshIntervalHeld(derive, w.validators, entries); }
    assert Ordered(w1.derived + [i]) by { OrderedExtends(derive, w, i); }
    IntervalKeepsInv(derive, w1, i);
  }

  lemma GenerateKeepsInv(derive: Derive, w: World, n: int, wcAddress: string, wcType: string)
    requires Inv(derive, w)
    ensures Inv(derive, Generate(derive, w, n, wcAddress, wcType).0)
  {
    if CheckGeneration(n, wcAddress, wcType).None? {
      DerivedKeepsInv(derive, w, Entries(derive, ToLower(wcType), wcAddress, |Records(w)|, n));
    }
  }

  lemma DumpedNext(log: seq<Dump>, d: Dump)
    ensures Dumped(log + [d]) == Dumped(log) + d.keys
    ensures forall files :: Written(files, log + [d]) == Written(files, log)[d.name := d.keys]
  {
    assert (log + [d])[..|log|] == log;
  }

  lemma MarkKeepsStore(derive: Derive, v: Validators, wc: string, derived: seq<Interval>)
    requires v.depositData.Some? && Aligned(v)
    requires forall i :: i in derived ==> IntervalHeld(derive, v, i)
    ensures Aligned(Rewritten(v, MarkUsed(v.depositData.value, wc)))
    ensures forall i :: i in derived ==> IntervalHeld(derive, Rewritten(v, MarkUsed(v.depositData.value, wc)), i)
  {
  }

  lemma AllocationKeepsInv(derive: Derive, w: World, name: string, wc: string)
    requires Inv(derive, w) && w.validators.depositData.Some? && Unused(Records(w), wc) != []
    ensures Inv(derive, w.(validators := Rewritten(w.validators, MarkUsed(Records(w), wc)),
                           files := w.files[name := Unused(Records(w), wc)],
                           log := w.log + [Dump(name, Unused(Records(w), wc))]))
  {
    MarkKeepsStore(derive, w.validators, wc, w.derived);
    MarkingConserves(Records(w), wc);
    DumpedNext(w.log, Dump(name, Unused(Records(w), wc)));
  }

  lemma UseKeepsInv(derive: Derive, w: World, name: string, vault: string, wcType: string)
    requires Inv(derive, w)
    ensures Inv(derive, Use(w, name, vault, wcType).0)
  {
    var w' := Use(w, name, vault, wcType).0;
    if w' != w {
      AllocationKeepsInv(derive, w, name, CredentialFilter(ToLower(wcType), vault));
    }
  }

  lemma {:induction false} RunKeepsInv(derive: Derive, w: World, ops: seq<Op>)
    requires Inv(derive, w)
    ensures Inv(derive, Run(derive, w, ops))
    decreases |ops|
  {
    if ops == [] {
    } else {
      match ops[0] {
        case GenerateOp(n, wcAddress, wcType) => GenerateKeepsInv(derive, w, n, wcAddress, wcType);
        case UseOp(name, vault, wcType) => UseKeepsInv(derive, w, name, vault, wcType);
        case ForeignOp(entries) => AppendKeepsInv(derive, w, entries);
      }
      RunKeepsInv(derive, Step(derive, w, ops[0]), ops[1..]);
    }
  }

  // ---- Main results: every run from an empty store without a fallback file ----

  // No key is used without a dump or dumped twice: counting repeats, the keys of
  // all dumps ever written are exactly the keys marked used. Whether a dump is
  // still in its file is DumpSurvives.
  lemma KeysConserved(derive: Derive, ops: seq<Op>)
    ensures var w := Run(derive, Empty(None), ops);
      multiset(Dumped(w.log)) == multiset(UsedDeposits(Records(w)))
  {
    RunKeepsInv(derive, Empty(None), ops);
  }

  // Index intervals of successive generations never overlap, each key sits at
  // its own derivation index, and the two lists stay aligned.
  lemma IndicesNeverReused(derive: Derive, ops: seq<Op>)
    ensures var w := Run(derive, Empty(None), ops);
      && Aligned(w.validators)
      && Ordered(w.derived)
      && forall i :: i in w.derived ==> IntervalHeld(derive, w.validators, i)
  {
    RunKeepsInv(derive, Empty(None), ops);
  }

  // The records a command works on.
  function Visible(w: World): seq<Record> {
    Current(w.validators, w.fallback).GetOr([])
  }

  // A successful use empties the pool of its credentials, changes nothing but
  // "used" flags, and dumps exactly what was unused.
  lemma UseEffect(w: World, name: string, vault: string, wcType: string)
    requires Use(w, name, vault, wcType).1 == None
    ensures var w', wc := Use(w, name, vault, wcType).0, CredentialFilter(ToLower(wcType), vault);
      && Unused(Records(w'), wc) == [] && w'.validators.depositData.Some?
      && w'.log == w.log + [Dump(name, Unused(Visible(w), wc))] && Unused(Visible(w), wc) != []
      && w'.files == w.files[name := Unused(Visible(w), wc)]
      && |Records(w')| == |Visible(w)|
      && (forall p :: 0 <= p < |Visible(w)| ==> Records(w')[p].deposit == Visible(w)[p].deposit)
      && (forall p :: 0 <= p < |Visible(w)| && Visible(w)[p].deposit.credentials == wc ==> Records(w')[p].used)
      && (forall p :: 0 <= p < |Visible(w)| && Visible(w)[p].deposit.credentials != wc ==>
            Records(w')[p] == Visible(w)[p])
      && (w.validators.keystores.Some? ==> w'.validators.keystores == w.validators.keystores)
      && w'.fallback == w.fallback && w'.derived == w.derived
  {
    MarkingExhausts(Visible(w), CredentialFilter(ToLower(wcType), vault));
  }

  lemma {:induction false} UnusedEmpty(records: seq<Record>, wc: string)
    ensures Unused(records, wc) == [] <==>
            forall p :: 0 <= p < |records| && records[p].deposit.credentials == wc ==> records[p].used
  {
    if records == [] {
    } else {
      UnusedFirst(records, wc);
      UnusedEmpty(records[1..], wc);
      assert forall p :: 0 <= p < |records[1..]| ==> records[1..][p] == records[p + 1];
      assert forall p :: 1 <= p < |records| ==> records[p] == records[1..][p - 1];
    }
  }

  // When a use fails, and with what; a failing one changes nothing.
  lemma UseErrors(w: World, name: string, vault: string, wcType: string)
    ensures var (w', e) := Use(w, name, vault, wcType);
      var listed := w.validators.depositData.Some? || w.fallback.Some?;
      var typed := ToLower(wcType) in ["0x01", "0x02"];
      var wc := CredentialFilter(ToLower(wcType), vault);
      && (e == Some(DepositDataNotFound) <==> !listed)
      && (e == Some(InvalidWcType) <==> listed && !typed)
      && (e == Some(NoUnusedKeys) <==> listed && typed && AllUsed(Visible(w), wc))
      && (e == None <==> listed && typed && !AllUsed(Visible(w), wc))
      && (e != None ==> w' == w)
  {
    UnusedEmpty(Visible(w), CredentialFilter(ToLower(wcType), vault));
  }

  ghost predicate AllUsed(records: seq<Record>, wc: string) {
    forall p :: 0 <= p < |records| && records[p].deposit.credentials == wc ==> records[p].used
  }

  // ---- What a generation stores ----

  function KeystorePath(index: nat): string {
    "m/12381/3600/" + Decimal(index) + "/0/0"
  }

  // Entry by entry, for both types and any letter case.
  lemma EntryHolds(derive: Derive, wcType: string, wcAddress: string, index: nat)
    requires IsAddress(wcAddress) && IsWcType(wcType)
    ensures EntryAt(derive, wcType, wcAddress, index) ==
            Entry(Deposit(derive(index), CredentialFilter(wcType, wcAddress)), KeystorePath(index))
  {
    CredentialsAgree(wcType, wcAddress);
  }

  // The i-th of n appended entries, behind what was stored.
  ghost predicate HoldsAt(v: Validators, v': Validators, n: nat, i: nat, e: Entry)
    requires i < n
  {
    var m, k := |v.depositData.GetOr([])|, |v.keystores.GetOr([])|;
    && v'.depositData.Some? && v'.keystores.Some?
    && |v'.depositData.value| == m + n && |v'.keystores.value| == k + n
    && v'.depositData.value[..m] == v.depositData.GetOr([]) && v'.keystores.value[..k] == v.keystores.GetOr([])
    && v'.depositData.value[m + i] == Record(e.deposit, false)
    && v'.keystores.value[k + i] == Keystore(e.deposit.pubkey, e.path)
  }

  lemma AppendedAt(v: Validators, entries: seq<Entry>, i: nat)
    requires i < |entries|
    ensures HoldsAt(v, Appended(v, entries), |entries|, i, entries[i])
  {
  }

  lemma GenerateAppends(derive: Derive, w: World, n: int, wcAddress: string, wcType: string)
    requires Generate(derive, w, n, wcAddress, wcType).1 == None
    ensures n > 0 && IsAddress(wcAddress) && IsWcType(ToLower(wcType))
    ensures Generate(derive, w, n, wcAddress, wcType).0 ==
            w.(validators := Appended(w.validators, Entries(derive, ToLower(wcType), wcAddress, |Visible(w)|, n)),
               derived := w.derived + [Interval(|Visible(w)|, n)])
  {
  }

  // A generation keeps what is stored and appends, for the i-th index after the
  // visible records, an unused record and a keystore of that index.
  lemma GeneratedRecords(derive: Derive, w: World, n: int, wcAddress: string, wcType: string, i: nat)
    requires Generate(derive, w, n, wcAddress, wcType).1 == None && i < n
    ensures var w' := Generate(derive, w, n, wcAddress, wcType).0;
      var wc, index := CredentialFilter(ToLower(wcType), wcAddress), |Visible(w)| + i;
      && HoldsAt(w.validators, w'.validators, n, i, Entry(Deposit(derive(index), wc), KeystorePath(index)))
      && w' == w.(validators := w'.validators, derived := w.derived + [Interval(|Visible(w)|, n)])
  {
    var lowered, start := ToLower(wcType), |Visible(w)|;
    GenerateAppends(derive, w, n, wcAddress, wcType);
    var entries := Entries(derive, lowered, wcAddress, start, n);
    assert entries[i] == EntryAt(derive, lowered, wcAddress, start + i);
    EntryHolds(derive, lowered, wcAddress, start + i);
    AppendedAt(w.validators, entries, i);
  }

  // When a generation fails, and with what; a failing one changes nothing.
  lemma GenerateErrors(derive: Derive, w: World, n: int, wcAddress: string, wcType: string)
    ensures var (w', e) := Generate(derive, w, n, wcAddress, wcType);
      && (e == Some(InvalidCount) <==> n <= 0)
      && (e == Some(InvalidAddress) <==> n > 0 && !IsAddress(wcAddress))
      && (e == Some(InvalidWcType) <==> n > 0 && IsAddress(wcAddress) && ToLower(wcType) !in ["0x01", "0x02"])
      && (e == None <==> n > 0 && IsAddress(wcAddress) && ToLower(wcType) in ["0x01", "0x02"])
      && (e != None ==> w' == w)
  {
  }

  // ---- Disjoint dumps ----

  function Deposits(records: seq<Record>): seq<Deposit> {
    Map((r: Record) => r.deposit, records)
  }

  lemma {:induction false} UsedAmong(records: seq<Record>, d: Deposit)
    requires Distinct(Deposits(records))
    ensures d in UsedDeposits(records) <==> exists p :: 0 <= p < |records| && records[p].used && records[p].deposit == d
    ensures multiset(UsedDeposits(records))[d] <= 1
  {
    if records == [] {
    } else {
      assert Deposits(records)[1..] == Deposits(records[1..]);
      UsedAmong(records[1..], d);
      assert d == records[0].deposit ==> forall p :: 1 <= p < |records| ==> Deposits(records)[p] != d;
      assert forall p :: 0 <= p < |records[1..]| ==> records[1..][p] == records[p + 1];
    }
  }

  ghost predicate InSomeDump(log: seq<Dump>, d: Deposit) {
    exists i :: 0 <= i < |log| && d in log[i].keys
  }

  lemma {:induction false} DumpedAmong(log: seq<Dump>, d: Deposit)
    ensures d in Dumped(log) <==> InSomeDump(log, d)
  {
    if log == [] {
    } else {
      var front := log[..|log| - 1];
      DumpedAmong(front, d);
      assert forall i :: 0 <= i < |front| ==> front[i] == log[i];
      if d in log[|log| - 1].keys { assert InSomeDump(log, d); }
      if InSomeDump(front, d) {
        var i :| 0 <= i < |front| && d in front[i].keys;
        assert d in log[i].keys;
      }
    }
  }

  lemma {:induction false} DumpCounts(log: seq<Dump>, i: nat, j: nat, d: Deposit)
    requires i < j < |log| && d in log[i].keys && d in log[j].keys
    ensures multiset(Dumped(log))[d] >= 2
  {
    var front := log[..|log| - 1];
    assert multiset(Dumped(log)) == multiset(Dumped(front)) + multiset(log[|log| - 1].keys);
    if j == |log| - 1 {
      DumpedAmong(front, d);
      assert d in front[i].keys;
      assert d in multiset(log[j].keys);
      assert d in multiset(Dumped(front));
    } else {
      DumpCounts(front, i, j, d);
    }
  }

  lemma DistinctSafety(log: seq<Dump>, records: seq<Record>, d: Deposit)
    requires Distinct(Deposits(records)) && multiset(Dumped(log)) == multiset(UsedDeposits(records))
    ensures InSomeDump(log, d) <==> exists p :: 0 <= p < |records| && records[p].used && records[p].deposit == d
    ensures forall i, j :: 0 <= i < j < |log| ==> !(d in log[i].keys && d in log[j].keys)
  {
    UsedAmong(records, d);
    DumpedAmong(log, d);
    assert d in Dumped(log) <==> d in multiset(Dumped(log));
    assert d in UsedDeposits(records) <==> d in multiset(UsedDeposits(records));
    forall i, j | 0 <= i < j < |log| && d in log[i].keys && d in log[j].keys ensures false {
      DumpCounts(log, i, j, d);
    }
  }

  // ---- When deposit entries are distinct ----

  ghost predicate Injective(derive: Derive) {
    forall i: nat, j: nat :: derive(i) == derive(j) ==> i == j
  }

  function ForeignDeposits(ops: seq<Op>): seq<Deposit> {
    if ops == [] then []
    else (if ops[0].ForeignOp? then Map((e: Entry) => e.deposit, ops[0].entries) else []) + ForeignDeposits(ops[1..])
  }

  // Pairwise distinct, and none with a key of our own derivation.
  ghost predicate Apart(derive: Derive, deposits: seq<Deposit>) {
    Distinct(deposits) && forall k, i: nat :: 0 <= k < |deposits| ==> deposits[k].pubkey != derive(i)
  }

  // Every record is the own key of its position or an earlier foreign one.
  ghost predicate Mixed(derive: Derive, records: seq<Record>, prior: seq<Deposit>) {
    && Distinct(Deposits(records))
    && forall p :: 0 <= p < |records| ==> records[p].deposit.pubkey == derive(p) || records[p].deposit in prior
  }

  lemma MixedGenerate(derive: Derive, v: Validators, wcType: string, wcAddress: string, n: nat, prior: seq<Deposit>)
    requires Injective(derive) && Apart(derive, prior) && Mixed(derive, v.depositData.GetOr([]), prior)
    ensures var start := |v.depositData.GetOr([])|;
      Mixed(derive, Appended(v, Entries(derive, wcType, wcAddress, start, n)).depositData.value, prior)
  {
    var before := v.depositData.GetOr([]);
    var records := Appended(v, Entries(derive, wcType, wcAddress, |before|, n)).depositData.value;
    forall p | |before| <= p < |records| ensures records[p].deposit.pubkey == derive(p) {
      assert records[p].deposit == EntryAt(derive, wcType, wcAddress, p).deposit;
    }
    forall p, q | 0 <= p < q < |records| ensures records[p].deposit != records[q].deposit {
      if q < |before| {
        assert Deposits(before)[p] != Deposits(before)[q];
      } else {
        assert records[q].deposit.pubkey == derive(q);
      }
    }
  }

  lemma ApartHalves(derive: Derive, a: seq<Deposit>, b: seq<Deposit>)
    requires Apart(derive, a + b)
    ensures Apart(derive, a) && Apart(derive, b)
    ensures forall i, k :: 0 <= i < |a| && 0 <= k < |b| ==> a[i] != b[k]
  {
    assert forall i :: 0 <= i < |a| ==> (a + b)[i] == a[i];
    assert forall k :: 0 <= k < |b| ==> (a + b)[|a| + k] == b[k];
  }

  lemma MixedForeign(derive: Derive, v: Validators, entries: seq<Entry>, prior: seq<Deposit>)
    requires Mixed(derive, v.depositData.GetOr([]), prior)
    requires Apart(derive, prior + Map((e: Entry) => e.deposit, entries))
    ensures Mixed(derive, Appended(v, entries).depositData.value, prior + Map((e: Entry) => e.deposit, entries))
  {
    var before, records := v.depositData.GetOr([]), Appended(v, entries).depositData.value;
    var added := Map((e: Entry) => e.deposit, entries);
    ApartHalves(derive, prior, added);
    forall p | |before| <= p < |records| ensures records[p].deposit == added[p - |before|] {
    }
    forall p, q | 0 <= p < q < |records| ensures records[p].deposit != records[q].deposit {
      if q < |before| {
        assert Deposits(before)[p] != Deposits(before)[q];
      } else if p >= |before| {
        assert added[p - |before|] != added[q - |before|];
      } else {
        assert records[p].deposit == before[p].deposit;
      }
    }
  }

  lemma MixedMark(derive: Derive, records: seq<Record>, wc: string, prior: seq<Deposit>)
    requires Mixed(derive, records, prior)
    ensures Mixed(derive, MarkUsed(records, wc), prior)
  {
    assert Deposits(MarkUsed(records, wc)) == Deposits(records);
  }

  lemma MixedStep(derive: Derive, w: World, op: Op, prior: seq<Deposit>)
    requires w.fallback == None && Injective(derive) && Mixed(derive, Records(w), prior)
    requires Apart(derive, prior + ForeignDeposits([op]))
    ensures Step(derive, w, op).fallback == None
    ensures Mixed(derive, Records(Step(derive, w, op)), prior + ForeignDeposits([op]))
  {
    assert ForeignDeposits([op][1..]) == [];
    match op {
      case GenerateOp(n, wcAddress, wcType) =>
        assert prior + ForeignDeposits([op]) == prior;
        if CheckGeneration(n, wcAddress, wcType).None? {
          MixedGenerate(derive, w.validators, ToLower(wcType), wcAddress, n, prior);
        }
      case UseOp(name, vault, wcType) =>
        assert prior + ForeignDeposits([op]) == prior;
        MixedMark(derive, Records(w), CredentialFilter(ToLower(wcType), vault), prior);
      case ForeignOp(entries) =>
        assert ForeignDeposits([op]) == Map((e: Entry) => e.deposit, entries);
        MixedForeign(derive, w.validators, entries, prior);
    }
  }

  lemma ForeignFirst(ops: seq<Op>)
    requires ops != []
    ensures ForeignDeposits(ops) == ForeignDeposits([ops[0]]) + ForeignDeposits(ops[1..])
  {
    assert [ops[0]][1..] == [];
    assert ForeignDeposits([ops[0]][1..]) == [];
  }

  lemma {:induction false} MixedRun(derive: Derive, w: World, ops: seq<Op>, prior: seq<Deposit>)
    requires w.fallback == None && Injective(derive) && Mixed(derive, Records(w), prior)
    requires Apart(derive, prior + ForeignDeposits(ops))
    ensures Distinct(Deposits(Records(Run(derive, w, ops))))
    decreases |ops|
  {
    if ops == [] {
    } else {
      var first, rest := ForeignDeposits([ops[0]]), ForeignDeposits(ops[1..]);
      ForeignFirst(ops);
      assert prior + ForeignDeposits(ops) == (prior + first) + rest;
      ApartHalves(derive, prior + first, rest);
      MixedStep(derive, w, ops[0], prior);
      MixedRun(derive, Step(derive, w, ops[0]), ops[1..], prior + first);
    }
  }

  // Own keys differ by injective derivation; foreign ones need only differ among
  // themselves and from every key of our own derivation.
  lemma DepositsDistinct(derive: Derive, ops: seq<Op>)
    requires Injective(derive) && Apart(derive, ForeignDeposits(ops))
    ensures Distinct(Deposits(Records(Run(derive, Empty(None), ops))))
  {
    assert [] + ForeignDeposits(ops) == ForeignDeposits(ops);
    MixedRun(derive, Empty(None), ops, []);
  }

  // A key is marked used exactly when some dump was written with it, and no two
  // dumps share a key.
  lemma AllocationSafety(derive: Derive, ops: seq<Op>, d: Deposit)
    requires Injective(derive) && Apart(derive, ForeignDeposits(ops))
    ensures var w := Run(derive, Empty(None), ops);
      && (InSomeDump(w.log, d) <==>
            exists p :: 0 <= p < |Records(w)| && Records(w)[p].used && Records(w)[p].deposit == d)
      && (forall i, j :: 0 <= i < j < |w.log| ==> !(d in w.log[i].keys && d in w.log[j].keys))
  {
    var w := Run(derive, Empty(None), ops);
    DepositsDistinct(derive, ops);
    KeysConserved(derive, ops);
    DistinctSafety(w.log, Records(w), d);
  }

  // ---- The dump files ----

  ghost predicate NamedLater(log: seq<Dump>, i: nat)
    requires i < |log|
  {
    exists j :: i < j < |log| && log[j].name == log[i].name
  }

  lemma {:induction false} LastIsWritten(files: map<string, seq<Deposit>>, log: seq<Dump>, i: nat)
    requires i < |log| && !NamedLater(log, i)
    ensures log[i].name in Written(files, log) && Written(files, log)[log[i].name] == log[i].keys
    decreases |log|
  {
    var front := log[..|log| - 1];
    if i == |log| - 1 {
    } else {
      assert forall j :: 0 <= j < |front| ==> front[j] == log[j];
      assert !NamedLater(front, i);
      LastIsWritten(files, front, i);
    }
  }

  lemma {:induction false} LastOfName(log: seq<Dump>, i: nat) returns (j: nat)
    requires i < |log|
    ensures i <= j < |log| && log[j].name == log[i].name && !NamedLater(log, j)
    ensures j == i <==> !NamedLater(log, i)
    decreases |log| - i
  {
    if NamedLater(log, i) {
      var k :| i < k < |log| && log[k].name == log[i].name;
      j := LastOfName(log, k);
    } else {
      j := i;
    }
  }

  lemma {:induction false} WrittenConcat(files: map<string, seq<Deposit>>, a: seq<Dump>, b: seq<Dump>)
    ensures Written(files, a + b) == Written(Written(files, a), b)
    decreases |b|
  {
    if b == [] {
      assert a + b == a;
    } else {
      assert (a + b)[..|a + b| - 1] == a + b[..|b| - 1];
      WrittenConcat(files, a, b[..|b| - 1]);
    }
  }

  lemma {:induction false} OnlyLoggedNames(files: map<string, seq<Deposit>>, log: seq<Dump>, name: string)
    ensures name in Written(files, log) <==> name in files || exists i :: 0 <= i < |log| && log[i].name == name
  {
    if log == [] {
    } else {
      var front := log[..|log| - 1];
      OnlyLoggedNames(files, front, name);
      assert forall i :: 0 <= i < |front| ==> front[i] == log[i];
      assert log[|log| - 1].name == name ==> exists i :: 0 <= i < |log| && log[i].name == name;
    }
  }

  // In every run, there is a file for exactly the names ever dumped, and it holds
  // the last dump of its name.
  lemma FilesHoldLastDumps(derive: Derive, ops: seq<Op>, name: string)
    ensures var w := Run(derive, Empty(None), ops);
      && (name in w.files <==> exists i :: 0 <= i < |w.log| && w.log[i].name == name)
      && (forall i: nat :: i < |w.log| && w.log[i].name == name && !NamedLater(w.log, i) ==>
            name in w.files && w.files[name] == w.log[i].keys)
  {
    RunKeepsInv(derive, Empty(None), ops);
    var w := Run(derive, Empty(None), ops);
    OnlyLoggedNames(map[], w.log, name);
    forall i: nat | i < |w.log| && w.log[i].name == name && !NamedLater(w.log, i)
      ensures name in w.files && w.files[name] == w.log[i].keys
    {
      LastIsWritten(map[], w.log, i);
    }
  }

  // A dump is still in the file of its name if and only if no later successful use
  // had that name.
  lemma DumpSurvives(derive: Derive, ops: seq<Op>, i: nat)
    requires Injective(derive) && Apart(derive, ForeignDeposits(ops))
    requires i < |Run(derive, Empty(None), ops).log|
    ensures var w := Run(derive, Empty(None), ops);
      w.log[i].name in w.files && (w.files[w.log[i].name] == w.log[i].keys <==> !NamedLater(w.log, i))
  {
    RunKeepsInv(derive, Empty(None), ops);
    var w := Run(derive, Empty(None), ops);
    var j := LastOfName(w.log, i);
    LastIsWritten(map[], w.log, j);
    if NamedLater(w.log, i) {
      AllocationSafety(derive, ops, w.log[i].keys[0]);
      assert w.log[i].keys[0] in w.log[i].keys;
    }
  }

  // ---- The fallback file ----

  predicate Overlap(a: Interval, b: Interval) {
    a.start < b.start + b.count && b.start < a.start + a.count
  }

  ghost predicate PairwiseDisjoint(intervals: seq<Interval>) {
    forall i, j :: 0 <= i < j < |intervals| ==> !Overlap(intervals[i], intervals[j])
  }

  predicate IsGeneration(op: Op) {
    op.GenerateOp? && op.n > 0 && CheckGeneration(op.n, op.wcAddress, op.wcType).None?
  }

  // How many keys each successful generation derives.
  function Counts(ops: seq<Op>): (r: seq<nat>)
    ensures forall i :: 0 <= i < |r| ==> r[i] > 0
  {
    if ops == [] then []
    else if IsGeneration(ops[0]) then [ops[0].n] + Counts(ops[1..])
    else Counts(ops[1..])
  }

  function Total(ns: seq<nat>): nat {
    if ns == [] then 0 else ns[0] + Total(ns[1..])
  }

  // Intervals laid end to end.
  function Chain(start: nat, ns: seq<nat>): (r: seq<Interval>)
    ensures |r| == |ns|
    decreases |ns|
  {
    if ns == [] then [] else [Interval(start, ns[0])] + Chain(start + ns[0], ns[1..])
  }

  ghost predicate OwnOps(ops: seq<Op>) {
    forall op :: op in ops ==> !op.ForeignOp?
  }

  // With a stored list, a generation derives the next indices; nothing else derives
  // any, nor changes how many records there are.
  lemma StepDerived(derive: Derive, w: World, op: Op)
    requires w.validators.depositData.Some? && !op.ForeignOp?
    ensures var w1 := Step(derive, w, op);
      && w1.validators.depositData.Some?
      && (IsGeneration(op) ==>
            w1.derived == w.derived + [Interval(|Records(w)|, op.n)] && |Records(w1)| == |Records(w)| + op.n)
      && (!IsGeneration(op) ==> w1.derived == w.derived && |Records(w1)| == |Records(w)|)
  {
  }

  lemma {:induction false} ChainDerived(derive: Derive, w: World, ops: seq<Op>)
    requires OwnOps(ops) && w.validators.depositData.Some?
    ensures Run(derive, w, ops).derived == w.derived + Chain(|Records(w)|, Counts(ops))
    decreases |ops|
  {
    if ops == [] {
    } else {
      assert ops[0] in ops;
      StepDerived(derive, w, ops[0]);
      ChainDerived(derive, Step(derive, w, ops[0]), ops[1..]);
      if IsGeneration(ops[0]) {
        assert Counts(ops)[1..] == Counts(ops[1..]);
        Associative(w.derived, [Interval(|Records(w)|, ops[0].n)], Chain(|Records(w)| + ops[0].n, Counts(ops[1..])));
      }
    }
  }

  lemma {:induction false} ChainShape(start: nat, ns: seq<nat>, i: nat)
    requires i < |ns|
    ensures Chain(start, ns)[i].count == ns[i]
    ensures start <= Chain(start, ns)[i].start && Chain(start, ns)[i].start + ns[i] <= start + Total(ns)
    decreases |ns|
  {
    if i == 0 {
    } else {
      ChainShape(start + ns[0], ns[1..], i - 1);
    }
  }

  lemma {:induction false} ChainDisjoint(start: nat, ns: seq<nat>)
    ensures PairwiseDisjoint(Chain(start, ns))
    decreases |ns|
  {
    if ns == [] {
    } else {
      ChainDisjoint(start + ns[0], ns[1..]);
      var rest := Chain(start + ns[0], ns[1..]);
      forall i: nat | i < |rest| ensures !Overlap(Interval(start, ns[0]), rest[i]) {
        ChainShape(start + ns[0], ns[1..], i);
      }
      FirstAndRest(Interval(start, ns[0]), rest);
    }
  }

  // A chain leaves no gap.
  lemma {:induction false} ChainCovers(start: nat, ns: seq<nat>, x: nat) returns (i: nat)
    requires start <= x < start + Total(ns)
    ensures i < |ns| && Chain(start, ns)[i].start <= x < Chain(start, ns)[i].start + Chain(start, ns)[i].count
    decreases |ns|
  {
    if x < start + ns[0] {
      i := 0;
    } else {
      i := ChainCovers(start + ns[0], ns[1..], x);
      i := i + 1;
    }
  }

  // A use of the fallback list that succeeds, and so copies it into the store.
  predicate UseStores(fallback: seq<Record>, op: Op) {
    && op.UseOp? && IsWcType(ToLower(op.wcType))
    && Unused(fallback, CredentialFilter(ToLower(op.wcType), op.vault)) != []
  }

  // The first operation that writes the store is a generation.
  predicate GeneratesFirst(fallback: seq<Record>, ops: seq<Op>) {
    ops != [] && (IsGeneration(ops[0]) || (!UseStores(fallback, ops[0]) && GeneratesFirst(fallback, ops[1..])))
  }

  function FallbackChain(fallback: seq<Record>, ops: seq<Op>): seq<Interval> {
    var ns := Counts(ops);
    if GeneratesFirst(fallback, ops) && ns != [] then [Interval(|fallback|, ns[0])] + Chain(ns[0], ns[1..])
    else Chain(|fallback|, ns)
  }

  lemma {:induction false} GeneratesFirstCounts(fallback: seq<Record>, ops: seq<Op>)
    requires GeneratesFirst(fallback, ops)
    ensures Counts(ops) != []
  {
    if IsGeneration(ops[0]) {
    } else {
      GeneratesFirstCounts(fallback, ops[1..]);
    }
  }

  lemma StepFromFallback(derive: Derive, fallback: seq<Record>, op: Op)
    requires !op.ForeignOp?
    ensures var w := Empty(Some(fallback));
      var w1 := Step(derive, w, op);
      && (IsGeneration(op) ==>
            && w1.validators.depositData.Some? && |Records(w1)| == op.n
            && w1.derived == [Interval(|fallback|, op.n)])
      && (UseStores(fallback, op) ==>
            w1.validators.depositData.Some? && |Records(w1)| == |fallback| && w1.derived == [])
      && (!IsGeneration(op) && !UseStores(fallback, op) ==> w1 == w)
  {
  }

  lemma {:induction false} FallbackDerived(derive: Derive, fallback: seq<Record>, ops: seq<Op>)
    requires OwnOps(ops)
    ensures Run(derive, Empty(Some(fallback)), ops).derived == FallbackChain(fallback, ops)
    decreases |ops|
  {
    if ops == [] {
    } else {
      assert ops[0] in ops;
      var w1 := Step(derive, Empty(Some(fallback)), ops[0]);
      StepFromFallback(derive, fallback, ops[0]);
      if IsGeneration(ops[0]) {
        ChainDerived(derive, w1, ops[1..]);
        assert Counts(ops)[1..] == Counts(ops[1..]);
      } else if UseStores(fallback, ops[0]) {
        ChainDerived(derive, w1, ops[1..]);
      } else {
        FallbackDerived(derive, fallback, ops[1..]);
      }
    }
  }

  // With a kurtosis/validators.json next to an empty store, a generation that writes
  // the store first starts after its records and leaves later ones to start at the
  // store's own count; a use that succeeds first copies the file into the store.
  // Over any own operations, failing ones included, the generations derive pairwise
  // different indices if and only if such a use comes first, or there is at most one
  // generation, or the file lists no key, or at least as many as all derive.
  lemma FallbackReusesIndices(derive: Derive, fallback: seq<Record>, ops: seq<Op>)
    requires OwnOps(ops)
    ensures PairwiseDisjoint(Run(derive, Empty(Some(fallback)), ops).derived) <==>
            || !GeneratesFirst(fallback, ops) || |Counts(ops)| <= 1
            || |fallback| == 0 || |fallback| >= Total(Counts(ops))
  {
    FallbackDerived(derive, fallback, ops);
    if GeneratesFirst(fallback, ops) {
      GeneratesFirstCounts(fallback, ops);
      DetachedFirst(|fallback|, Counts(ops));
    } else {
      ChainDisjoint(|fallback|, Counts(ops));
    }
  }

  lemma DetachedFirst(start: nat, ns: seq<nat>)
    requires ns != [] && forall i :: 0 <= i < |ns| ==> ns[i] > 0
    ensures PairwiseDisjoint([Interval(start, ns[0])] + Chain(ns[0], ns[1..])) <==>
            |ns| <= 1 || start == 0 || start >= Total(ns)
  {
    ChainDisjoint(ns[0], ns[1..]);
    FirstAgainstChain(Interval(start, ns[0]), ns[1..]);
    FirstAndRest(Interval(start, ns[0]), Chain(ns[0], ns[1..]));
  }

  lemma FirstAndRest(first: Interval, rest: seq<Interval>)
    requires PairwiseDisjoint(rest)
    ensures PairwiseDisjoint([first] + rest) <==> forall i :: 0 <= i < |rest| ==> !Overlap(first, rest[i])
  {
    var all := [first] + rest;
    assert forall i :: 0 <= i < |rest| ==> all[i + 1] == rest[i];
    if PairwiseDisjoint(all) {
      forall i | 0 <= i < |rest| ensures !Overlap(first, rest[i]) {
        assert !Overlap(all[0], all[i + 1]);
      }
    }
  }

  lemma FirstAgainstChain(first: Interval, ns: seq<nat>)
    requires first.count > 0 && forall i :: 0 <= i < |ns| ==> ns[i] > 0
    ensures (forall i :: 0 <= i < |ns| ==> !Overlap(first, Chain(first.count, ns)[i])) <==>
            ns == [] || first.start == 0 || first.start >= first.count + Total(ns)
  {
    var n, chain := first.count, Chain(first.count, ns);
    forall i: nat | i < |chain| ensures n <= chain[i].start && chain[i].start + chain[i].count <= n + Total(ns) {
      ChainShape(n, ns, i);
    }
    if 0 < first.start < n + Total(ns) && ns != [] {
      ChainShape(n, ns, 0);
      var i := ChainCovers(n, ns, if first.start < n then n else first.start);
      assert Overlap(first, chain[i]);
    }
  }
}
