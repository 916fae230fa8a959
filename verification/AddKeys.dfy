// CMv2 add-keys: splits the total into batches, then generates and allocates
// one batch at a time.
module AddKeys {
  import opened Credentials
  import opened Keys
  import opened KeySafety
  import opened Seqs
  import opened State
  import opened Strings
  import opened Wrappers

  // ---- Batch splitting ----

  function Batches(total: int, size: nat): seq<nat>
    requires size > 0
    decreases total
  {
    if total <= 0 then [] else [if total < size then total else size] + Batches(total - size, size)
  }

  function Sum(s: seq<nat>): nat {
    if s == [] then 0 else s[0] + Sum(s[1..])
  }

  method SplitBatches(total: int, batchSize: int) returns (batches: seq<nat>)
    ensures batches == Batches(total, if batchSize < 1 then 1 else batchSize)
  {
    var size := if batchSize < 1 then 1 else batchSize;
    batches := [];
    var remaining := total;
    while remaining > 0
      invariant batches + Batches(remaining, size) == Batches(total, size)
      decreases remaining
    {
      batches := batches + [if size < remaining then size else remaining];
      remaining := remaining - size;
    }
  }

  // Every batch is full except possibly the last, none is empty, and together
  // they make the total.
  lemma {:induction false} BatchesExact(total: int, size: nat)
    requires size > 0
    ensures var bs := Batches(total, size);
      && Sum(bs) == (if total < 0 then 0 else total)
      && (forall i :: 0 <= i < |bs| ==> 1 <= bs[i] <= size)
      && (forall i :: 0 <= i < |bs| - 1 ==> bs[i] == size)
    decreases total
  {
    if total <= 0 {
    } else {
      BatchesExact(total - size, size);
      assert Batches(total, size)[1..] == Batches(total - size, size);
    }
  }

  // ---- The loop over batches ----

  function BatchName(name: string, i: nat, count: nat): string {
    if count > 1 then name + "_batch_" + Decimal(i) else name
  }

  type BatchStep = (World, nat) -> (World, Option<KeyError>)

  // Batch i: generate, then use; lido-core keys generate lower-cases the vault.
  function OneBatch(derive: Derive, name: string, vault: string, batches: seq<nat>): BatchStep {
    (w: World, i: nat) =>
      if i >= |batches| then (w, None)
      else
        var (w1, e1) := Generate(derive, w, batches[i], ToLower(vault), "0x02");
        if e1.Some? then (w1, e1) else Use(w1, BatchName(name, i, |batches|), vault, "0x02")
  }

  // The loop, stopping at the first failure.
  function RunBatches(step: BatchStep, w: World, i: nat, n: nat): (World, Option<KeyError>)
    decreases n - i
  {
    if i >= n then (w, None)
    else
      var (w', e) := step(w, i);
      if e.Some? then (w', e) else RunBatches(step, w', i + 1, n)
  }

  function AddBatches(derive: Derive, w: World, name: string, vault: string, batches: seq<nat>): (World,
                      Option<KeyError>)
  {
    RunBatches(OneBatch(derive, name, vault, batches), w, 0, |batches|)
  }

  method AddBatch(net: DevNet, name: string, vault: string, batches: seq<nat>, i: nat) returns (e: Option<KeyError>)
    requires net.state.Valid() && i < |batches|
    modifies net`files, net`log, net`derived, net.state.validators
    ensures net.state.Valid()
    ensures (net.Snapshot(), e) == OneBatch(net.derive, name, vault, batches)(old(net.Snapshot()), i)
  {
    e := net.GenerateKeys(batches[i], ToLower(vault), "0x02");
    if e.None? {
      e := net.UseKeys(BatchName(name, i, |batches|), vault, "0x02");
    }
  }

  method AddCMv2Keys(net: DevNet, name: string, vault: string, validators: int,
                     batchSize: int) returns (e: Option<KeyError>)
    requires net.state.Valid()
    modifies net`files, net`log, net`derived, net.state.validators
    ensures net.state.Valid()
    ensures (net.Snapshot(), e) == AddBatches(net.derive, old(net.Snapshot()), name, vault,
                                              Batches(validators, if batchSize < 1 then 1 else batchSize))
  {
    var batches := SplitBatches(validators, batchSize);
    ghost var step := OneBatch(net.derive, name, vault, batches);
    for i := 0 to |batches|
      invariant net.state.Valid()
      invariant RunBatches(step, net.Snapshot(), i, |batches|) == RunBatches(step, old(net.Snapshot()), 0, |batches|)
    {
      ghost var before := net.Snapshot();
      e := AddBatch(net, name, vault, batches, i);
      assert (net.Snapshot(), e) == step(before, i);
      if e.Some? { return; }
    }
    e := None;
  }

  // ---- What the batches allocate ----

  // The fresh keys with given credentials at indices start .. start+n-1.
  function FreshKeys(derive: Derive, wc: string, start: nat, n: nat): (r: seq<Deposit>)
    ensures |r| == n
    ensures forall i :: 0 <= i < n ==> r[i] == Deposit(derive(start + i), wc)
  {
    seq(n, i requires 0 <= i < n => Deposit(derive(start + i), wc))
  }

  function ExpectedDumps(derive: Derive, name: string, wc: string, batches: seq<nat>, i: nat, start: nat): seq<Dump>
    requires i <= |batches|
    decreases |batches| - i
  {
    if i == |batches| then []
    else [Dump(BatchName(name, i, |batches|), FreshKeys(derive, wc, start, batches[i]))] +
         ExpectedDumps(derive, name, wc, batches, i + 1, start + batches[i])
  }

  lemma LowerVault(vault: string)
    requires IsAddress(vault)
    ensures IsAddress(ToLower(vault))
    ensures CredentialFilter("0x02", ToLower(vault)) == CredentialFilter("0x02", vault)
  {
    assert ToLower(ToLower(vault)) == ToLower(vault);
  }

  lemma FreshEntryDeposits(derive: Derive, wcType: string, wcAddress: string, start: nat, n: nat)
    requires IsAddress(wcAddress) && IsWcType(wcType)
    ensures Map((e: Entry) => e.deposit, Entries(derive, wcType, wcAddress, start, n)) ==
            FreshKeys(derive, CredentialFilter(wcType, wcAddress), start, n)
  {
    CredentialsAgree(wcType, wcAddress);
  }

  lemma {:induction false} AllFreshAreDumped(entries: seq<Entry>, wc: string)
    requires forall i :: 0 <= i < |entries| ==> entries[i].deposit.credentials == wc
    ensures Unused(Map((e: Entry) => Record(e.deposit, false), entries), wc) == Map((e: Entry) => e.deposit, entries)
  {
    if entries == [] {
    } else {
      AllFreshAreDumped(entries[1..], wc);
      var records := Map((e: Entry) => Record(e.deposit, false), entries);
      assert records[1..] == Map((e: Entry) => Record(e.deposit, false), entries[1..]);
      UnusedFirst(records, wc);
    }
  }

  lemma UnusedConcat(a: seq<Record>, b: seq<Record>, wc: string)
    ensures Unused(a + b, wc) == Unused(a, wc) + Unused(b, wc)
  {
    SelectConcat((r: Record) => r.deposit.credentials == wc, (r: Record) => r, a, b);
    SelectConcat((r: Record) => !r.used, (r: Record) => r.deposit, WithCredentials(a, wc), WithCredentials(b, wc));
  }

  lemma UnusedAppended(v: Validators, entries: seq<Entry>, added: seq<Deposit>, wc: string)
    requires Map((e: Entry) => e.deposit, entries) == added
    requires forall i :: 0 <= i < |added| ==> added[i].credentials == wc
    ensures Unused(Appended(v, entries).depositData.value, wc) == Unused(v.depositData.GetOr([]), wc) + added
  {
    forall i | 0 <= i < |entries| ensures entries[i].deposit.credentials == wc {
      assert added[i] == entries[i].deposit;
    }
    AllFreshAreDumped(entries, wc);
    UnusedConcat(v.depositData.GetOr([]), Map((e: Entry) => Record(e.deposit, false), entries), wc);
  }

  // Of either type: generating n keys adds exactly those n keys to the unused ones.
  lemma GeneratedAreUnused(derive: Derive, w: World, n: int, wcAddress: string, wcType: string)
    requires Generate(derive, w, n, wcAddress, wcType).1 == None
    ensures n > 0
    ensures var w1, wc := Generate(derive, w, n, wcAddress, wcType).0, CredentialFilter(ToLower(wcType), wcAddress);
      && w1.fallback == w.fallback && w1.log == w.log && w1.files == w.files
      && w1.validators.depositData.Some? && |Records(w1)| == |Records(w)| + n
      && Unused(Records(w1), wc) == Unused(Records(w), wc) + FreshKeys(derive, wc, |Visible(w)|, n)
  {
    var lowered, start := ToLower(wcType), |Visible(w)|;
    FreshEntryDeposits(derive, lowered, wcAddress, start, n);
    UnusedAppended(w.validators, Entries(derive, lowered, wcAddress, start, n),
                   FreshKeys(derive, CredentialFilter(lowered, wcAddress), start, n),
                   CredentialFilter(lowered, wcAddress));
  }

  // A use of the same type and address, in any letter case, then dumps exactly the
  // left-overs and those keys.
  lemma UseAfterGenerate(derive: Derive, w: World, n: int, wcAddress: string, wcType: string,
                         name: string, vault: string, useType: string)
    requires Generate(derive, w, n, wcAddress, wcType).1 == None
    requires ToLower(vault) == ToLower(wcAddress) && ToLower(useType) == ToLower(wcType)
    ensures var wc := CredentialFilter(ToLower(wcType), wcAddress);
      var keys := Unused(Records(w), wc) + FreshKeys(derive, wc, |Visible(w)|, n);
      var (w2, e) := Use(Generate(derive, w, n, wcAddress, wcType).0, name, vault, useType);
      && e == None && w2.log == w.log + [Dump(name, keys)] && w2.files == w.files[name := keys]
      && Unused(Records(w2), wc) == []
  {
    var w1 := Generate(derive, w, n, wcAddress, wcType).0;
    GeneratedAreUnused(derive, w, n, wcAddress, wcType);
    assert CredentialFilter(ToLower(wcType), vault) == CredentialFilter(ToLower(wcType), wcAddress);
    GenerateAppends(derive, w, n, wcAddress, wcType);
    UseSucceeds(w1, name, vault, useType);
    UseEffect(w1, name, vault, useType);
  }

  lemma UseSucceeds(w: World, name: string, vault: string, wcType: string)
    requires w.validators.depositData.Some? && IsWcType(ToLower(wcType))
    requires Unused(Records(w), CredentialFilter(ToLower(wcType), vault)) != []
    ensures Use(w, name, vault, wcType).1 == None
  {
  }

  // The loop's state: no fallback file, nothing of the vault's left unused.
  ghost predicate Drained(w: World, wc: string) {
    w.fallback == None && Unused(Records(w), wc) == []
  }

  // These dumps have been written, in order.
  ghost predicate Dumps(w: World, w': World, ds: seq<Dump>) {
    w'.log == w.log + ds && w'.files == Written(w.files, ds)
  }

  // One batch appends one dump, of the keys left over and the next ones, and
  // leaves nothing unused.
  ghost predicate Allocates(step: BatchStep, derive: Derive, w: World, name: string, wc: string, batches: seq<nat>,
                            i: nat)
    requires i < |batches|
  {
    var (w', e) := step(w, i);
    var keys := Unused(Records(w), wc) + FreshKeys(derive, wc, |Records(w)|, batches[i]);
    var dump := Dump(BatchName(name, i, |batches|), keys);
    && e == None && Drained(w', wc)
    && Dumps(w, w', [dump])
    && |Records(w')| == |Records(w)| + batches[i]
  }

  ghost predicate AlwaysAllocates(step: BatchStep, derive: Derive, name: string, wc: string, batches: seq<nat>) {
    forall v: World, k: nat :: k < |batches| && v.fallback == None ==>
      Allocates(step, derive, v, name, wc, batches, k)
  }

  lemma BatchAllocates(derive: Derive, w: World, name: string, vault: string, batches: seq<nat>, i: nat)
    requires i < |batches| && batches[i] > 0
    requires w.fallback == None && IsAddress(vault)
    ensures Allocates(OneBatch(derive, name, vault, batches), derive, w, name,
                      CredentialFilter("0x02", vault), batches, i)
  {
    LowerVault(vault);
    assert ToLower("0x02") == "0x02";
    GeneratedAreUnused(derive, w, batches[i], ToLower(vault), "0x02");
    var w1 := Generate(derive, w, batches[i], ToLower(vault), "0x02").0;
    UseSucceeds(w1, BatchName(name, i, |batches|), vault, "0x02");
    UseEffect(w1, BatchName(name, i, |batches|), vault, "0x02");
    assert OneBatch(derive, name, vault, batches)(w, i) == Use(w1, BatchName(name, i, |batches|), vault, "0x02");
  }

  lemma BatchesAlwaysAllocate(step: BatchStep, derive: Derive, name: string, vault: string, batches: seq<nat>)
    requires step == OneBatch(derive, name, vault, batches)
    requires IsAddress(vault) && forall k :: 0 <= k < |batches| ==> batches[k] > 0
    ensures AlwaysAllocates(step, derive, name, CredentialFilter("0x02", vault), batches)
  {
    forall v: World, k: nat | k < |batches| && v.fallback == None
      ensures Allocates(step, derive, v, name, CredentialFilter("0x02", vault), batches, k)
    {
      BatchAllocates(derive, v, name, vault, batches, k);
    }
  }

  lemma OneThenRest(w: World, w2: World, w': World, first: Dump, rest: seq<Dump>)
    requires Dumps(w, w2, [first]) && Dumps(w2, w', rest)
    ensures Dumps(w, w', [first] + rest)
  {
    WrittenConcat(w.files, [first], rest);
    Associative(w.log, [first], rest);
  }

  lemma {:induction false} BatchesAllocate(step: BatchStep, derive: Derive, w: World, name: string, wc: string,
                                           batches: seq<nat>, i: nat)
    requires i <= |batches| && Drained(w, wc)
    requires AlwaysAllocates(step, derive, name, wc, batches)
    ensures var (w', e) := RunBatches(step, w, i, |batches|);
      && e == None
      && Dumps(w, w', ExpectedDumps(derive, name, wc, batches, i, |Records(w)|))
    decreases |batches| - i
  {
    if i == |batches| {
      assert w.log + [] == w.log;
    } else {
      var w2 := step(w, i).0;
      assert Allocates(step, derive, w, name, wc, batches, i);
      BatchesAllocate(step, derive, w2, name, wc, batches, i + 1);
      var keys := FreshKeys(derive, wc, |Records(w)|, batches[i]);
      assert [] + keys == keys;
      var d := Dump(BatchName(name, i, |batches|), keys);
      var rest := ExpectedDumps(derive, name, wc, batches, i + 1, |Records(w2)|);
      OneThenRest(w, w2, RunBatches(step, w2, i + 1, |batches|).0, d, rest);
    }
  }

  lemma {:induction false} DumpedConcat(a: seq<Dump>, b: seq<Dump>)
    ensures Dumped(a + b) == Dumped(a) + Dumped(b)
    decreases |b|
  {
    if b == [] {
      assert a + b == a;
    } else {
      var front := b[..|b| - 1];
      assert (a + b)[..|a + b| - 1] == a + front;
      DumpedConcat(a, front);
    }
  }

  lemma {:induction false} ExpectedAt(derive: Derive, name: string, wc: string, batches: seq<nat>, i: nat,
                                      start: nat, k: nat)
    requires i + k <= |batches|
    ensures var ds := ExpectedDumps(derive, name, wc, batches, i, start);
      && |ds| == |batches| - i
      && (i + k < |batches| ==> ds[k].name == BatchName(name, i + k, |batches|) && |ds[k].keys| == batches[i + k])
    decreases |batches| - i
  {
    if i < |batches| {
      var rest := ExpectedDumps(derive, name, wc, batches, i + 1, start + batches[i]);
      ExpectedAt(derive, name, wc, batches, i + 1, start + batches[i], if k == 0 then 0 else k - 1);
      assert k > 0 && i + k < |batches| ==> ExpectedDumps(derive, name, wc, batches, i, start)[k] == rest[k - 1];
    }
  }

  // A single dump has the given name; several are numbered from zero.
  ghost predicate Numbered(ds: seq<Dump>, name: string) {
    && (|ds| == 1 ==> ds[0].name == name)
    && (|ds| > 1 ==> forall k :: 0 <= k < |ds| ==> ds[k].name == name + "_batch_" + Decimal(k))
  }

  lemma ExpectedDumpsDiffer(derive: Derive, name: string, wc: string, batches: seq<nat>, start: nat)
    ensures var ds := ExpectedDumps(derive, name, wc, batches, 0, start);
      && |ds| == |batches|
      && HasSizes(ds, batches, 0)
      && NamesDiffer(ds) && Numbered(ds, name)
  {
    var ds := ExpectedDumps(derive, name, wc, batches, 0, start);
    ExpectedAt(derive, name, wc, batches, 0, start, 0);
    forall k | 0 <= k < |ds| ensures |ds[k].keys| == batches[k] && ds[k].name == BatchName(name, k, |batches|) {
      ExpectedAt(derive, name, wc, batches, 0, start, k);
    }
    forall j, k | 0 <= j < k < |ds| ensures ds[j].name != ds[k].name {
      if ds[j].name == ds[k].name { NumberedNames(name + "_batch_", j, k); }
    }
  }

  lemma FreshKeysConcat(derive: Derive, wc: string, start: nat, m: nat, n: nat)
    ensures FreshKeys(derive, wc, start, m) + FreshKeys(derive, wc, start + m, n) == FreshKeys(derive, wc, start, m + n)
  {
  }

  lemma DumpedFirst(first: Dump, rest: seq<Dump>)
    ensures Dumped([first] + rest) == first.keys + Dumped(rest)
  {
    DumpedConcat([first], rest);
    assert [first][..0] == [];
    assert Dumped([first]) == [] + first.keys;
  }

  // The dumps, joined, are the consecutive fresh keys.
  lemma {:induction false} ExpectedKeys(derive: Derive, name: string, wc: string, batches: seq<nat>, i: nat, start: nat)
    requires i <= |batches|
    ensures Dumped(ExpectedDumps(derive, name, wc, batches, i, start)) ==
            FreshKeys(derive, wc, start, Sum(batches[i..]))
    decreases |batches| - i
  {
    if i < |batches| {
      var keys, total := FreshKeys(derive, wc, start, batches[i]), Sum(batches[i + 1..]);
      ExpectedKeys(derive, name, wc, batches, i + 1, start + batches[i]);
      DumpedFirst(Dump(BatchName(name, i, |batches|), keys),
                  ExpectedDumps(derive, name, wc, batches, i + 1, start + batches[i]));
      assert Sum(batches[i..]) == batches[i] + total by { assert batches[i..][1..] == batches[i + 1..]; }
      FreshKeysConcat(derive, wc, start, batches[i], total);
    }
  }

  // ---- The main result ----

  // Keys left over from before go out with the first dump.
  function WithLeftovers(leftovers: seq<Deposit>, dumps: seq<Dump>): seq<Dump> {
    if dumps == [] then [] else [Dump(dumps[0].name, leftovers + dumps[0].keys)] + dumps[1..]
  }

  lemma FirstBatchAllocates(step: BatchStep, derive: Derive, w: World, name: string, wc: string, batches: seq<nat>)
    requires w.fallback == None && batches != []
    requires AlwaysAllocates(step, derive, name, wc, batches)
    ensures var (w', e) := RunBatches(step, w, 0, |batches|);
      && e == None
      && Dumps(w, w', WithLeftovers(Unused(Records(w), wc), ExpectedDumps(derive, name, wc, batches, 0, |Records(w)|)))
  {
    var w2 := step(w, 0).0;
    assert Allocates(step, derive, w, name, wc, batches, 0);
    BatchesAllocate(step, derive, w2, name, wc, batches, 1);
    var keys := Unused(Records(w), wc) + FreshKeys(derive, wc, |Records(w)|, batches[0]);
    var first := Dump(BatchName(name, 0, |batches|), keys);
    var rest := ExpectedDumps(derive, name, wc, batches, 1, |Records(w2)|);
    OneThenRest(w, w2, RunBatches(step, w2, 1, |batches|).0, first, rest);
  }

  lemma LeftoversFirst(leftovers: seq<Deposit>, dumps: seq<Dump>)
    requires dumps != []
    ensures Dumped(WithLeftovers(leftovers, dumps)) == leftovers + Dumped(dumps)
  {
    assert dumps == [dumps[0]] + dumps[1..];
    DumpedFirst(dumps[0], dumps[1..]);
    DumpedFirst(Dump(dumps[0].name, leftovers + dumps[0].keys), dumps[1..]);
  }

  // As many dumps as sizes; the first holds so many keys more than its size.
  ghost predicate HasSizes(ds: seq<Dump>, sizes: seq<nat>, more: nat) {
    |ds| == |sizes| && forall k :: 0 <= k < |ds| ==> |ds[k].keys| == sizes[k] + if k == 0 then more else 0
  }

  ghost predicate NamesDiffer(ds: seq<Dump>) {
    forall j, k :: 0 <= j < k < |ds| ==> ds[j].name != ds[k].name
  }

  ghost predicate InFiles(files: map<string, seq<Deposit>>, ds: seq<Dump>) {
    forall k :: 0 <= k < |ds| ==> ds[k].name in files && files[ds[k].name] == ds[k].keys
  }

  lemma DifferentNamesKept(files: map<string, seq<Deposit>>, ds: seq<Dump>)
    requires NamesDiffer(ds)
    ensures InFiles(Written(files, ds), ds)
  {
    forall k | 0 <= k < |ds|
      ensures ds[k].name in Written(files, ds) && Written(files, ds)[ds[k].name] == ds[k].keys
    {
      LastIsWritten(files, ds, k);
    }
  }

  // The leftovers change neither the names nor the other sizes.
  lemma LeftoverDumps(leftovers: seq<Deposit>, expected: seq<Dump>, sizes: seq<nat>, name: string)
    requires expected != [] && |expected| == |sizes| && NamesDiffer(expected) && Numbered(expected, name)
    requires HasSizes(expected, sizes, 0)
    ensures var ds := WithLeftovers(leftovers, expected);
      && |ds| == |sizes| && NamesDiffer(ds) && Numbered(ds, name)
      && HasSizes(ds, sizes, |leftovers|)
  {
    var ds := WithLeftovers(leftovers, expected);
    assert forall k :: 0 <= k < |ds| ==> ds[k].name == expected[k].name;
  }

  // Adding keys succeeds. A single dump has the given name and several are numbered;
  // the names differ, so each dump is in its file at the end. They have the batch sizes, except that the first also
  // takes the 0x02 keys of the vault that were unused before; together they hold
  // those keys and then exactly the next `validators` derived keys, each once.
  lemma AddKeysExact(derive: Derive, w: World, name: string, vault: string, validators: nat, batchSize: int)
    requires w.fallback == None && IsAddress(vault) && validators > 0
    ensures var batches := Batches(validators, if batchSize < 1 then 1 else batchSize);
      var (w', e) := AddBatches(derive, w, name, vault, batches);
      var wc := CredentialFilter("0x02", vault);
      var leftovers := Unused(Records(w), wc);
      && e == None
      && |w'.log| == |w.log| + |batches| && w.log <= w'.log
      && var ds := w'.log[|w.log|..];
      && HasSizes(ds, batches, |leftovers|)
      && NamesDiffer(ds) && Numbered(ds, name) && InFiles(w'.files, ds)
      && Dumped(ds) == leftovers + FreshKeys(derive, wc, |Records(w)|, validators)
  {
    var wc := CredentialFilter("0x02", vault);
    var size := if batchSize < 1 then 1 else batchSize;
    var batches := Batches(validators, size);
    BatchesExact(validators, size);
    var step := OneBatch(derive, name, vault, batches);
    BatchesAlwaysAllocate(step, derive, name, vault, batches);
    FirstBatchAllocates(step, derive, w, name, wc, batches);
    DumpsExact(derive, w, RunBatches(step, w, 0, |batches|).0, name, wc, batches);
  }

  // What the appended dumps hold, read off their list.
  lemma DumpsExact(derive: Derive, w: World, w': World, name: string, wc: string, batches: seq<nat>)
    requires batches != []
    requires var expected := ExpectedDumps(derive, name, wc, batches, 0, |Records(w)|);
      Dumps(w, w', WithLeftovers(Unused(Records(w), wc), expected))
    ensures |w'.log| == |w.log| + |batches| && w.log <= w'.log
    ensures var ds, leftovers := w'.log[|w.log|..], Unused(Records(w), wc);
      && HasSizes(ds, batches, |leftovers|)
      && NamesDiffer(ds) && Numbered(ds, name) && InFiles(w'.files, ds)
      && Dumped(ds) == leftovers + FreshKeys(derive, wc, |Records(w)|, Sum(batches))
  {
    var leftovers, expected := Unused(Records(w), wc), ExpectedDumps(derive, name, wc, batches, 0, |Records(w)|);
    ExpectedKeys(derive, name, wc, batches, 0, |Records(w)|);
    assert batches[0..] == batches;
    ExpectedDumpsDiffer(derive, name, wc, batches, |Records(w)|);
    LeftoverDumps(leftovers, expected, batches, name);
    LeftoversFirst(leftovers, expected);
    DifferentNamesKept(w.files, WithLeftovers(leftovers, expected));
    assert (w.log + WithLeftovers(leftovers, expected))[|w.log|..] == WithLeftovers(leftovers, expected);
  }

  // Without keys to add nothing happens; with an invalid vault the first generation
  // fails, and nothing happens either.
  lemma AddKeysOtherwise(derive: Derive, w: World, name: string, vault: string, validators: int, batchSize: int)
    ensures var r := AddBatches(derive, w, name, vault, Batches(validators, if batchSize < 1 then 1 else batchSize));
      && (validators <= 0 ==> r == (w, None))
      && (validators > 0 && !IsAddress(ToLower(vault)) ==> r == (w, Some(InvalidAddress)))
  {
    var size := if batchSize < 1 then 1 else batchSize;
    var batches := Batches(validators, size);
    if validators > 0 && !IsAddress(ToLower(vault)) {
      BatchesExact(validators, size);
      GenerateErrors(derive, w, batches[0], ToLower(vault), "0x02");
      assert OneBatch(derive, name, vault, batches)(w, 0) == (w, Some(InvalidAddress));
    }
  }

  lemma NoSharedKey(ds: seq<Dump>, j: nat, k: nat, d: Deposit)
    requires j < k < |ds| && Distinct(Dumped(ds))
    ensures !(d in ds[j].keys && d in ds[k].keys)
  {
    if d in ds[j].keys && d in ds[k].keys {
      DistinctCount(Dumped(ds), d);
      DumpCounts(ds, j, k, d);
    }
  }

  lemma FreshKeysDistinct(derive: Derive, wc: string, start: nat, n: nat)
    requires Injective(derive)
    ensures Distinct([] + FreshKeys(derive, wc, start, n))
  {
  }

  // Hence, with injective derivation and nothing left over, no key is in two of
  // the new dumps.
  lemma AddKeysDisjoint(derive: Derive, w: World, name: string, vault: string, validators: nat, batchSize: int,
                        j: nat, k: nat, d: Deposit)
    requires Drained(w, CredentialFilter("0x02", vault)) && IsAddress(vault) && Injective(derive) && validators > 0
    requires j < k < |Batches(validators, if batchSize < 1 then 1 else batchSize)|
    ensures var batches := Batches(validators, if batchSize < 1 then 1 else batchSize);
      var ds := AddBatches(derive, w, name, vault, batches).0.log;
      && |w.log| + k < |ds|
      && !(d in ds[|w.log| + j].keys && d in ds[|w.log| + k].keys)
  {
    AddKeysExact(derive, w, name, vault, validators, batchSize);
    var w' := AddBatches(derive, w, name, vault, Batches(validators, if batchSize < 1 then 1 else batchSize)).0;
    FreshKeysDistinct(derive, CredentialFilter("0x02", vault), |Records(w)|, validators);
    NoSharedKey(w'.log[|w.log|..], j, k, d);
  }
}
