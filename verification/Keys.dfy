// The key commands: generating keys into the store and allocating the unused
// ones. The World functions specify the commands; class DevNet carries them out.
module Keys {
  import opened Credentials
  import opened Seqs
  import opened State
  import opened Strings
  import opened Wrappers

  // Public key of the validator at a derivation index, under the fixed mnemonic.
  type Derive = nat -> Pubkey

  datatype KeyError =
    | InvalidMnemonic
    | InvalidPassword
    | InvalidCount
    | InvalidStart
    | InvalidAddress
    | InvalidWcType
    | DepositDataNotFound
    | NoUnusedKeys

  // ---- Generation ----

  function EntryAt(derive: Derive, wcType: string, wcAddress: string, index: nat): Entry {
    Entry(Deposit(derive(index), HexEncode(WithdrawalCredentials(wcType, wcAddress))),
          "m/12381/3600/" + Decimal(index) + "/0/0")
  }

  function Entries(derive: Derive, wcType: string, wcAddress: string, from: nat, n: nat): (r: seq<Entry>)
    ensures |r| == n
    ensures forall i :: 0 <= i < n ==> r[i] == EntryAt(derive, wcType, wcAddress, from + i)
  {
    seq(n, i requires 0 <= i < n => EntryAt(derive, wcType, wcAddress, from + i))
  }

  function CheckGeneration(n: int, wcAddress: string, wcType: string): Option<KeyError> {
    if n <= 0 then Some(InvalidCount)
    else if !IsAddress(wcAddress) then Some(InvalidAddress)
    else if !IsWcType(ToLower(wcType)) then Some(InvalidWcType)
    else None
  }

  // All checks, in order.
  function CheckInputs(mnemonic: string, password: string, n: int, generateFrom: int, wcAddress: string, wcType: string)
    : Option<KeyError>
  {
    if mnemonic == "" then Some(InvalidMnemonic)
    else if password == "" then Some(InvalidPassword)
    else if n > 0 && generateFrom < 0 then Some(InvalidStart)
    else CheckGeneration(n, wcAddress, wcType)
  }

  method GenerateDepositData(derive: Derive, mnemonic: string, password: string, n: int, generateFrom: int,
                             wcAddress: string, wcType: string)
    returns (r: Result<seq<Entry>, KeyError>)
    ensures r.Ok? <==>
      && mnemonic != "" && password != "" && n > 0 && generateFrom >= 0
      && IsAddress(wcAddress) && ToLower(wcType) in ["0x01", "0x02"]
    ensures match CheckInputs(mnemonic, password, n, generateFrom, wcAddress, wcType)
      case Some(e) => r == Err(e)
      case None => r == Ok(Entries(derive, ToLower(wcType), wcAddress, generateFrom, n))
  {
    if mnemonic == "" { return Err(InvalidMnemonic); }
    if password == "" { return Err(InvalidPassword); }
    if n <= 0 { return Err(InvalidCount); }
    if generateFrom < 0 { return Err(InvalidStart); }
    if !IsAddress(wcAddress) { return Err(InvalidAddress); }
    var lowered := ToLower(wcType);
    if lowered != "0x01" && lowered != "0x02" { return Err(InvalidWcType); }
    var results: seq<Entry> := [];
    var index: nat := generateFrom;
    while index < generateFrom + n
      invariant generateFrom <= index <= generateFrom + n
      invariant results == Entries(derive, lowered, wcAddress, generateFrom, index - generateFrom)
    {
      results := results + [EntryAt(derive, lowered, wcAddress, index)];
      index := index + 1;
    }
    r := Ok(results);
  }

  // The checks, in order, by what they look at.
  lemma InputErrors(mnemonic: string, password: string, n: int, generateFrom: int, wcAddress: string, wcType: string)
    ensures var e := CheckInputs(mnemonic, password, n, generateFrom, wcAddress, wcType);
      && (e == Some(InvalidMnemonic) <==> mnemonic == "")
      && (e == Some(InvalidPassword) <==> mnemonic != "" && password == "")
      && (mnemonic != "" && password != "" ==>
            && (e == Some(InvalidCount) <==> n <= 0)
            && (e == Some(InvalidStart) <==> n > 0 && generateFrom < 0)
            && (n > 0 && generateFrom >= 0 ==>
                  && (e == Some(InvalidAddress) <==> !IsAddress(wcAddress))
                  && (e == Some(InvalidWcType) <==> IsAddress(wcAddress) && ToLower(wcType) !in ["0x01", "0x02"])
                  && (e == None <==> IsAddress(wcAddress) && ToLower(wcType) in ["0x01", "0x02"])))
  {
  }

  // ---- Allocation ----

  function WithCredentials(records: seq<Record>, wc: string): seq<Record> {
    Select((r: Record) => r.deposit.credentials == wc, (r: Record) => r, records)
  }

  function UnusedDeposits(records: seq<Record>): seq<Deposit> {
    Select((r: Record) => !r.used, (r: Record) => r.deposit, records)
  }

  // The dump of a use: matching records not yet used, in store order.
  function Unused(records: seq<Record>, wc: string): seq<Deposit> {
    UnusedDeposits(WithCredentials(records, wc))
  }

  function MarkUsed(records: seq<Record>, wc: string): seq<Record> {
    Map((r: Record) => if r.deposit.credentials == wc then r.(used := true) else r, records)
  }

  // ---- The world of the key commands ----

  datatype Dump = Dump(name: string, keys: seq<Deposit>)

  datatype Interval = Interval(start: nat, count: nat)

  // The store, the dump files by name, and two histories: every dump ever
  // written and every index interval ever derived.
  datatype World = World(
    validators: Validators,
    fallback: Option<seq<Record>>,
    files: map<string, seq<Deposit>>,
    log: seq<Dump>,
    derived: seq<Interval>)

  function Generate(derive: Derive, w: World, n: int, wcAddress: string, wcType: string): (World, Option<KeyError>) {
    match CheckGeneration(n, wcAddress, wcType)
    case Some(e) => (w, Some(e))
    case None =>
      var start := |Current(w.validators, w.fallback).GetOr([])|;
      (w.(validators := Appended(w.validators, Entries(derive, ToLower(wcType), wcAddress, start, n)),
          derived := w.derived + [Interval(start, n)]), None)
  }

  function Use(w: World, name: string, vault: string, wcType: string): (World, Option<KeyError>) {
    var current := Current(w.validators, w.fallback);
    if current.None? then (w, Some(DepositDataNotFound))
    else if !IsWcType(ToLower(wcType)) then (w, Some(InvalidWcType))
    else
      var wc := CredentialFilter(ToLower(wcType), vault);
      var keys := Unused(current.value, wc);
      if keys == [] then (w, Some(NoUnusedKeys))
      else
        (w.(validators := Rewritten(w.validators, MarkUsed(current.value, wc)),
            files := w.files[name := keys],
            log := w.log + [Dump(name, keys)]), None)
  }

  // ---- The commands ----

  // A deposit record as JSON.parse hands it out: shared by every list that holds it.
  class DepositRecord {
    const deposit: Deposit
    var used: bool

    constructor (deposit: Deposit, used: bool)
      ensures this.deposit == deposit && this.used == used
    {
      this.deposit := deposit;
      this.used := used;
    }
  }

  ghost function Values(objects: seq<DepositRecord>): (r: seq<Record>)
    reads objects
    ensures |r| == |objects|
    ensures forall i :: 0 <= i < |r| ==> r[i] == Record(objects[i].deposit, objects[i].used)
  {
    seq(|objects|, i requires 0 <= i < |objects| reads objects => Record(objects[i].deposit, objects[i].used))
  }

  // Parses the stored list into mutable records.
  method Load(records: seq<Record>) returns (objects: seq<DepositRecord>)
    ensures fresh(objects)
    ensures Values(objects) == records
  {
    objects := [];
    for i := 0 to |records|
      invariant fresh(objects) && |objects| == i
      invariant forall k :: 0 <= k < i ==> records[k] == Record(objects[k].deposit, objects[k].used)
    {
      var o := new DepositRecord(records[i].deposit, records[i].used);
      objects := objects + [o];
    }
  }

  method Store(objects: seq<DepositRecord>) returns (records: seq<Record>)
    ensures records == Values(objects)
  {
    records := [];
    for i := 0 to |objects|
      invariant |records| == i
      invariant forall k :: 0 <= k < i ==> records[k] == Record(objects[k].deposit, objects[k].used)
    {
      records := records + [Record(objects[i].deposit, objects[i].used)];
    }
  }

  lemma WithCredentialsNext(records: seq<Record>, i: nat, wc: string)
    requires i < |records|
    ensures WithCredentials(records[..i + 1], wc) ==
            WithCredentials(records[..i], wc) + (if records[i].deposit.credentials == wc then [records[i]] else [])
  {
    SelectNext((r: Record) => r.deposit.credentials == wc, (r: Record) => r, records, i);
  }

  lemma UnusedDepositsNext(records: seq<Record>, i: nat)
    requires i < |records|
    ensures UnusedDeposits(records[..i + 1]) ==
            UnusedDeposits(records[..i]) + (if records[i].used then [] else [records[i].deposit])
  {
    SelectNext((r: Record) => !r.used, (r: Record) => r.deposit, records, i);
  }

  // The records with given credentials: the same objects, not copies.
  method FilterByCredentials(objects: seq<DepositRecord>, wc: string) returns (r: seq<DepositRecord>)
    ensures forall o :: o in r <==> o in objects && o.deposit.credentials == wc
    ensures Values(r) == WithCredentials(Values(objects), wc)
  {
    r := [];
    for i := 0 to |objects|
      invariant forall o :: o in r <==> o in objects[..i] && o.deposit.credentials == wc
      invariant Values(r) == WithCredentials(Values(objects)[..i], wc)
    {
      WithCredentialsNext(Values(objects), i, wc);
      ghost var before := Values(r);
      if objects[i].deposit.credentials == wc {
        r := r + [objects[i]];
        assert Values(r) == before + [Values(objects)[i]];
      }
    }
    assert Values(objects)[..|objects|] == Values(objects);
  }

  // The ones not used yet, as dumped.
  method FilterUnused(objects: seq<DepositRecord>) returns (r: seq<Deposit>)
    ensures r == UnusedDeposits(Values(objects))
  {
    r := [];
    for i := 0 to |objects|
      invariant r == UnusedDeposits(Values(objects)[..i])
    {
      UnusedDepositsNext(Values(objects), i);
      if !objects[i].used {
        r := r + [objects[i].deposit];
      }
    }
    assert Values(objects)[..|objects|] == Values(objects);
  }

  // Sets the flag through the filtered list; the full list shares the records.
  method MarkAll(ghost all: seq<DepositRecord>, lidoKeys: seq<DepositRecord>, ghost wc: string)
    requires forall o :: o in lidoKeys <==> o in all && o.deposit.credentials == wc
    modifies lidoKeys
    ensures Values(all) == MarkUsed(old(Values(all)), wc)
  {
    for i := 0 to |lidoKeys|
      invariant forall o :: o in lidoKeys[..i] ==> o.used
      invariant forall o :: o in all && o !in lidoKeys ==> o.used == old(o.used)
    {
      lidoKeys[i].used := true;
    }
    assert lidoKeys[..|lidoKeys|] == lidoKeys;
    forall k | 0 <= k < |all| ensures Values(all)[k] == MarkUsed(old(Values(all)), wc)[k] {
      assert all[k] in all;
    }
  }

  // Serialises the unused keys, then marks every matching record.
  method Allocate(stored: seq<Record>, wc: string) returns (keys: seq<Deposit>, updated: seq<Record>)
    ensures keys == Unused(stored, wc)
    ensures updated == MarkUsed(stored, wc)
  {
    var depositData := Load(stored);
    var lidoKeys := FilterByCredentials(depositData, wc);
    keys := FilterUnused(lidoKeys);
    MarkAll(depositData, lidoKeys, wc);
    updated := Store(depositData);
  }

  const MNEMONIC := "abandon abandon abandon abandon abandon abandon abandon abandon abandon abandon abandon about"
  const PASSWORD := "12345678"

  class DevNet {
    const state: State
    const derive: Derive
    var files: map<string, seq<Deposit>>
    ghost var log: seq<Dump>
    ghost var derived: seq<Interval>

    constructor (state: State, derive: Derive)
      ensures this.state == state && this.derive == derive
      ensures files == map[] && log == [] && derived == []
    {
      this.state, this.derive := state, derive;
      files, log, derived := map[], [], [];
    }

    ghost function Snapshot(): World
      reads this, state, state.validators
      requires state.Valid()
    {
      World(state.View(), state.fallback, files, log, derived)
    }

    // validator keys generate: starts at the current number of keys.
    method GenerateKeys(n: int, wc: string, wcType: string) returns (e: Option<KeyError>)
      requires state.Valid()
      modifies this`derived, state.validators
      ensures state.Valid() && (Snapshot(), e) == Generate(derive, old(Snapshot()), n, wc, wcType)
    {
      var depositData := state.GetDepositData();
      var startIndex := match depositData case Some(records) => |records| case None => 0;
      var results := GenerateDepositData(derive, MNEMONIC, PASSWORD, n, startIndex, wc, wcType);
      if results.Err? {
        return Some(results.error);
      }
      state.UpdateValidatorsData(results.value);
      derived := derived + [Interval(startIndex, n)];
      e := None;
    }

    // lido-core keys use: dumps the unused keys, then marks every matching one.
    method UseKeys(name: string, vault: string, wcType: string) returns (e: Option<KeyError>)
      requires state.Valid()
      modifies this`files, this`log, state.validators
      ensures state.Valid() && (Snapshot(), e) == Use(old(Snapshot()), name, vault, wcType)
    {
      var stored := state.GetDepositData();
      if stored.None? { return Some(DepositDataNotFound); }
      var lowered := ToLower(wcType);
      if !(lowered == "0x01" || lowered == "0x02") { return Some(InvalidWcType); }
      var prefix := ReplaceFirst(lowered, "0x", "") + "0000000000000000000000";
      var wc := ReplaceFirst(ToLower(vault), "0x", prefix);

      var lidoUnusedKeys, updated := Allocate(stored.value, wc);
      if |lidoUnusedKeys| == 0 { return Some(NoUnusedKeys); }
      files := files[name := lidoUnusedKeys];
      log := log + [Dump(name, lidoUnusedKeys)];
      state.UpdateDepositData(updated);
      e := None;
    }
  }
}
