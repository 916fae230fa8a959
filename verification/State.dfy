// The persisted validators store: a JSON file with shallow-merge updates, and
// the State methods that read and rewrite its two lists.
module State {
  import opened Wrappers
  import opened Seqs

  // A JSON object file; None is a missing file, which reads as {}.
  class JsonDb<V> {
    var file: Option<map<string, V>>

    constructor (file: Option<map<string, V>>)
      ensures this.file == file
    {
      this.file := file;
    }

    ghost function Contents(): map<string, V>
      reads this
    {
      file.GetOr(map[])
    }

    method Read() returns (data: map<string, V>)
      ensures data == Contents()
    {
      data := match file case Some(stored) => stored case None => map[];
    }

    method Write(data: map<string, V>)
      modifies this
      ensures file == Some(data)
    {
      file := Some(data);
    }

    // A shallow merge: the new keys win, every other key is kept.
    method Update(value: map<string, V>)
      modifies this
      ensures file == Some(old(Contents()) + value)
    {
      var data := Read();
      Write(data + value);
    }
  }

  type Pubkey = string

  // The fields of a deposit entry that the commands read; a record adds the
  // mutable "used" flag, absent in JSON when false.
  datatype Deposit = Deposit(pubkey: Pubkey, credentials: string)
  datatype Record = Record(deposit: Deposit, used: bool)
  datatype Keystore = Keystore(pubkey: Pubkey, path: string)

  // One result of key generation: a deposit entry and its keystore.
  datatype Entry = Entry(deposit: Deposit, path: string)

  function KeystoreOf(e: Entry): Keystore {
    Keystore(e.deposit.pubkey, e.path)
  }

  datatype Field = DepositField(records: seq<Record>) | KeystoreField(keystores: seq<Keystore>)

  // The store as the State methods see it.
  datatype Validators = Validators(depositData: Option<seq<Record>>, keystores: Option<seq<Keystore>>)

  function Appended(v: Validators, entries: seq<Entry>): Validators {
    Validators(Some(v.depositData.GetOr([]) + Map((e: Entry) => Record(e.deposit, false), entries)),
               Some(v.keystores.GetOr([]) + Map((e: Entry) => KeystoreOf(e), entries)))
  }

  function Rewritten(v: Validators, records: seq<Record>): Validators {
    Validators(Some(records), Some(v.keystores.GetOr([])))
  }

  // What getDepositData returns: the stored list, else the one found in
  // kurtosis/validators.json, if any.
  function Current(v: Validators, fallback: Option<seq<Record>>): Option<seq<Record>> {
    if v.depositData.Some? then v.depositData else fallback
  }

  class State {
    const validators: JsonDb<Field>
    const fallback: Option<seq<Record>>

    constructor (validators: JsonDb<Field>, fallback: Option<seq<Record>>)
      ensures this.validators == validators && this.fallback == fallback
    {
      this.validators := validators;
      this.fallback := fallback;
    }

    ghost predicate Valid()
      reads this, validators
    {
      var c := validators.Contents();
      && ("depositData" in c ==> c["depositData"].DepositField?)
      && ("keystores" in c ==> c["keystores"].KeystoreField?)
    }

    ghost function View(): Validators
      reads this, validators
      requires Valid()
    {
      var c := validators.Contents();
      Validators(if "depositData" in c then Some(c["depositData"].records) else None,
                 if "keystores" in c then Some(c["keystores"].keystores) else None)
    }

    method GetDepositData() returns (r: Option<seq<Record>>)
      requires Valid()
      ensures r == Current(View(), fallback)
    {
      var current := validators.Read();
      if "depositData" in current {
        return Some(current["depositData"].records);
      }
      r := fallback;
    }

    method ReadKeystores() returns (r: seq<Keystore>)
      requires Valid()
      ensures r == View().keystores.GetOr([])
    {
      var current := validators.Read();
      r := if "keystores" in current then current["keystores"].keystores else [];
    }

    method UpdateDepositData(depositData: seq<Record>)
      requires Valid()
      modifies validators
      ensures Valid() && View() == Rewritten(old(View()), depositData)
    {
      var keystores := ReadKeystores();
      validators.Update(map["depositData" := DepositField(depositData), "keystores" := KeystoreField(keystores)]);
    }

    // Appends to the stored lists only: the fallback file is never merged in.
    method UpdateValidatorsData(newData: seq<Entry>)
      requires Valid()
      modifies validators
      ensures Valid() && View() == Appended(old(View()), newData)
    {
      var current := validators.Read();
      var stored := if "depositData" in current then current["depositData"].records else [];
      var keystores := ReadKeystores();
      validators.Update(map[
        "depositData" := DepositField(stored + Map((e: Entry) => Record(e.deposit, false), newData)),
        "keystores" := KeystoreField(keystores + Map((e: Entry) => KeystoreOf(e), newData))]);
    }
  }
}
