/** The account registry: a read-only table from fully qualified account name to account. */
module Registry {
  import opened Wrappers
  import opened Model

  /** The table given at construction. Java maps may hold `null` values: such an
      entry is `None` here. */
  datatype AccountRegistry = AccountRegistry(accounts: map<string, Option<Account>>) {

    /** `Optional.ofNullable(accounts.get(name))`: the stored account when the name
        is a key with a non-null value, nothing otherwise; no account is made up. */
    function FindByName(name: string): (r: Option<Account>)
      ensures r.Some? <==> name in accounts && accounts[name].Some?
      ensures r.Some? ==> r.value == accounts[name].value
    {
      if name in accounts then accounts[name] else None
    }

    /** Every account is stored under its own name, as a lookup by fully
        qualified name presumes. */
    predicate KeyedByName() {
      forall n | n in accounts && accounts[n].Some? :: accounts[n].value.name == n
    }
  }
}
