/** Conversion between the value records, which hold accounts, and the transfer
    records, which hold account names resolved through the registry. */
module Mapper {
  import opened Wrappers
  import opened Model
  import opened Registry

  /** The exception a failed conversion throws, with its message. */
  datatype MapError = IllegalArgumentException(message: string)

  const NotFoundPrefix := "Account not found in registry: "

  /** The mapper only ever reads its registry. */
  datatype TransactionMapper = TransactionMapper(accountRegistry: AccountRegistry) {

    predicate Resolves(name: string) {
      accountRegistry.FindByName(name).Some?
    }

    // ----- to transfer records -----

    /** A posting becomes its account's name and the same, possibly absent, amount. */
    function PostingToDTO(p: Posting): (r: PostingDTO)
      ensures r.accountName == p.account.name && r.amount == p.amount
    {
      PostingDTO(p.account.name, p.amount)
    }

    function PostingsToDTO(ps: seq<Posting>): (r: seq<PostingDTO>)
      ensures |r| == |ps|
      ensures forall i | 0 <= i < |ps| :: r[i] == PostingToDTO(ps[i])
    {
      if ps == [] then [] else [PostingToDTO(ps[0])] + PostingsToDTO(ps[1..])
    }

    /** Date and description are kept; the postings are converted one by one, in order. */
    function TransactionToDTO(t: Transaction): (r: TransactionDTO)
      ensures r.date == t.date && r.description == t.description
      ensures |r.postings| == |t.postings|
      ensures forall i | 0 <= i < |t.postings| ::
                r.postings[i].accountName == t.postings[i].account.name
                && r.postings[i].amount == t.postings[i].amount
    {
      TransactionDTO(t.date, t.description, PostingsToDTO(t.postings))
    }

    // ----- to value records -----

    /** Succeeds exactly when the registry holds the name, with the registry's own
        account and the transfer record's amount; fails otherwise, naming the account. */
    function PostingToModel(d: PostingDTO): (r: Result<Posting, MapError>)
      ensures r.Ok? <==> d.accountName in accountRegistry.accounts && accountRegistry.accounts[d.accountName].Some?
      ensures r.Ok? ==> Some(r.value.account) == accountRegistry.accounts[d.accountName] && r.value.amount == d.amount
      ensures r.Err? ==> r.error.message == NotFoundPrefix + d.accountName
    {
      match accountRegistry.FindByName(d.accountName)
      case None => Err(IllegalArgumentException(NotFoundPrefix + d.accountName))
      case Some(account) => Ok(Posting(account, d.amount))
    }

    /** The postings converted in order; the first unresolved name stops the whole conversion. */
    function PostingsToModel(ds: seq<PostingDTO>): (r: Result<seq<Posting>, MapError>)
      ensures r.Ok? <==> forall i | 0 <= i < |ds| :: Resolves(ds[i].accountName)
      ensures r.Ok? ==> |r.value| == |ds| && forall i | 0 <= i < |ds| :: PostingToModel(ds[i]) == Ok(r.value[i])
      ensures r.Err? ==> exists i | 0 <= i < |ds| ::
                           && !Resolves(ds[i].accountName)
                           && (forall j | 0 <= j < i :: Resolves(ds[j].accountName))
                           && r.error.message == NotFoundPrefix + ds[i].accountName
    {
      if ds == [] then Ok([])
      else
        match PostingToModel(ds[0])
        case Err(e) => Err(e)
        case Ok(p) =>
          match PostingsToModel(ds[1..])
          case Err(e) =>
            ghost var i :| 0 <= i < |ds| - 1 && !Resolves(ds[1..][i].accountName)
                           && (forall j | 0 <= j < i :: Resolves(ds[1..][j].accountName))
                           && e.message == NotFoundPrefix + ds[1..][i].accountName;
            assert !Resolves(ds[i + 1].accountName);
            Err(e)
          case Ok(rest) => Ok([p] + rest)
    }

    /** Succeeds exactly when every posting's account name is registered; then date,
        description, posting count and order are kept. Otherwise no transaction is
        built and the error names the first unregistered account. */
    function TransactionToModel(d: TransactionDTO): (r: Result<Transaction, MapError>)
      ensures r.Ok? <==> forall i | 0 <= i < |d.postings| :: Resolves(d.postings[i].accountName)
      ensures r.Ok? ==> r.value.date == d.date && r.value.description == d.description
      ensures r.Ok? ==> |r.value.postings| == |d.postings|
                        && forall i | 0 <= i < |d.postings| ::
                             Some(r.value.postings[i].account) == accountRegistry.accounts[d.postings[i].accountName]
                             && r.value.postings[i].amount == d.postings[i].amount
      ensures r.Err? ==> exists i | 0 <= i < |d.postings| ::
                           && !Resolves(d.postings[i].accountName)
                           && (forall j | 0 <= j < i :: Resolves(d.postings[j].accountName))
                           && r.error.message == NotFoundPrefix + d.postings[i].accountName
    {
      match PostingsToModel(d.postings)
      case Err(e) => Err(e)
      case Ok(ps) => Ok(Transaction(d.date, d.description, ps))
    }

    // ----- round trips -----

    /** Resolving names and flattening them again gives back the transfer record,
        when every name is registered under its own account's name. */
    lemma {:induction false} ToDTOAfterToModel(d: TransactionDTO)
      requires accountRegistry.KeyedByName()
      requires forall i | 0 <= i < |d.postings| :: Resolves(d.postings[i].accountName)
      ensures TransactionToModel(d).Ok?
      ensures TransactionToDTO(TransactionToModel(d).value) == d
    {
      var t := TransactionToModel(d).value;
      var back := TransactionToDTO(t);
      forall i | 0 <= i < |d.postings|
        ensures back.postings[i] == d.postings[i]
      {
        var name := d.postings[i].accountName;
        assert accountRegistry.accounts[name].value.name == name;
      }
      assert back.postings == d.postings;
    }

    /** Flattening a transaction and resolving it again gives back the same
        transaction, when each posting holds the registry's account for its name. */
    lemma {:induction false} ToModelAfterToDTO(t: Transaction)
      requires forall i | 0 <= i < |t.postings| ::
                 accountRegistry.FindByName(t.postings[i].account.name) == Some(t.postings[i].account)
      ensures TransactionToModel(TransactionToDTO(t)) == Ok(t)
    {
      var d := TransactionToDTO(t);
      assert forall i | 0 <= i < |d.postings| :: Resolves(d.postings[i].accountName);
      var back := TransactionToModel(d).value;
      forall i | 0 <= i < |t.postings|
        ensures back.postings[i] == t.postings[i]
      {
      }
      assert back.postings == t.postings;
    }
  }
}
