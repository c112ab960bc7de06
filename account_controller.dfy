/** The read-only handlers behind the account routes. Each one takes the
    documents of the store, the authenticated caller's user id and the
    request's parameters, and gives the response body or the kind of error
    the handler answers with. */
module AccountController {
  import opened Wrappers
  import opened Types
  import opened Seqs
  import opened EmailMask
  import opened LedgerQuery

  datatype Error =
    | InvalidInput      // the searched account number is too short
    | NotFound          // no such account, or not one the caller may see
    | InvalidOperation  // the searched account is the caller's own
    | Internal          // an error thrown while answering

  /** The HTTP status each kind of error is answered with. */
  function StatusCode(e: Error): nat {
    match e
    case InvalidInput => 400
    case NotFound => 404
    case InvalidOperation => 400
    case Internal => 500
  }

  // The query filters, as predicates the sequence operations take.

  function OwnerIs(caller: UserId): Account -> bool {
    (a: Account) => a.userId == caller
  }

  function AccountIdIs(id: AccountId): Account -> bool {
    (a: Account) => a.id == id
  }

  function OwnedAccountIs(id: AccountId, caller: UserId): Account -> bool {
    (a: Account) => a.id == id && a.userId == caller
  }

  predicate ActiveAccount(a: Account) {
    a.status == Active
  }

  function ActiveWithNumber(accountNumber: Text): Account -> bool {
    (a: Account) => a.accountNumber == accountNumber && a.status == Active
  }

  function ActiveOwnedBy(owner: UserId): Account -> bool {
    (a: Account) => a.userId == owner && a.status == Active
  }

  function UserIdIs(id: UserId): User -> bool {
    (u: User) => u.id == id
  }

  function OtherThan(caller: UserId): User -> bool {
    (u: User) => u.id != caller
  }

  // getAccounts

  /** All of the caller's accounts, in store order. */
  function GetAccounts(store: Store, caller: UserId): (r: seq<Account>)
    ensures forall a :: a in r <==> a in store.accounts && a.userId == caller
    ensures IsSubsequence(r, store.accounts)
  {
    FilterIsSubsequence(store.accounts, OwnerIs(caller));
    Filter(store.accounts, OwnerIs(caller))
  }

  // getAccountById

  /** `findOne({ _id: accountId, userId: caller })`, shared by the two handlers
      that look up one of the caller's accounts. */
  function OwnedAccount(store: Store, caller: UserId, accountId: AccountId): Option<Account> {
    First(store.accounts, OwnedAccountIs(accountId, caller))
  }

  /** One account, only when it has the id and belongs to the caller; otherwise
      NotFound, whether the account is missing or someone else's. */
  function GetAccountById(store: Store, caller: UserId, accountId: AccountId): (r: Result<Account, Error>)
    ensures r.Ok? <==> exists a :: a in store.accounts && a.id == accountId && a.userId == caller
    ensures r.Ok? ==> r.value in store.accounts && r.value.id == accountId && r.value.userId == caller
    ensures r.Err? ==> r.error == NotFound
  {
    match OwnedAccount(store, caller, accountId)
    case Some(a) => Ok(a)
    case None => Err(NotFound)
  }

  /** The lookup reads only the caller's own accounts: changing, adding or
      removing other users' accounts never changes the answer, so the answer
      does not reveal whether another user's account exists. */
  lemma GetAccountByIdHidesOtherOwners(s1: Store, s2: Store, caller: UserId, accountId: AccountId)
    requires GetAccounts(s1, caller) == GetAccounts(s2, caller)
    ensures GetAccountById(s1, caller, accountId) == GetAccountById(s2, caller, accountId)
  {
    FirstOfFilter(s1.accounts, OwnedAccountIs(accountId, caller), OwnerIs(caller), AccountIdIs(accountId));
    FirstOfFilter(s2.accounts, OwnedAccountIs(accountId, caller), OwnerIs(caller), AccountIdIs(accountId));
  }

  // getAccountTransactions

  const DefaultPage := 1
  const DefaultLimit := 20

  /** The history page of an owned account, or NotFound when the account is not
      the caller's. A missing page or limit takes its default. */
  function GetAccountTransactions(
    store: Store, caller: UserId, accountId: AccountId, page: Option<int>, limit: Option<int>):
    (r: Result<TransactionPage, Error>)
    requires page.None? || page.value >= 1
    requires limit.None? || limit.value >= 1
    ensures r.Err? <==> !exists a :: a in store.accounts && a.id == accountId && a.userId == caller
    ensures r.Err? ==> r.error == NotFound
    ensures r.Ok? ==> r.value == HistoryPage(store.transactions, accountId,
                                             if page.Some? then page.value else DefaultPage,
                                             if limit.Some? then limit.value else DefaultLimit)
  {
    var pageNumber := if page.Some? then page.value else DefaultPage;
    var pageSize := if limit.Some? then limit.value else DefaultLimit;
    match OwnedAccount(store, caller, accountId)
    case None => Err(NotFound)
    case Some(_) => Ok(HistoryPage(store.transactions, accountId, pageNumber, pageSize))
  }

  /** The total and the page count are the same whichever page is asked for. */
  lemma TotalIndependentOfPage(
    store: Store, caller: UserId, accountId: AccountId, page1: int, page2: int, limit: Option<int>)
    requires page1 >= 1 && page2 >= 1
    requires limit.None? || limit.value >= 1
    ensures
      var r1 := GetAccountTransactions(store, caller, accountId, Some(page1), limit);
      var r2 := GetAccountTransactions(store, caller, accountId, Some(page2), limit);
      && r1.Ok? == r2.Ok?
      && (r1.Ok? ==>
            && r1.value.pagination.total == r2.value.pagination.total
            && r1.value.pagination.pages == r2.value.pagination.pages)
  {
  }

  /** The history, like the single-account lookup, depends on the caller's own
      accounts only: other users' accounts never change the answer. */
  lemma TransactionsHideOtherOwners(
    s1: Store, s2: Store, caller: UserId, accountId: AccountId, page: Option<int>, limit: Option<int>)
    requires page.None? || page.value >= 1
    requires limit.None? || limit.value >= 1
    requires GetAccounts(s1, caller) == GetAccounts(s2, caller) && s1.transactions == s2.transactions
    ensures GetAccountTransactions(s1, caller, accountId, page, limit) == GetAccountTransactions(s2, caller, accountId, page, limit)
  {
    FirstOfFilter(s1.accounts, OwnedAccountIs(accountId, caller), OwnerIs(caller), AccountIdIs(accountId));
    FirstOfFilter(s2.accounts, OwnedAccountIs(accountId, caller), OwnerIs(caller), AccountIdIs(accountId));
  }

  // searchAccountByNumber

  /** The answer built from a found account and its populated owner. */
  function SearchProjection(a: Account, owner: User): AccountSearchResult {
    AccountSearchResult(a.id, a.accountNumber, a.accountType,
                        owner.firstName + " " + owner.lastName, MaskEmail(owner.email))
  }

  /** Finds an active account by its number, for choosing a transfer recipient.
      The checks run in order: the number's length, an active account with
      that number, its owner's user record (a missing one makes the handler
      throw), and that the owner is not the caller. */
  function SearchAccountByNumber(store: Store, caller: UserId, accountNumber: Text): (r: Result<AccountSearchResult, Error>)
    ensures r == Err(InvalidInput) <==> |accountNumber| < 3
    ensures r == Err(NotFound) <==>
      |accountNumber| >= 3 &&
      forall a :: a in store.accounts ==> !(a.accountNumber == accountNumber && a.status == Active)
    ensures r == Err(Internal) ==>
      exists a :: a in store.accounts && a.accountNumber == accountNumber && a.status == Active &&
        forall u :: u in store.users ==> u.id != a.userId
    ensures r == Err(InvalidOperation) ==>
      exists a :: a in store.accounts && a.accountNumber == accountNumber && a.status == Active && a.userId == caller
    ensures r.Ok? ==>
      exists a, u :: a in store.accounts && a.accountNumber == accountNumber && a.status == Active &&
        u in store.users && u.id == a.userId && a.userId != caller && r.value == SearchProjection(a, u)
  {
    if |accountNumber| < 3 then Err(InvalidInput)
    else
      match First(store.accounts, ActiveWithNumber(accountNumber))
      case None => Err(NotFound)
      case Some(a) =>
        match First(store.users, UserIdIs(a.userId))
        case None => Err(Internal)
        case Some(owner) =>
          if owner.id == caller then Err(InvalidOperation)
          else Ok(SearchProjection(a, owner))
  }

  /** The outcome for a number that at most one active account carries and
      whose owner has at most one user record, check by check. */
  lemma SearchCheckOrder(store: Store, caller: UserId, accountNumber: Text, a: Account)
    requires a in store.accounts && a.accountNumber == accountNumber && a.status == Active
    requires forall b :: b in store.accounts && b.accountNumber == accountNumber && b.status == Active ==> b == a
    requires forall u, v :: u in store.users && v in store.users && u.id == v.id ==> u == v
    ensures var r := SearchAccountByNumber(store, caller, accountNumber);
      && (|accountNumber| < 3 ==> r == Err(InvalidInput))
      && (|accountNumber| >= 3 && (forall u :: u in store.users ==> u.id != a.userId) ==> r == Err(Internal))
      && (forall u :: |accountNumber| >= 3 && u in store.users && u.id == a.userId ==>
            r == if a.userId == caller then Err(InvalidOperation) else Ok(SearchProjection(a, u)))
  {
    if |accountNumber| >= 3 {
      FirstUnique(store.accounts, ActiveWithNumber(accountNumber), a);
      forall u | u in store.users && u.id == a.userId
        ensures SearchAccountByNumber(store, caller, accountNumber)
                == if a.userId == caller then Err(InvalidOperation) else Ok(SearchProjection(a, u))
      {
        FirstUnique(store.users, UserIdIs(a.userId), u);
      }
    }
  }

  /** Inactive and frozen accounts are treated as missing: removing them all
      leaves every search answer unchanged. */
  lemma SearchIgnoresInactive(store: Store, caller: UserId, accountNumber: Text)
    ensures SearchAccountByNumber(store, caller, accountNumber)
         == SearchAccountByNumber(store.(accounts := Filter(store.accounts, ActiveAccount)), caller, accountNumber)
  {
    FirstOfFilter(store.accounts, ActiveWithNumber(accountNumber), ActiveAccount, ActiveWithNumber(accountNumber));
  }

  // getAllActiveUsers

  /** The directory lists at most this many users. */
  const DirectoryLimit := 50

  function ToUserAccount(a: Account): UserAccount {
    UserAccount(a.id, a.accountNumber, a.accountType)
  }

  /** A user as the directory shows them: masked email and active accounts only. */
  function UserEntry(accounts: seq<Account>, u: User): (r: UserInfo)
    ensures r.id == u.id && r.firstName == u.firstName && r.lastName == u.lastName
    ensures r.email == MaskEmail(u.email)
    ensures forall x :: x in r.accounts <==>
      exists a :: a in accounts && a.userId == u.id && a.status == Active && x == ToUserAccount(a)
  {
    var active := Filter(accounts, ActiveOwnedBy(u.id));
    var listed := Map(active, ToUserAccount);
    assert forall x :: x in listed <==> exists a :: a in active && x == ToUserAccount(a) by {
      forall x ensures x in listed <==> exists a :: a in active && x == ToUserAccount(a) {
        if x in listed {
          var i :| 0 <= i < |listed| && listed[i] == x;
          assert active[i] in active;
        }
        if exists a :: a in active && x == ToUserAccount(a) {
          var a :| a in active && x == ToUserAccount(a);
          var i :| 0 <= i < |active| && active[i] == a;
          assert listed[i] == x;
        }
      }
    }
    UserInfo(u.id, u.firstName, u.lastName, MaskEmail(u.email), listed)
  }

  function EntryOf(accounts: seq<Account>): User -> UserInfo {
    u => UserEntry(accounts, u)
  }

  predicate ListsAccounts(u: UserInfo) {
    |u.accounts| > 0
  }

  /** Other users, each with their active accounts, for choosing a transfer
      recipient: the first fifty users other than the caller are looked at,
      and those without an active account are dropped. */
  function GetAllActiveUsers(store: Store, caller: UserId): (r: seq<UserInfo>)
    ensures |r| <= DirectoryLimit
    ensures forall e :: e in r ==> e.id != caller && |e.accounts| > 0
    ensures forall e :: e in r ==> exists i :: 0 <= i < |store.users| && |Filter(store.users[..i], OtherThan(caller))| < DirectoryLimit
                                           && store.users[i].id != caller && e == UserEntry(store.accounts, store.users[i])
  {
    var others := Filter(store.users, OtherThan(caller));
    var considered := Take(others, DirectoryLimit);
    var entries := Map(considered, EntryOf(store.accounts));
    assert forall e :: e in entries ==> exists i :: 0 <= i < |store.users| && |Filter(store.users[..i], OtherThan(caller))| < DirectoryLimit
                                                  && store.users[i].id != caller && e == UserEntry(store.accounts, store.users[i]) by {
      forall e | e in entries
        ensures exists i :: 0 <= i < |store.users| && |Filter(store.users[..i], OtherThan(caller))| < DirectoryLimit
                            && store.users[i].id != caller && e == UserEntry(store.accounts, store.users[i])
      {
        var k :| 0 <= k < |entries| && entries[k] == e;
        assert considered[k] == others[k];
        FilterIndex(store.users, OtherThan(caller), k);
        var j :| KeptAt(store.users, OtherThan(caller), k, j) && store.users[j] == others[k];
        assert e == UserEntry(store.accounts, store.users[j]);
      }
    }
    Filter(entries, ListsAccounts)
  }

  /** Every one of the first fifty users other than the caller who has an
      active account is listed. */
  lemma DirectoryComplete(store: Store, caller: UserId, i: nat)
    requires i < |store.users| && store.users[i].id != caller
    requires |Filter(store.users[..i], OtherThan(caller))| < DirectoryLimit
    requires exists a :: a in store.accounts && a.userId == store.users[i].id && a.status == Active
    ensures UserEntry(store.accounts, store.users[i]) in GetAllActiveUsers(store, caller)
  {
    var u := store.users[i];
    var before := Filter(store.users[..i], OtherThan(caller));
    var after := Filter(store.users[i + 1..], OtherThan(caller));
    assert store.users == store.users[..i] + ([u] + store.users[i + 1..]);
    FilterAppend(store.users[..i], [u] + store.users[i + 1..], OtherThan(caller));
    FilterAppend([u], store.users[i + 1..], OtherThan(caller));
    assert Filter([u], OtherThan(caller)) == [u];
    var others := Filter(store.users, OtherThan(caller));
    assert others == before + ([u] + after);
    assert others[|before|] == u;
    var considered := Take(others, DirectoryLimit);
    assert considered[|before|] == u;
    var entries := Map(considered, EntryOf(store.accounts));
    var e := UserEntry(store.accounts, u);
    assert entries[|before|] == e;
    var a :| a in store.accounts && a.userId == u.id && a.status == Active;
    assert ToUserAccount(a) in e.accounts;
  }

  /** Users after the first fifty other users are never looked at: appending
      more users leaves the directory unchanged. */
  lemma DirectoryIgnoresLaterUsers(store: Store, caller: UserId, later: seq<User>)
    requires |Filter(store.users, OtherThan(caller))| >= DirectoryLimit
    ensures GetAllActiveUsers(store.(users := store.users + later), caller) == GetAllActiveUsers(store, caller)
  {
    var others := Filter(store.users, OtherThan(caller));
    FilterAppend(store.users, later, OtherThan(caller));
    var more := others + Filter(later, OtherThan(caller));
    assert Take(more, DirectoryLimit) == Take(others, DirectoryLimit);
  }

  /** The directory keeps the users' relative order: it is the list of every
      user's entry with some entries left out. */
  lemma DirectoryKeepsOrder(store: Store, caller: UserId)
    ensures IsSubsequence(GetAllActiveUsers(store, caller), Map(store.users, EntryOf(store.accounts)))
  {
    var others := Filter(store.users, OtherThan(caller));
    var considered := Take(others, DirectoryLimit);
    var entries := Map(considered, EntryOf(store.accounts));
    FilterIsSubsequence(entries, ListsAccounts);
    TakeIsSubsequence(others, DirectoryLimit);
    MapIsMonotone(considered, others, EntryOf(store.accounts));
    FilterIsSubsequence(store.users, OtherThan(caller));
    MapIsMonotone(others, store.users, EntryOf(store.accounts));
    SubsequenceTransitive(entries, Map(others, EntryOf(store.accounts)), Map(store.users, EntryOf(store.accounts)));
    SubsequenceTransitive(GetAllActiveUsers(store, caller), entries, Map(store.users, EntryOf(store.accounts)));
  }
}
