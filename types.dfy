/** The records the account handlers read and return: the stored users,
    accounts and transactions, and the projections sent to other users. */
module Types {
  import opened Wrappers

  /** A character that is a single UTF-16 code unit, so that JavaScript's
      `length` and the regular-expression `.` count it exactly once. */
  type BmpChar = c: char | c < '\U{10000}' witness 'a'

  /** Text as JavaScript sees it: a sequence of UTF-16 code units. */
  type Text = seq<BmpChar>

  /** Opaque document ids; only compared for equality. */
  type ObjectId = nat
  type UserId = ObjectId
  type AccountId = ObjectId
  type TransactionId = ObjectId

  /** Milliseconds since the epoch. */
  type Timestamp = int

  datatype User = User(id: UserId, email: Text, firstName: Text, lastName: Text)

  datatype AccountType = Checking | Savings | Credit

  datatype AccountStatus = Active | Inactive | Frozen

  datatype Account = Account(
    id: AccountId,
    userId: UserId,
    accountNumber: Text,
    accountType: AccountType,
    balance: real,
    currency: Text,
    status: AccountStatus,
    overdraftLimit: Option<real>,
    interestRate: Option<real>,
    createdAt: Timestamp,
    updatedAt: Timestamp)

  datatype TransactionType = Deposit | Withdrawal | Transfer | Payment

  datatype TransactionStatus = Pending | Completed | Failed

  datatype Transaction = Transaction(
    id: TransactionId,
    fromAccountId: Option<AccountId>,
    toAccountId: Option<AccountId>,
    amount: real,
    currency: Text,
    transactionType: TransactionType,
    description: Text,
    status: TransactionStatus,
    reference: Text,
    createdAt: Timestamp,
    updatedAt: Timestamp)

  /** An account as listed in the directory of other users. */
  datatype UserAccount = UserAccount(id: AccountId, accountNumber: Text, accountType: AccountType)

  /** A user as listed in the directory of other users, email masked. */
  datatype UserInfo = UserInfo(id: UserId, firstName: Text, lastName: Text, email: Text, accounts: seq<UserAccount>)

  /** The answer to a search by account number, email masked. */
  datatype AccountSearchResult = AccountSearchResult(
    id: AccountId,
    accountNumber: Text,
    accountType: AccountType,
    ownerName: Text,
    ownerEmail: Text)

  /** The documents the handlers query. */
  datatype Store = Store(users: seq<User>, accounts: seq<Account>, transactions: seq<Transaction>)
}
