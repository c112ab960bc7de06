/** The transaction-history query of one account: the transactions that move
    money from or to it, newest first, cut into pages by skip and limit. */
module LedgerQuery {
  import opened Wrappers
  import opened Types
  import opened Seqs

  /** The query `{ $or: [{ fromAccountId: id }, { toAccountId: id }] }`. */
  predicate Touches(t: Transaction, id: AccountId) {
    t.fromAccountId == Some(id) || t.toAccountId == Some(id)
  }

  function TouchesAccount(id: AccountId): Transaction -> bool {
    t => Touches(t, id)
  }

  /** Every transaction is at least as recent as the ones after it. */
  ghost predicate NewestFirst(s: seq<Transaction>) {
    forall i, j :: 0 <= i < j < |s| ==> s[i].createdAt >= s[j].createdAt
  }

  /** Puts t into a list that is already newest first, before the first entry
      that is not more recent than t. */
  function InsertByDate(t: Transaction, s: seq<Transaction>): (r: seq<Transaction>)
    requires NewestFirst(s)
    ensures NewestFirst(r)
    ensures multiset(r) == multiset(s) + multiset{t}
  {
    if s == [] || t.createdAt >= s[0].createdAt then
      [t] + s
    else
      var rest := InsertByDate(t, s[1..]);
      assert s == [s[0]] + s[1..];
      assert forall k :: 0 <= k < |rest| ==> rest[k].createdAt <= s[0].createdAt by {
        forall k | 0 <= k < |rest| ensures rest[k].createdAt <= s[0].createdAt {
          assert rest[k] in multiset(rest);
          if rest[k] != t {
            assert rest[k] in multiset(s[1..]);
            var j :| 0 <= j < |s[1..]| && s[1..][j] == rest[k];
            assert s[j + 1] == rest[k];
          }
        }
      }
      [s[0]] + rest
  }

  /** `sort({ createdAt: -1 })`: the same transactions, newest first. */
  function SortNewestFirst(s: seq<Transaction>): (r: seq<Transaction>)
    ensures NewestFirst(r)
    ensures multiset(r) == multiset(s)
  {
    if s == [] then []
    else
      assert s == [s[0]] + s[1..];
      InsertByDate(s[0], SortNewestFirst(s[1..]))
  }

  /** An account's whole history: exactly the transactions touching it, newest first. */
  function AccountHistory(txs: seq<Transaction>, id: AccountId): (r: seq<Transaction>)
    ensures NewestFirst(r)
    ensures multiset(r) == multiset(Filter(txs, TouchesAccount(id)))
    ensures forall t :: t in r <==> t in txs && Touches(t, id)
  {
    var f := Filter(txs, TouchesAccount(id));
    var r := SortNewestFirst(f);
    SameMembers(r, f);
    r
  }

  lemma SameMembers<T>(a: seq<T>, b: seq<T>)
    requires multiset(a) == multiset(b)
    ensures forall x :: x in a <==> x in b
  {
    forall x ensures x in a <==> x in b {
      assert x in a <==> x in multiset(a);
      assert x in b <==> x in multiset(b);
    }
  }

  /** No two entries of s were created at the same time. */
  ghost predicate DistinctDates(s: seq<Transaction>) {
    forall i, j :: 0 <= i < j < |s| ==> s[i].createdAt != s[j].createdAt
  }

  /** With distinct creation times there is only one newest-first order of a
      collection of transactions: any two newest-first permutations agree. */
  lemma {:induction false} NewestFirstUnique(a: seq<Transaction>, b: seq<Transaction>)
    requires NewestFirst(a) && NewestFirst(b) && DistinctDates(a)
    requires multiset(a) == multiset(b)
    ensures a == b
  {
    if a == [] {
      assert |b| == |multiset(b)| == 0;
    } else {
      SameHead(a, b);
      SameTails(a, b);
      NewestFirstUnique(a[1..], b[1..]);
      assert a == [a[0]] + a[1..] && b == [b[0]] + b[1..];
    }
  }

  /** The first entries agree: both are the unique newest transaction. */
  lemma SameHead(a: seq<Transaction>, b: seq<Transaction>)
    requires NewestFirst(a) && NewestFirst(b) && DistinctDates(a)
    requires multiset(a) == multiset(b) && a != []
    ensures b != [] && a[0] == b[0]
  {
    assert a[0] in multiset(b);
    assert b != [];
    assert b[0] in multiset(a);
    var i :| 0 <= i < |a| && a[i] == b[0];
    var j :| 0 <= j < |b| && b[j] == a[0];
    assert a[0].createdAt >= a[i].createdAt == b[0].createdAt >= b[j].createdAt;
  }

  lemma SameTails(a: seq<Transaction>, b: seq<Transaction>)
    requires multiset(a) == multiset(b) && a != [] && b != [] && a[0] == b[0]
    ensures multiset(a[1..]) == multiset(b[1..])
  {
    assert a == [a[0]] + a[1..] && b == [b[0]] + b[1..];
    assert multiset(a) == multiset{a[0]} + multiset(a[1..]);
    assert multiset(b) == multiset{a[0]} + multiset(b[1..]);
    assert multiset(a[1..]) == multiset(a) - multiset{a[0]};
    assert multiset(b[1..]) == multiset(b) - multiset{a[0]};
  }

  /** When the account's transactions have distinct creation times, any
      newest-first arrangement of them is the history the model reads, so
      every request cuts its page from that same list. */
  lemma HistoryOrderUnique(txs: seq<Transaction>, id: AccountId, sorted: seq<Transaction>)
    requires DistinctDates(AccountHistory(txs, id))
    requires NewestFirst(sorted) && multiset(sorted) == multiset(Filter(txs, TouchesAccount(id)))
    ensures sorted == AccountHistory(txs, id)
  {
    NewestFirstUnique(AccountHistory(txs, id), sorted);
  }

  function Min(x: int, y: int): int { if x <= y then x else y }

  function Max(x: int, y: int): int { if x <= y then y else x }

  /** `skip(skip).limit(limit)`: the entries s[skip], s[skip+1], ... and at most limit of them. */
  function PageWindow<T>(s: seq<T>, skip: nat, limit: nat): (r: seq<T>)
    ensures |r| == Min(limit, Max(0, |s| - skip))
    ensures forall i :: 0 <= i < |r| ==> r[i] == s[skip + i]
  {
    var rest := if skip >= |s| then [] else s[skip..];
    Take(rest, limit)
  }

  /** A window of a newest-first list is newest first. */
  lemma {:induction false} WindowNewestFirst(s: seq<Transaction>, skip: nat, limit: nat)
    requires NewestFirst(s)
    ensures NewestFirst(PageWindow(s, skip, limit))
  {
    var r := PageWindow(s, skip, limit);
    forall i, j | 0 <= i < j < |r| ensures r[i].createdAt >= r[j].createdAt {
      assert r[i] == s[skip + i] && r[j] == s[skip + j];
    }
  }

  /** `Math.ceil(n / d)` for a positive whole d: the least number of pages of d
      entries that together hold n entries. */
  function CeilDiv(n: nat, d: nat): (r: nat)
    requires d >= 1
    ensures r * d >= n
    ensures r == 0 || (r - 1) * d < n
  {
    var q := (n + d - 1) / d;
    assert q * d + (n + d - 1) % d == n + d - 1;
    assert (q - 1) * d == q * d - d;
    q
  }

  datatype Pagination = Pagination(page: int, limit: int, total: nat, pages: nat)

  datatype TransactionPage = TransactionPage(transactions: seq<Transaction>, pagination: Pagination)

  /** `(page - 1) * limit`: how many entries come before page `page`. */
  function Offset(page: int, limit: int): nat
    requires page >= 1 && limit >= 1
  {
    MulMonotone(0, page - 1, limit);
    (page - 1) * limit
  }

  /** Page `page` of an account's history with `limit` entries per page, and
      the figures that describe the paging: the whole history's size and the
      number of pages it fills. */
  function HistoryPage(txs: seq<Transaction>, id: AccountId, page: int, limit: int): (r: TransactionPage)
    requires page >= 1 && limit >= 1
    ensures r.pagination.page == page && r.pagination.limit == limit
    ensures r.pagination.total == |AccountHistory(txs, id)|
    ensures r.pagination.pages == CeilDiv(r.pagination.total, limit)
    ensures |r.transactions| == Min(limit, Max(0, r.pagination.total - Offset(page, limit)))
    ensures forall i :: 0 <= i < |r.transactions| ==>
      r.transactions[i] == AccountHistory(txs, id)[Offset(page, limit) + i]
    ensures NewestFirst(r.transactions)
    ensures forall t :: t in r.transactions ==> t in txs && Touches(t, id)
  {
    var skip := Offset(page, limit);
    var history := AccountHistory(txs, id);
    var total := |Filter(txs, TouchesAccount(id))|;
    assert total == |history| by {
      assert |multiset(history)| == |history|;
    }
    var window := PageWindow(history, skip, limit);
    WindowNewestFirst(history, skip, limit);
    assert forall t :: t in window ==> t in history;
    TransactionPage(window, Pagination(page, limit, total, CeilDiv(total, limit)))
  }

  /** Pages 1 to n of s, one after the other. */
  function Pages<T>(s: seq<T>, limit: nat, n: nat): seq<T> {
    if n == 0 then [] else Pages(s, limit, n - 1) + PageWindow(s, (n - 1) * limit, limit)
  }

  /** Reading pages 1 to n in turn gives the first n * limit entries. */
  lemma {:induction false} PagesArePrefix<T>(s: seq<T>, limit: nat, n: nat)
    ensures Pages(s, limit, n) == Take(s, n * limit)
  {
    if n > 0 {
      PagesArePrefix(s, limit, n - 1);
      var k := (n - 1) * limit;
      assert k + limit == n * limit by {
        MulPred(n, limit);
      }
      PrefixThenWindow(s, k, limit);
    }
  }

  lemma MulPred(n: nat, d: nat)
    requires n >= 1
    ensures (n - 1) * d + d == n * d
  {
  }

  lemma PrefixThenWindow<T>(s: seq<T>, k: nat, limit: nat)
    ensures Take(s, k) + PageWindow(s, k, limit) == Take(s, k + limit)
  {
    var w := PageWindow(s, k, limit);
    var t := Take(s, k + limit);
    assert |Take(s, k) + w| == |t|;
    forall i | 0 <= i < |t| ensures (Take(s, k) + w)[i] == t[i] {
      if i >= k {
        assert w[i - k] == s[k + (i - k)];
      }
    }
  }

  /** Reading every page, 1 to ceil(total / limit), gives the whole history exactly once. */
  lemma PagesCoverHistory<T>(s: seq<T>, limit: nat)
    requires limit >= 1
    ensures Pages(s, limit, CeilDiv(|s|, limit)) == s
  {
    PagesArePrefix(s, limit, CeilDiv(|s|, limit));
  }

  /** A page is empty exactly when it lies past the last page. */
  lemma PageEmptyIffPastLast<T>(s: seq<T>, page: nat, limit: nat)
    requires page >= 1 && limit >= 1
    ensures PageWindow(s, (page - 1) * limit, limit) == [] <==> page > CeilDiv(|s|, limit)
  {
    var n := CeilDiv(|s|, limit);
    if page > n {
      MulMonotone(n, page - 1, limit);
    } else {
      MulMonotone(page - 1, n - 1, limit);
    }
  }

  lemma MulMonotone(a: nat, b: nat, d: nat)
    requires a <= b
    ensures a * d <= b * d
  {
    assert b * d == a * d + (b - a) * d;
  }
}
