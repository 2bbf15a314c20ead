/** The dashboard aggregates of `src/services/apiDashboard.ts`, computed over
    the lists of books and users the dashboard is given. */
module Dashboard {
  import opened Outcomes
  import opened Rows
  import opened Lists

  datatype Stats = Stats(totalBooks: int, activeUsers: int, totalLoans: int, totalLoanedBooks: int)

  datatype CategoryTally = CategoryTally(category: string, count: int)

  datatype MonthlyLoanStat = MonthlyLoanStat(month: string, loans: int)

  /** `books.reduce((total, book) => total + (book.borrowCount || 0), 0)`. */
  function TotalBorrowCount(books: seq<Book>): int {
    if books == [] then 0 else books[0].borrowCount.GetOr(0) + TotalBorrowCount(books[1..])
  }

  /** The sum does not depend on how the list is split. */
  lemma {:induction false} TotalBorrowCountAppend(a: seq<Book>, b: seq<Book>)
    ensures TotalBorrowCount(a + b) == TotalBorrowCount(a) + TotalBorrowCount(b)
    decreases |a|
  {
    if a != [] {
      assert (a + b)[1..] == a[1..] + b;
      TotalBorrowCountAppend(a[1..], b);
    } else {
      assert a + b == b;
    }
  }

  /** Books with no recorded count contribute nothing; if no count is
      negative, the total is not negative. */
  lemma {:induction false} TotalBorrowCountNonNegative(books: seq<Book>)
    requires forall b :: b in books && b.borrowCount.Some? ==> b.borrowCount.value >= 0
    ensures TotalBorrowCount(books) >= 0
    decreases |books|
  {
    if books != [] {
      assert books[0] in books;
      TotalBorrowCountNonNegative(books[1..]);
    }
  }

  function IsActiveUser(u: User): bool { u.isActive }
  function IsLoaned(b: Book): bool { !b.available }
  function IsAvailable(b: Book): bool { b.available }

  /** The active users counted by position. */
  lemma ActiveUsersByIndex(users: seq<User>)
    ensures |Filter(users, IsActiveUser)| == |set i | 0 <= i < |users| && users[i].isActive|
  {
    FilterCountsIndices(users, IsActiveUser);
    var a := PassingIndices(users, IsActiveUser);
    var b := set i | 0 <= i < |users| && users[i].isActive;
    forall i ensures i in a <==> i in b {
      if 0 <= i < |users| {
        assert IsActiveUser(users[i]) == users[i].isActive;
      }
    }
    assert a == b;
  }

  /** The loaned books counted by position. */
  lemma LoanedBooksByIndex(books: seq<Book>)
    ensures |Filter(books, IsLoaned)| == |set i | 0 <= i < |books| && !books[i].available|
  {
    FilterCountsIndices(books, IsLoaned);
    var a := PassingIndices(books, IsLoaned);
    var b := set i | 0 <= i < |books| && !books[i].available;
    forall i ensures i in a <==> i in b {
      if 0 <= i < |books| {
        assert IsLoaned(books[i]) == !books[i].available;
      }
    }
    assert a == b;
  }

  /** `getDashboardStats`. */
  function DashboardStats(books: seq<Book>, users: seq<User>): (s: Stats)
    ensures s.totalBooks == |books|
    ensures 0 <= s.activeUsers <= |users|
    ensures 0 <= s.totalLoanedBooks <= s.totalBooks
    ensures s.activeUsers == |set i | 0 <= i < |users| && users[i].isActive|
    ensures s.totalLoanedBooks == |set i | 0 <= i < |books| && !books[i].available|
    ensures s.totalLoans == TotalBorrowCount(books)
  {
    ActiveUsersByIndex(users);
    LoanedBooksByIndex(books);
    Stats(|books|,
          |Filter(users, IsActiveUser)|,
          TotalBorrowCount(books),
          |Filter(books, IsLoaned)|)
  }

  /** The loaned books are exactly those not available, so the loaned and
      available counts add up to the number of books. */
  lemma LoanedAndAvailablePartition(books: seq<Book>, users: seq<User>)
    ensures DashboardStats(books, users).totalLoanedBooks + |Filter(books, IsAvailable)| == |books|
    ensures forall b :: b in Filter(books, IsLoaned) <==> b in books && !b.available
  {
    FilterPartition(books, IsLoaned, IsAvailable);
  }

  /** Every user counted as active is active, and every active user is counted. */
  lemma ActiveUsersCounted(users: seq<User>)
    ensures forall u :: u in Filter(users, IsActiveUser) <==> u in users && u.isActive
    ensures |Filter(users, IsActiveUser)| == |users| <==> forall u :: u in users ==> u.isActive
  {
    if forall u :: u in users ==> u.isActive {
      FilterKeepsAll(users, IsActiveUser);
    } else {
      var u :| u in users && !u.isActive;
      FilterShorter(users, IsActiveUser, u);
    }
  }

  lemma {:induction false} FilterShorter<T(!new)>(s: seq<T>, p: T -> bool, x: T)
    requires x in s && !p(x)
    ensures |Filter(s, p)| < |s|
    decreases |s|
  {
    if s[0] != x {
      FilterShorter(s[1..], p, x);
    }
  }

  /** How many books are in category `c` (counted from the end, the way the
      loop below visits them). */
  function CountInCategory(books: seq<Book>, c: string): (n: nat)
    ensures n <= |books|
  {
    if books == [] then 0
    else CountInCategory(books[..|books| - 1], c) + (if books[|books| - 1].category == c then 1 else 0)
  }

  lemma {:induction false} CountInCategoryPositive(books: seq<Book>, c: string)
    requires CountInCategory(books, c) > 0
    ensures exists i :: 0 <= i < |books| && books[i].category == c
    decreases |books|
  {
    if books[|books| - 1].category != c {
      CountInCategoryPositive(books[..|books| - 1], c);
      var i :| 0 <= i < |books| - 1 && books[..|books| - 1][i].category == c;
      assert books[i].category == c;
    }
  }

  /** A category no book carries counts zero. */
  lemma {:induction false} CountInCategoryAbsent(books: seq<Book>, c: string)
    requires forall k :: 0 <= k < |books| ==> books[k].category != c
    ensures CountInCategory(books, c) == 0
    decreases |books|
  {
    if books != [] {
      CountInCategoryAbsent(books[..|books| - 1], c);
    }
  }

  /** Sum of the tallies of `order` read off `counts`. */
  function SumOver(order: seq<string>, counts: map<string, int>): int
    requires forall c :: c in order ==> c in counts
  {
    if order == [] then 0 else SumOver(order[..|order| - 1], counts) + counts[order[|order| - 1]]
  }

  /** A count of a category that is not listed does not enter the sum. */
  lemma {:induction false} SumOverIgnores(order: seq<string>, counts: map<string, int>, c: string, v: int)
    requires forall d :: d in order ==> d in counts
    requires c !in order
    ensures SumOver(order, counts[c := v]) == SumOver(order, counts)
    decreases |order|
  {
    if order != [] {
      assert c !in order[..|order| - 1];
      SumOverIgnores(order[..|order| - 1], counts, c, v);
    }
  }

  /** Adding one to a category listed exactly once adds one to the sum. */
  lemma {:induction false} SumOverBump(order: seq<string>, counts: map<string, int>, c: string)
    requires forall d :: d in order ==> d in counts
    requires forall i, j :: 0 <= i < j < |order| ==> order[i] != order[j]
    requires c in order
    ensures SumOver(order, counts[c := counts[c] + 1]) == SumOver(order, counts) + 1
    decreases |order|
  {
    var front := order[..|order| - 1];
    if order[|order| - 1] == c {
      assert c !in front by {
        forall i | 0 <= i < |front| ensures front[i] != c {
          assert order[i] != order[|order| - 1];
        }
      }
      SumOverIgnores(front, counts, c, counts[c] + 1);
    } else {
      assert c in front by {
        var k :| 0 <= k < |order| && order[k] == c;
        assert front[k] == c;
      }
      SumOverBump(front, counts, c);
    }
  }

  function Tallies(order: seq<string>, counts: map<string, int>): (r: seq<CategoryTally>)
    requires forall c :: c in order ==> c in counts
    ensures |r| == |order|
    ensures forall i :: 0 <= i < |r| ==> r[i] == CategoryTally(order[i], counts[order[i]])
  {
    seq(|order|, i requires 0 <= i < |order| => CategoryTally(order[i], counts[order[i]]))
  }

  function TallySum(r: seq<CategoryTally>): int {
    if r == [] then 0 else TallySum(r[..|r| - 1]) + r[|r| - 1].count
  }

  lemma {:induction false} TallySumOfTallies(order: seq<string>, counts: map<string, int>)
    requires forall c :: c in order ==> c in counts
    ensures TallySum(Tallies(order, counts)) == SumOver(order, counts)
    decreases |order|
  {
    if order != [] {
      var front := order[..|order| - 1];
      assert Tallies(order, counts)[..|order| - 1] == Tallies(front, counts);
      TallySumOfTallies(front, counts);
    }
  }

  /** What the `categories` record holds after the first `n` books: `order`
      is its keys in insertion order, `counts` its values. */
  ghost predicate TalliedUpTo(books: seq<Book>, n: nat, order: seq<string>, counts: map<string, int>)
    requires n <= |books|
  {
    && (forall c :: c in order <==> c in counts)
    && (forall i, j :: 0 <= i < j < |order| ==> order[i] != order[j])
    && (forall c :: c in counts ==> counts[c] == CountInCategory(books[..n], c) >= 1)
    && (forall k :: 0 <= k < n ==> books[k].category in counts)
    && SumOver(order, counts) == n
  }

  /** Counting one more book adds one to its own category only. */
  lemma CountInCategoryStep(books: seq<Book>, n: nat, d: string)
    requires n < |books|
    ensures CountInCategory(books[..n + 1], d)
         == CountInCategory(books[..n], d) + (if books[n].category == d then 1 else 0)
  {
    assert books[..n + 1][..n] == books[..n];
  }

  /** One turn of the `forEach` for a category already in the record:
      `categories[c] = categories[c] + 1`. */
  lemma TallyBump(books: seq<Book>, n: nat, order: seq<string>, counts: map<string, int>)
    requires n < |books| && TalliedUpTo(books, n, order, counts)
    requires books[n].category in counts
    ensures TalliedUpTo(books, n + 1, order, counts[books[n].category := counts[books[n].category] + 1])
  {
    var c := books[n].category;
    var counts' := counts[c := counts[c] + 1];
    forall d | d in counts' ensures counts'[d] == CountInCategory(books[..n + 1], d) >= 1 {
      CountInCategoryStep(books, n, d);
    }
    SumOverBump(order, counts, c);
  }

  /** One turn of the `forEach` for a category not yet in the record:
      `categories[c] = 0 + 1`. */
  lemma TallyNew(books: seq<Book>, n: nat, order: seq<string>, counts: map<string, int>)
    requires n < |books| && TalliedUpTo(books, n, order, counts)
    requires books[n].category !in counts
    ensures TalliedUpTo(books, n + 1, order + [books[n].category], counts[books[n].category := 1])
  {
    var c := books[n].category;
    var order', counts' := order + [c], counts[c := 1];
    assert forall k :: 0 <= k < |books[..n]| ==> books[..n][k].category != c by {
      forall k | 0 <= k < |books[..n]| ensures books[..n][k].category != c {
        assert books[k].category in counts;
      }
    }
    CountInCategoryAbsent(books[..n], c);
    forall d | d in counts' ensures counts'[d] == CountInCategory(books[..n + 1], d) >= 1 {
      CountInCategoryStep(books, n, d);
    }
    assert c !in order;
    assert forall i, j :: 0 <= i < j < |order'| ==> order'[i] != order'[j] by {
      forall i, j | 0 <= i < j < |order'| ensures order'[i] != order'[j] {
        if j == |order| {
          assert order'[i] == order[i];
        } else {
          assert order'[i] == order[i] && order'[j] == order[j];
        }
      }
    }
    SumOverIgnores(order, counts, c, 1);
    assert order'[..|order'| - 1] == order;
    assert SumOver(order', counts') == n + 1;
  }

  /** The `forEach` that fills the `categories` record. */
  method CountCategories(books: seq<Book>) returns (order: seq<string>, counts: map<string, int>)
    ensures TalliedUpTo(books, |books|, order, counts)
  {
    counts := map[];
    order := [];
    for n := 0 to |books|
      invariant TalliedUpTo(books, n, order, counts)
    {
      var c := books[n].category;
      if c in counts {
        TallyBump(books, n, order, counts);
        counts := counts[c := counts[c] + 1];
      } else {
        TallyNew(books, n, order, counts);
        counts := counts[c := 1];
        order := order + [c];
      }
    }
  }

  /** `getBooksByCategory`: one entry per category present, in order of first
      appearance, each with the number of books in it; the counts add up to
      the number of books. */
  method BooksByCategory(books: seq<Book>) returns (r: seq<CategoryTally>)
    ensures forall i, j :: 0 <= i < j < |r| ==> r[i].category != r[j].category
    ensures forall i :: 0 <= i < |r| ==> r[i].count == CountInCategory(books, r[i].category) >= 1
    ensures forall k :: 0 <= k < |books| ==> exists i :: 0 <= i < |r| && r[i].category == books[k].category
    ensures TallySum(r) == |books|
  {
    var order, counts := CountCategories(books);
    assert books[..|books|] == books;
    r := Tallies(order, counts);
    TallySumOfTallies(order, counts);
    forall k | 0 <= k < |books|
      ensures exists i :: 0 <= i < |r| && r[i].category == books[k].category
    {
      var i :| 0 <= i < |order| && order[i] == books[k].category;
      assert r[i].category == books[k].category;
    }
  }

  const MONTHS: seq<string> := ["Jan", "Fev", "Mar", "Abr", "Mai", "Jun", "Jul", "Ago", "Set", "Out", "Nov", "Dez"]

  /** `getMonthlyLoanStats`: twelve months in fixed order, each with
      `Math.floor(Math.random() * 20) + 5` loans; `draws` are the twelve
      values `Math.random()` returned. */
  function MonthlyLoanStats(draws: seq<real>): (r: seq<MonthlyLoanStat>)
    requires |draws| == 12
    requires forall i :: 0 <= i < |draws| ==> 0.0 <= draws[i] < 1.0
    ensures |r| == 12
    ensures forall i :: 0 <= i < 12 ==> r[i].month == MONTHS[i] && 5 <= r[i].loans <= 24
  {
    seq(12, i requires 0 <= i < 12 => MonthlyLoanStat(MONTHS[i], DrawToLoans(draws[i])))
  }

  function DrawToLoans(x: real): (n: int)
    requires 0.0 <= x < 1.0
    ensures 5 <= n <= 24
  {
    (x * 20.0).Floor + 5
  }

  /** The largest value is 24, reached by a draw of 0.95 or more: the
      upper end 25 of the range in the source's comment is never produced. */
  lemma MonthlyMaximumIs24()
    ensures DrawToLoans(0.95) == 24
    ensures forall x: real :: 0.0 <= x < 1.0 ==> DrawToLoans(x) != 25
  {
    assert (0.95 * 20.0).Floor == 19;
  }
}
