/**
 Scanning forward for failed Soroban transactions (tools/rpc-probe/src/scan.rs:29-108):
 what is reported, and exactly when something is missed or reported twice.
 */
module Scanning {
  import opened Common
  import opened Soroban
  import opened Paging

  datatype FoundTransaction = FoundTransaction(hash: string, ledger: nat, operation: string)

  /** A page, and the ledger it was asked for from. */
  datatype PageRead = PageRead(ledger: U32, transactions: seq<Transaction>)

  type Respond = (nat, Request) -> Option<Page>

  const LAST_LEDGER: U32 := 0xffff_ffff

  function Take<T>(s: seq<T>, n: nat): seq<T> {
    s[..Min(n, |s|)]
  }

  /** The failed Soroban transactions, in order. */
  function Failures(txs: seq<Transaction>): (r: seq<FoundTransaction>)
    ensures |r| <= |txs|
  {
    if txs == [] then []
    else
      var earlier, tx := Failures(txs[..|txs| - 1]), txs[|txs| - 1];
      if tx.failed.Some? then earlier + [FoundTransaction(tx.hash, tx.ledger, tx.failed.value)] else earlier
  }

  lemma {:induction false} FailuresConcat(a: seq<Transaction>, b: seq<Transaction>)
    ensures Failures(a + b) == Failures(a) + Failures(b)
    decreases |b|
  {
    if b == [] {
      assert a + b == a;
    } else {
      assert (a + b)[..|a + b| - 1] == a + b[..|b| - 1];
      FailuresConcat(a, b[..|b| - 1]);
    }
  }

  /** Where the scan goes on after a page: past its last ledger, as far as 32 bits go. */
  function NextLedger(txs: seq<Transaction>): U32
    requires txs != []
  {
    Min(txs[|txs| - 1].ledger + 1, LAST_LEDGER)
  }

  /** The pages a scan reads that still wants `room` transactions and may read `left` pages. */
  function PagesRead(respond: Respond, n: nat, ledger: U32, room: nat, left: nat): Option<seq<PageRead>>
    decreases left
  {
    if left == 0 || room == 0 then Some([])
    else
      match respond(n, StartLedger(ledger))
      case None => None
      case Some(Page(txs, _)) =>
        var page, found := PageRead(ledger, txs), |Failures(txs)|;
        if txs == [] || found >= room || NextLedger(txs) <= ledger then Some([page])
        else
          match PagesRead(respond, n + 1, NextLedger(txs), room - found, left - 1)
          case None => None
          case Some(more) => Some([page] + more)
  }

  function All(pages: seq<PageRead>): seq<Transaction> {
    if pages == [] then [] else All(pages[..|pages| - 1]) + pages[|pages| - 1].transactions
  }

  lemma AllOne(pages: seq<PageRead>, page: PageRead)
    ensures All(pages + [page]) == All(pages) + page.transactions
  {
    assert (pages + [page])[..|pages + [page]| - 1] == pages;
  }

  // ---------------------------------------------------------------- the code

  lemma NoFailures()
    ensures Failures([]) == []
  {
  }

  lemma EnoughFound(txs: seq<Transaction>, i: nat, room: nat)
    requires i <= |txs| && |Failures(txs[..i])| == room
    ensures Take(Failures(txs), room) == Failures(txs[..i])
  {
    assert txs == txs[..i] + txs[i..];
    FailuresConcat(txs[..i], txs[i..]);
    hide Failures;
  }

  lemma OneMoreLooked(txs: seq<Transaction>, i: nat)
    requires i < |txs|
    ensures Failures(txs[..i + 1])
            == if txs[i].failed.None? then Failures(txs[..i])
               else Failures(txs[..i]) + [FoundTransaction(txs[i].hash, txs[i].ledger, txs[i].failed.value)]
  {
    assert txs[..i + 1][..i] == txs[..i];
  }

  /** The inner loop: a page's failed Soroban transactions are kept, as many as are wanted. */
  method ScanPage(ledger: U32, txs: seq<Transaction>, found: seq<FoundTransaction>, want: nat)
    returns (found': seq<FoundTransaction>, lastLedger: U32)
    requires |found| < want
    ensures found' == found + Take(Failures(txs), want - |found|)
    ensures |found'| < want ==> lastLedger == if txs == [] then ledger else txs[|txs| - 1].ledger
  {
    hide Failures;
    found', lastLedger := found, ledger;
    assert Failures(txs[..0]) == [] by { NoFailures(); }
    for i := 0 to |txs|
      invariant |found'| < want && found' == found + Failures(txs[..i])
      invariant lastLedger == if i == 0 then ledger else txs[i - 1].ledger
    {
      var tx := txs[i];
      OneMoreLooked(txs, i);
      lastLedger := tx.ledger;
      if tx.failed.Some? {
        found' := found' + [FoundTransaction(tx.hash, lastLedger, tx.failed.value)];
        if |found'| >= want {
          EnoughFound(txs, i + 1, want - |found|);
          return;
        }
      }
    }
    assert txs[..|txs|] == txs;
  }

  /** What the scan has read and found so far, and what it is going to read. */
  ghost predicate Underway(respond: Respond, full: Option<seq<PageRead>>, done: seq<PageRead>, n: nat, ledger: U32,
                           found: seq<FoundTransaction>, want: nat, left: nat)
  {
    && found == Take(Failures(All(done)), want)
    && match PagesRead(respond, n, ledger, want - |found|, left)
       case None => full == None
       case Some(more) => full == Some(done + more)
  }

  lemma ReadsAPage(respond: Respond, full: Option<seq<PageRead>>, done: seq<PageRead>, n: nat, ledger: U32,
                   found: seq<FoundTransaction>, want: nat, left: nat, txs: seq<Transaction>)
    requires Underway(respond, full, done, n, ledger, found, want, left) && |found| < want && left > 0
    requires respond(n, StartLedger(ledger)).Some? && respond(n, StartLedger(ledger)).value.transactions == txs
    ensures var done', found' := done + [PageRead(ledger, txs)], found + Take(Failures(txs), want - |found|);
            && found' == Take(Failures(All(done')), want)
            && (txs == [] ==> found' == found)
            && (txs == [] || |found'| >= want || NextLedger(txs) <= ledger ==> full == Some(done'))
            && (txs != [] && |found'| < want && NextLedger(txs) > ledger ==>
                  Underway(respond, full, done', n + 1, NextLedger(txs), found', want, left - 1))
  {
    var page := PageRead(ledger, txs);
    AllOne(done, page);
    FailuresConcat(All(done), txs);
    NoFailures();
    hide Failures, All;
    assert found == Failures(All(done));
    var found' := found + Take(Failures(txs), want - |found|);
    assert found' == Take(found + Failures(txs), want);
    if txs != [] && |found'| < want && NextLedger(txs) > ledger {
      assert found' == found + Failures(txs);
      var rest := PagesRead(respond, n + 1, NextLedger(txs), want - |found'|, left - 1);
      if rest.Some? {
        assert done + ([page] + rest.value) == done + [page] + rest.value;
      }
    }
  }

  lemma Begins(respond: Respond, n: nat, start: U32, want: nat, maxPages: nat)
    ensures Underway(respond, PagesRead(respond, n, start, want, maxPages), [], n, start, [], want, maxPages)
  {
    var full := PagesRead(respond, n, start, want, maxPages);
    assert full.Some? ==> [] + full.value == full.value;
  }

  /**
   Reports the first `want` failed Soroban transactions of the pages read, in
   order, or nothing if a page cannot be read.
   */
  method ScanForFailed(server: Server, start: U32, want: nat, maxPages: nat) returns (r: Option<seq<FoundTransaction>>)
    modifies server
    ensures var pages := PagesRead(server.respond, old(server.calls), start, want, maxPages);
            match pages
            case None => r == None
            case Some(read) => r == Some(Take(Failures(All(read)), want))
    ensures server.calls <= old(server.calls) + maxPages
  {
    hide Failures, All, Underway;
    var found: seq<FoundTransaction> := [];
    var ledger: U32 := start;
    var page := 0;
    ghost var full := PagesRead(server.respond, server.calls, start, want, maxPages);
    ghost var done: seq<PageRead> := [];
    Begins(server.respond, server.calls, start, want, maxPages);
    while page < maxPages && |found| < want
      invariant page <= maxPages && |found| <= want && server.calls == old(server.calls) + page
      invariant Underway(server.respond, full, done, server.calls, ledger, found, want, maxPages - page)
      decreases maxPages - page
    {
      var result := server.Call(StartLedger(ledger));
      if result.None? {
        CannotRead(server.respond, full, done, server.calls - 1, ledger, found, want, maxPages - page);
        return None;
      }
      var txs := result.value.transactions;
      ReadsAPage(server.respond, full, done, server.calls - 1, ledger, found, want, maxPages - page, txs);
      done := done + [PageRead(ledger, txs)];
      if txs == [] {
        return Some(found);
      }
      var lastLedger: U32;
      found, lastLedger := ScanPage(ledger, txs, found, want);
      var next := Min(lastLedger + 1, LAST_LEDGER);
      if next <= ledger {
        return Some(found);
      }
      if |found| >= want {
        HasEnough(server.respond, full, done, server.calls, next, found, want, maxPages - page - 1);
      }
      ledger := next;
      page := page + 1;
    }
    Finishes(server.respond, full, done, server.calls, ledger, found, want, maxPages - page);
    r := Some(found);
  }

  lemma CannotRead(respond: Respond, full: Option<seq<PageRead>>, done: seq<PageRead>, n: nat, ledger: U32,
                   found: seq<FoundTransaction>, want: nat, left: nat)
    requires Underway(respond, full, done, n, ledger, found, want, left) && |found| < want && left > 0
    requires respond(n, StartLedger(ledger)).None?
    ensures full == None
  {
  }

  lemma HasEnough(respond: Respond, full: Option<seq<PageRead>>, done: seq<PageRead>, n: nat, ledger: U32,
                  found: seq<FoundTransaction>, want: nat, left: nat)
    requires full == Some(done) && found == Take(Failures(All(done)), want) && |found| >= want
    ensures Underway(respond, full, done, n, ledger, found, want, left)
  {
    assert done + [] == done;
  }

  lemma Finishes(respond: Respond, full: Option<seq<PageRead>>, done: seq<PageRead>, n: nat, ledger: U32,
                 found: seq<FoundTransaction>, want: nat, left: nat)
    requires Underway(respond, full, done, n, ledger, found, want, left) && (left == 0 || |found| >= want)
    ensures full == Some(done) && found == Take(Failures(All(done)), want)
  {
    assert done + [] == done;
  }

  // ------------------------------------------------- against a faithful server

  predicate FailedAt(history: seq<Transaction>, q: nat) {
    q < |history| && history[q].failed.Some?
  }

  /** Where a stretch of the history has failed Soroban transactions. */
  function PlacesIn(history: seq<Transaction>, p: nat, n: nat): (r: seq<nat>)
    requires p + n <= |history|
  {
    if n == 0 then []
    else PlacesIn(history, p, n - 1) + if FailedAt(history, p + n - 1) then [p + n - 1] else []
  }

  lemma {:induction false} PlacesInAre(history: seq<Transaction>, p: nat, n: nat)
    requires p + n <= |history|
    ensures forall q: nat :: q in PlacesIn(history, p, n) <==> p <= q < p + n && FailedAt(history, q)
    ensures Ascending(PlacesIn(history, p, n))
  {
    if n > 0 {
      PlacesInAre(history, p, n - 1);
      var earlier := PlacesIn(history, p, n - 1);
      assert forall i :: 0 <= i < |earlier| ==> earlier[i] in earlier;
    }
  }

  ghost predicate Ascending(at: seq<nat>) {
    forall i, j :: 0 <= i < j < |at| ==> at[i] < at[j]
  }

  /** Each page starts where its ledger does, and ends where its transactions do. */
  function StartOf(history: seq<Transaction>, page: PageRead): nat {
    FirstOf(history, page.ledger)
  }

  function EndOf(history: seq<Transaction>, page: PageRead): nat {
    StartOf(history, page) + |page.transactions|
  }

  ghost predicate Served(history: seq<Transaction>, page: PageRead) {
    NextPage(history, StartOf(history, page), page.transactions)
  }

  ghost predicate AllServed(history: seq<Transaction>, pages: seq<PageRead>) {
    forall i :: 0 <= i < |pages| ==> Served(history, pages[i])
  }

  /** Each page after the first is asked for past the last ledger of the one before. */
  ghost predicate Linked(pages: seq<PageRead>, start: U32) {
    && (pages != [] ==> pages[0].ledger == start)
    && forall i :: 0 <= i < |pages| - 1 ==> Follows(pages[i], pages[i + 1])
  }

  predicate Follows(page: PageRead, next: PageRead) {
    page.transactions != [] && next.ledger == NextLedger(page.transactions) && next.ledger > page.ledger
  }

  /** What a faithful server's pages are. */
  ghost predicate Sound(history: seq<Transaction>, pages: seq<PageRead>, start: U32) {
    LedgerOrdered(history) && Linked(pages, start) && AllServed(history, pages)
  }

  /** The scan stops after this page. */
  predicate EndsWith(ledger: U32, txs: seq<Transaction>, room: nat) {
    txs == [] || |Failures(txs)| >= room || NextLedger(txs) <= ledger
  }

  lemma PagesUnfold(respond: Respond, n: nat, ledger: U32, room: nat, left: nat)
    requires left > 0 && room > 0 && PagesRead(respond, n, ledger, room, left).Some?
    ensures respond(n, StartLedger(ledger)).Some?
    ensures var txs := respond(n, StartLedger(ledger)).value.transactions;
            var pages := PagesRead(respond, n, ledger, room, left);
            if EndsWith(ledger, txs, room) then pages == Some([PageRead(ledger, txs)])
            else
              && txs != [] && NextLedger(txs) > ledger && |Failures(txs)| <= room
              && var more := PagesRead(respond, n + 1, NextLedger(txs), room - |Failures(txs)|, left - 1);
                 more.Some? && pages == Some([PageRead(ledger, txs)] + more.value)
  {
    hide Failures, NextLedger;
  }

  lemma NoPages(respond: Respond, n: nat, ledger: U32, room: nat, left: nat)
    requires left == 0 || room == 0
    ensures PagesRead(respond, n, ledger, room, left) == Some([])
  {
  }

  lemma {:induction false} ReadsSoundly(history: seq<Transaction>, respond: Respond, n: nat, ledger: U32, room: nat,
                                        left: nat)
    requires Faithful(history, respond) && PagesRead(respond, n, ledger, room, left).Some?
    ensures Sound(history, PagesRead(respond, n, ledger, room, left).value, ledger)
    decreases left
  {
    hide *;
    if left == 0 || room == 0 {
      NoPages(respond, n, ledger, room, left);
      NoneServed(history, respond, ledger);
    } else {
      PagesUnfold(respond, n, ledger, room, left);
      PageServed(history, respond, n, ledger);
      var txs := respond(n, StartLedger(ledger)).value.transactions;
      if EndsWith(ledger, txs, room) {
        OneServed(history, PageRead(ledger, txs));
      } else {
        ReadsSoundly(history, respond, n + 1, NextLedger(txs), room - |Failures(txs)|, left - 1);
        SoundMore(history, PageRead(ledger, txs),
                  PagesRead(respond, n + 1, NextLedger(txs), room - |Failures(txs)|, left - 1).value);
      }
    }
  }

  lemma NoneServed(history: seq<Transaction>, respond: Respond, start: U32)
    requires Faithful(history, respond)
    ensures Sound(history, [], start)
  {
  }

  lemma PageServed(history: seq<Transaction>, respond: Respond, n: nat, ledger: U32)
    requires Faithful(history, respond) && respond(n, StartLedger(ledger)).Some?
    ensures LedgerOrdered(history)
    ensures Served(history, PageRead(ledger, respond(n, StartLedger(ledger)).value.transactions))
  {
    assert Serves(history, StartLedger(ledger), respond(n, StartLedger(ledger)).value);
  }

  lemma OneServed(history: seq<Transaction>, page: PageRead)
    requires LedgerOrdered(history) && Served(history, page)
    ensures Sound(history, [page], page.ledger)
  {
    hide Served, LedgerOrdered;
  }

  lemma SoundMore(history: seq<Transaction>, page: PageRead, more: seq<PageRead>)
    requires page.transactions != [] && NextLedger(page.transactions) > page.ledger && Served(history, page)
    requires Sound(history, more, NextLedger(page.transactions))
    ensures Sound(history, [page] + more, page.ledger)
  {
    hide Served, LedgerOrdered;
    LinkOne(page, more);
  }

  lemma LinkOne(page: PageRead, more: seq<PageRead>)
    requires page.transactions != [] && NextLedger(page.transactions) > page.ledger
    requires Linked(more, NextLedger(page.transactions))
    ensures Linked([page] + more, page.ledger)
  {
    var pages := [page] + more;
    forall i | 0 <= i < |pages| - 1
      ensures Follows(pages[i], pages[i + 1])
    {
      assert i > 0 ==> pages[i] == more[i - 1] && pages[i + 1] == more[i - 1 + 1];
    }
  }

  /** The places of the failed Soroban transactions of the pages read, in the order they are met. */
  function Places(history: seq<Transaction>, pages: seq<PageRead>): seq<nat>
    requires AllServed(history, pages)
  {
    if pages == [] then []
    else
      var n := |pages| - 1;
      assert Served(history, pages[n]);
      Places(history, pages[..n]) + PlacesIn(history, StartOf(history, pages[n]), |pages[n].transactions|)
  }

  /** The place is on one of the pages. */
  ghost predicate OnAPage(history: seq<Transaction>, pages: seq<PageRead>, q: nat) {
    exists i :: 0 <= i < |pages| && StartOf(history, pages[i]) <= q < EndOf(history, pages[i])
  }

  lemma {:induction false} PlacesAre(history: seq<Transaction>, pages: seq<PageRead>)
    requires AllServed(history, pages)
    ensures forall q: nat :: q in Places(history, pages) <==> OnAPage(history, pages, q) && FailedAt(history, q)
    decreases |pages|
  {
    if pages != [] {
      var n := |pages| - 1;
      PlacesAre(history, pages[..n]);
      PlacesInAre(history, StartOf(history, pages[n]), |pages[n].transactions|);
      hide PlacesIn, Served, FirstOf, FailedAt;
      forall q: nat
        ensures OnAPage(history, pages, q)
                <==> OnAPage(history, pages[..n], q) || StartOf(history, pages[n]) <= q < EndOf(history, pages[n])
      {
        OnOneMore(history, pages, q);
      }
    }
  }

  lemma OnOneMore(history: seq<Transaction>, pages: seq<PageRead>, q: nat)
    requires pages != []
    ensures var n := |pages| - 1;
            OnAPage(history, pages, q)
            <==> OnAPage(history, pages[..n], q) || StartOf(history, pages[n]) <= q < EndOf(history, pages[n])
  {
    hide StartOf, EndOf;
    var n := |pages| - 1;
    if OnAPage(history, pages[..n], q) {
      var i :| 0 <= i < n && StartOf(history, pages[..n][i]) <= q < EndOf(history, pages[..n][i]);
      assert pages[i] == pages[..n][i];
    }
    if OnAPage(history, pages, q) {
      var i :| 0 <= i < |pages| && StartOf(history, pages[i]) <= q < EndOf(history, pages[i]);
      assert i < n ==> pages[..n][i] == pages[i];
    }
  }

  /** What is at a place, as it is reported. */
  function Found(t: Transaction): FoundTransaction
    requires t.failed.Some?
  {
    FoundTransaction(t.hash, t.ledger, t.failed.value)
  }

  ghost predicate Reports(history: seq<Transaction>, places: seq<nat>, found: seq<FoundTransaction>) {
    && |places| == |found|
    && forall i :: 0 <= i < |places| ==> FailedAt(history, places[i]) && found[i] == Found(history[places[i]])
  }

  lemma {:induction false} StretchReports(history: seq<Transaction>, p: nat, n: nat)
    requires p + n <= |history|
    ensures Reports(history, PlacesIn(history, p, n), Failures(history[p..p + n]))
  {
    var txs := history[p..p + n];
    if n > 0 {
      StretchReports(history, p, n - 1);
      assert txs[..n - 1] == history[p..p + (n - 1)] && txs[n - 1] == history[p + n - 1];
    }
  }

  lemma ReportsConcat(history: seq<Transaction>, a: seq<nat>, fa: seq<FoundTransaction>, b: seq<nat>,
                      fb: seq<FoundTransaction>)
    requires Reports(history, a, fa) && Reports(history, b, fb)
    ensures Reports(history, a + b, fa + fb)
  {
    hide FailedAt;
  }

  lemma LastPlaces(history: seq<Transaction>, pages: seq<PageRead>)
    requires AllServed(history, pages) && pages != []
    ensures var n := |pages| - 1;
            && AllServed(history, pages[..n]) && Served(history, pages[n])
            && Places(history, pages)
               == Places(history, pages[..n]) + PlacesIn(history, StartOf(history, pages[n]), |pages[n].transactions|)
            && All(pages) == All(pages[..n]) + pages[n].transactions
  {
    hide Served, PlacesIn, FirstOf;
  }

  lemma ServedIs(history: seq<Transaction>, page: PageRead)
    requires Served(history, page)
    ensures var p, n := StartOf(history, page), |page.transactions|;
            p + n <= |history| && page.transactions == history[p..p + n]
  {
    hide FirstOf;
  }

  lemma PageReports(history: seq<Transaction>, page: PageRead)
    requires Served(history, page)
    ensures StartOf(history, page) + |page.transactions| <= |history|
    ensures var places := PlacesIn(history, StartOf(history, page), |page.transactions|);
            Reports(history, places, Failures(page.transactions))
  {
    hide *;
    ServedIs(history, page);
    StretchReports(history, StartOf(history, page), |page.transactions|);
  }

  lemma NothingReported(history: seq<Transaction>)
    ensures Reports(history, Places(history, []), Failures(All([])))
  {
  }

  /** What is reported is what the history has at those places. */
  lemma {:induction false} PagesReport(history: seq<Transaction>, pages: seq<PageRead>)
    requires AllServed(history, pages)
    ensures Reports(history, Places(history, pages), Failures(All(pages)))
    decreases |pages|
  {
    hide *;
    if pages == [] {
      NothingReported(history);
    } else {
      var n := |pages| - 1;
      var page := pages[n];
      LastPlaces(history, pages);
      PageReports(history, page);
      PagesReport(history, pages[..n]);
      FailuresConcat(All(pages[..n]), page.transactions);
      ReportsConcat(history, Places(history, pages[..n]), Failures(All(pages[..n])),
                    PlacesIn(history, StartOf(history, page), |page.transactions|), Failures(page.transactions));
    }
  }

  // ------------------------------------------------------ when something is missed

  function LastLedgerOf(page: PageRead): U32
    requires page.transactions != []
  {
    page.transactions[|page.transactions| - 1].ledger
  }

  lemma Before(history: seq<Transaction>, ledger: U32, q: nat)
    requires LedgerOrdered(history) && q < |history|
    ensures q < FirstOf(history, ledger) <==> history[q].ledger < ledger
  {
  }

  lemma FirstOfRises(history: seq<Transaction>, a: U32, b: U32)
    requires LedgerOrdered(history) && a <= b
    ensures FirstOf(history, a) <= FirstOf(history, b)
  {
    if FirstOf(history, b) < |history| {
      Before(history, a, FirstOf(history, b));
    }
  }

  lemma {:induction false} StartsRise(history: seq<Transaction>, pages: seq<PageRead>, start: U32, j: nat, k: nat)
    requires Sound(history, pages, start) && j <= k < |pages|
    ensures pages[j].ledger <= pages[k].ledger && (j < k ==> pages[j].ledger < pages[k].ledger)
    ensures StartOf(history, pages[j]) <= StartOf(history, pages[k])
    decreases k
  {
    if j < k {
      StartsRise(history, pages, start, j, k - 1);
      assert Follows(pages[k - 1], pages[k - 1 + 1]);
      hide Sound, FirstOf;
      assert LedgerOrdered(history) by { Ordered(history, pages, start); }
      FirstOfRises(history, pages[k - 1].ledger, pages[k].ledger);
    }
  }

  lemma Ordered(history: seq<Transaction>, pages: seq<PageRead>, start: U32)
    requires Sound(history, pages, start)
    ensures LedgerOrdered(history)
  {
  }

  /** A page lies in the history, its last transaction just before its end. */
  lemma PageLies(history: seq<Transaction>, pages: seq<PageRead>, start: U32, i: nat)
    requires Sound(history, pages, start) && i < |pages|
    ensures var page := pages[i];
            && EndOf(history, page) <= |history|
            && (i < |pages| - 1 ==> Follows(page, pages[i + 1]))
            && (page.transactions != [] ==> history[EndOf(history, page) - 1].ledger == LastLedgerOf(page))
  {
    hide FirstOf, LedgerOrdered;
    assert Served(history, pages[i]);
  }

  /** A page stepped past ends before the next begins; what lies between is of its last ledger. */
  lemma StepsOver(history: seq<Transaction>, pages: seq<PageRead>, start: U32, i: nat, q: nat)
    requires Sound(history, pages, start) && i < |pages| - 1 && q < |history|
    ensures pages[i].transactions != []
    ensures LastLedgerOf(pages[i]) < LAST_LEDGER ==>
              && EndOf(history, pages[i]) <= StartOf(history, pages[i + 1])
              && (EndOf(history, pages[i]) <= q ==>
                    (q < StartOf(history, pages[i + 1]) <==> history[q].ledger == LastLedgerOf(pages[i])))
    ensures LastLedgerOf(pages[i]) == LAST_LEDGER ==>
              i + 2 == |pages| && (EndOf(history, pages[i]) <= q ==> StartOf(history, pages[i + 1]) <= q)
  {
    var end, next := EndOf(history, pages[i]), pages[i + 1].ledger;
    PageLies(history, pages, start, i);
    PageLies(history, pages, start, i + 1);
    Ordered(history, pages, start);
    Before(history, next, end - 1);
    Before(history, next, q);
    assert end <= q ==> history[end - 1].ledger <= history[q].ledger;
  }

  /** The scan went on past the last ledger of the page. */
  predicate SteppedPast(pages: seq<PageRead>, i: nat) {
    i < |pages| - 1 && pages[i].transactions != [] && LastLedgerOf(pages[i]) < LAST_LEDGER
  }

  /** After the page, its last ledger has another failed Soroban transaction. */
  ghost predicate LeftBehind(history: seq<Transaction>, page: PageRead) {
    page.transactions != [] && exists q: nat :: LeavesBehind(history, page, q)
  }

  ghost predicate LeavesBehind(history: seq<Transaction>, page: PageRead, q: nat)
    requires page.transactions != []
  {
    EndOf(history, page) <= q && FailedAt(history, q) && history[q].ledger == LastLedgerOf(page)
  }

  /** No page the scan stepped past left a failure of its last ledger behind. */
  ghost predicate NoneLeftBehind(history: seq<Transaction>, pages: seq<PageRead>) {
    forall i: nat :: SteppedPast(pages, i) ==> !LeftBehind(history, pages[i])
  }

  /** Where the scan stopped: at the end of the last page it read. */
  function StoppedAt(history: seq<Transaction>, pages: seq<PageRead>, start: U32): nat {
    if pages == [] then FirstOf(history, start) else EndOf(history, pages[|pages| - 1])
  }

  /** A failed Soroban transaction before the stopping point that is on no page. */
  ghost predicate Missed(history: seq<Transaction>, pages: seq<PageRead>, start: U32, q: nat) {
    && FirstOf(history, start) <= q < StoppedAt(history, pages, start)
    && FailedAt(history, q) && !OnAPage(history, pages, q)
  }

  /** The last page that starts at or before a place. */
  lemma {:induction false} PageBefore(history: seq<Transaction>, pages: seq<PageRead>, q: nat) returns (i: nat)
    requires pages != [] && StartOf(history, pages[0]) <= q
    ensures i < |pages| && StartOf(history, pages[i]) <= q
    ensures i < |pages| - 1 ==> q < StartOf(history, pages[i + 1])
    decreases |pages|
  {
    hide StartOf;
    var n := |pages| - 1;
    if StartOf(history, pages[n]) <= q {
      i := n;
    } else {
      i := PageBefore(history, pages[..n], q);
      assert i < n - 1 ==> pages[..n][i + 1] == pages[i + 1];
    }
  }

  lemma MissedIsLeftBehind(history: seq<Transaction>, pages: seq<PageRead>, start: U32, q: nat)
    requires Sound(history, pages, start) && Missed(history, pages, start, q)
    ensures exists i: nat :: SteppedPast(pages, i) && LeftBehind(history, pages[i])
  {
    assert pages != [] && StartOf(history, pages[0]) == FirstOf(history, start);
    var i := PageBefore(history, pages, q);
    assert !(StartOf(history, pages[i]) <= q < EndOf(history, pages[i]));
    hide Sound, FirstOf;
    if i < |pages| - 1 {
      StepsOver(history, pages, start, i, q);
      assert LeavesBehind(history, pages[i], q);
      assert SteppedPast(pages, i);
    }
  }

  /** Pages before another end no later than it does, unless the scan has reached the last ledger. */
  lemma EndsBefore(history: seq<Transaction>, pages: seq<PageRead>, start: U32, j: nat, i: nat)
    requires Sound(history, pages, start) && j < i < |pages| - 1
    ensures EndOf(history, pages[j]) <= StartOf(history, pages[i])
  {
    PageLies(history, pages, start, 0);
    var q := EndOf(history, pages[j]) - 1;
    PageLies(history, pages, start, j);
    StepsOver(history, pages, start, j, q);
    StartsRise(history, pages, start, j + 1, i);
  }

  /** What a page left behind is on no page: earlier ones end before it, later ones start after it. */
  lemma OffEveryPage(history: seq<Transaction>, pages: seq<PageRead>, start: U32, i: nat, q: nat, j: nat)
    requires Sound(history, pages, start) && i < |pages| - 1 && j < |pages|
    requires EndOf(history, pages[i]) <= q < StartOf(history, pages[i + 1])
    ensures !(StartOf(history, pages[j]) <= q < EndOf(history, pages[j]))
  {
    hide FirstOf;
    if j < i {
      EndsBefore(history, pages, start, j, i);
    } else if j > i {
      StartsRise(history, pages, start, i + 1, j);
    }
    hide Sound;
  }

  lemma LeftBehindIsMissed(history: seq<Transaction>, pages: seq<PageRead>, start: U32, i: nat, q: nat)
    requires Sound(history, pages, start) && SteppedPast(pages, i) && LeavesBehind(history, pages[i], q)
    ensures Missed(history, pages, start, q)
  {
    assert StartOf(history, pages[0]) == FirstOf(history, start);
    hide FirstOf, Sound;
    StepsOver(history, pages, start, i, q);
    StartsRise(history, pages, start, 0, i);
    StartsRise(history, pages, start, i + 1, |pages| - 1);
    hide StartOf, EndOf;
    forall j | 0 <= j < |pages|
      ensures !(StartOf(history, pages[j]) <= q < EndOf(history, pages[j]))
    {
      OffEveryPage(history, pages, start, i, q, j);
    }
    PageWide(history, pages[i]);
    PageWide(history, pages[|pages| - 1]);
  }

  lemma PageWide(history: seq<Transaction>, page: PageRead)
    ensures StartOf(history, page) <= EndOf(history, page)
  {
  }

  /**
   Nothing before the stopping point is missed exactly when no page that was
   stepped past left one of its last ledger's failures behind.
   */
  lemma NothingMissedExactly(history: seq<Transaction>, pages: seq<PageRead>, start: U32)
    requires Sound(history, pages, start)
    ensures (forall q: nat :: !Missed(history, pages, start, q)) <==> NoneLeftBehind(history, pages)
  {
    hide Sound, Missed, LeavesBehind;
    if q: nat :| Missed(history, pages, start, q) {
      MissedIsLeftBehind(history, pages, start, q);
    }
    if i: nat :| SteppedPast(pages, i) && LeftBehind(history, pages[i]) {
      var q: nat :| LeavesBehind(history, pages[i], q);
      LeftBehindIsMissed(history, pages, start, i, q);
    }
  }

  // ---------------------------------------------------- when something is repeated

  ghost predicate NoneFailedIn(history: seq<Transaction>, ledger: U32) {
    forall q: nat :: FailedAt(history, q) ==> history[q].ledger != ledger
  }

  /** The only way to step back is to ask for the last ledger again. */
  ghost predicate NeverBack(history: seq<Transaction>, start: U32) {
    start == LAST_LEDGER || NoneFailedIn(history, LAST_LEDGER)
  }

  lemma PrefixSound(history: seq<Transaction>, pages: seq<PageRead>, start: U32)
    requires Sound(history, pages, start) && pages != []
    ensures Sound(history, pages[..|pages| - 1], start)
  {
    hide Served, LedgerOrdered, Follows;
    var front := pages[..|pages| - 1];
    forall i | 0 <= i < |front| - 1
      ensures Follows(front[i], front[i + 1])
    {
      assert Follows(pages[i], pages[i + 1]);
    }
  }

  ghost predicate AllBelow(at: seq<nat>, end: nat) {
    forall i :: 0 <= i < |at| ==> at[i] < end
  }

  lemma AscendingConcat(a: seq<nat>, b: seq<nat>, start: nat)
    requires Ascending(a) && AllBelow(a, start) && Ascending(b) && forall i :: 0 <= i < |b| ==> start <= b[i]
    ensures Ascending(a + b)
  {
  }

  lemma PlacesInWithin(history: seq<Transaction>, page: PageRead)
    requires Served(history, page)
    ensures var places := PlacesIn(history, StartOf(history, page), |page.transactions|);
            && Ascending(places) && AllBelow(places, EndOf(history, page))
            && forall i :: 0 <= i < |places| ==> StartOf(history, page) <= places[i]
  {
    var places := PlacesIn(history, StartOf(history, page), |page.transactions|);
    PlacesInAre(history, StartOf(history, page), |page.transactions|);
    assert forall i :: 0 <= i < |places| ==> places[i] in places;
  }

  /** The page asked for from the last ledger has nothing to report, if that ledger has no failure. */
  lemma LastLedgerSilent(history: seq<Transaction>, page: PageRead)
    requires Served(history, page) && page.ledger == LAST_LEDGER && NoneFailedIn(history, LAST_LEDGER)
    requires LedgerOrdered(history)
    ensures PlacesIn(history, StartOf(history, page), |page.transactions|) == []
  {
    var p, n := StartOf(history, page), |page.transactions|;
    PlacesInAre(history, p, n);
    var places := PlacesIn(history, p, n);
    hide PlacesIn;
    if places != [] {
      assert places[0] in places;
      Before(history, LAST_LEDGER, places[0]);
      assert false;
    }
  }

  lemma {:induction false} PlacesAscend(history: seq<Transaction>, pages: seq<PageRead>, start: U32)
    requires Sound(history, pages, start) && NeverBack(history, start)
    ensures Ascending(Places(history, pages))
    ensures |pages| == 1 || (|pages| > 1 && SteppedPast(pages, |pages| - 2)) ==>
              AllBelow(Places(history, pages), EndOf(history, pages[|pages| - 1]))
    decreases |pages|
  {
    if pages != [] {
      var n := |pages| - 1;
      var front, page := pages[..n], pages[n];
      LastPlaces(history, pages);
      PlacesInWithin(history, page);
      PrefixSound(history, pages, start);
      Ordered(history, pages, start);
      hide Sound, Served, AllServed, PlacesIn, LedgerOrdered;
      PlacesAscend(history, front, start);
      if n > 0 {
        LastStep(history, pages, start);
        hide StartOf, EndOf, SteppedPast;
        if SteppedPast(pages, n - 1) {
          AscendingConcat(Places(history, front), PlacesIn(history, StartOf(history, page), |page.transactions|),
                          StartOf(history, page));
        } else {
          LastLedgerSilent(history, page);
          assert Places(history, front) + [] == Places(history, front);
        }
      } else {
        assert [] + PlacesIn(history, StartOf(history, page), |page.transactions|)
            == PlacesIn(history, StartOf(history, page), |page.transactions|);
      }
    }
  }

  /** How the last page follows the one before. */
  lemma LastStep(history: seq<Transaction>, pages: seq<PageRead>, start: U32)
    requires Sound(history, pages, start) && NeverBack(history, start) && |pages| > 1
    ensures var n := |pages| - 1;
            && (n > 1 ==> SteppedPast(pages[..n], n - 2))
            && (SteppedPast(pages, n - 1) ==> EndOf(history, pages[n - 1]) <= StartOf(history, pages[n]))
            && StartOf(history, pages[n]) <= EndOf(history, pages[n])
            && (!SteppedPast(pages, n - 1) ==> pages[n].ledger == LAST_LEDGER && NoneFailedIn(history, LAST_LEDGER))
  {
    var n := |pages| - 1;
    StepsOver(history, pages, start, n - 1, 0);
    if n > 1 {
      StepsOver(history, pages, start, n - 2, 0);
    }
    PageLies(history, pages, start, n - 1);
    StartsRise(history, pages, start, 0, n);
    hide FirstOf, LedgerOrdered;
  }

  /** No place is reported twice. */
  ghost predicate ReportsOnce(
    history: seq<Transaction>, respond: Respond, n: nat, start: U32, want: nat, maxPages: nat)
  {
    var pages := PagesRead(respond, n, start, want, maxPages);
    Faithful(history, respond) && pages.Some? ==>
      AllServed(history, pages.value) && Distinct(Take(Places(history, pages.value), want))
  }

  lemma OnceIfNeverBack(history: seq<Transaction>, respond: Respond, n: nat, start: U32, want: nat, maxPages: nat)
    requires NeverBack(history, start)
    ensures ReportsOnce(history, respond, n, start, want, maxPages)
  {
    hide PagesRead, Places, Served, FirstOf, Faithful;
    var pages := PagesRead(respond, n, start, want, maxPages);
    if Faithful(history, respond) && pages.Some? {
      ReadsSoundly(history, respond, n, start, want, maxPages);
      PlacesAscend(history, pages.value, start);
    }
  }

  /** A faithful server that ends its pages at place `f`, when it can. */
  function EndsAt(history: seq<Transaction>, f: nat): Respond
    requires f < |history|
  {
    (n: nat, request: Request) =>
      var p := PositionOf(history, request);
      Some(Page(if p <= f then history[p..f + 1] else history[p..], None))
  }

  lemma EndsAtIsFaithful(history: seq<Transaction>, f: nat)
    requires LedgerOrdered(history) && f < |history|
    ensures Faithful(history, EndsAt(history, f))
  {
    hide FirstOf, LedgerOrdered;
  }

  /** The page it gives for a ledger that begins no later than `f`. */
  function PageTo(history: seq<Transaction>, ledger: U32, f: nat): PageRead
    requires FirstOf(history, ledger) <= f < |history|
  {
    PageRead(ledger, history[FirstOf(history, ledger)..f + 1])
  }

  lemma AnswersTo(history: seq<Transaction>, f: nat, n: nat, ledger: U32)
    requires FirstOf(history, ledger) <= f < |history|
    ensures EndsAt(history, f)(n, StartLedger(ledger)) == Some(Page(PageTo(history, ledger, f).transactions, None))
  {
    hide FirstOf;
  }

  /** It makes the scan read the last ledger twice. */
  lemma ReadsTwice(history: seq<Transaction>, f: nat, start: U32, want: nat)
    requires LedgerOrdered(history) && f < |history| && history[f].ledger == LAST_LEDGER && start < LAST_LEDGER
    requires want > |history|
    ensures FirstOf(history, start) <= f && FirstOf(history, LAST_LEDGER) <= f
    ensures PagesRead(EndsAt(history, f), 0, start, want, 2)
            == Some([PageTo(history, start, f), PageTo(history, LAST_LEDGER, f)])
  {
    Before(history, start, f);
    Before(history, LAST_LEDGER, f);
    AnswersTo(history, f, 0, start);
    AnswersTo(history, f, 1, LAST_LEDGER);
    hide FirstOf, EndsAt, Failures, LedgerOrdered;
    var respond := EndsAt(history, f);
    var first, second := PageTo(history, start, f).transactions, PageTo(history, LAST_LEDGER, f).transactions;
    assert NextLedger(first) == LAST_LEDGER == NextLedger(second);
    var room := want - |Failures(first)|;
    assert PagesRead(respond, 1, LAST_LEDGER, room, 1) == Some([PageRead(LAST_LEDGER, second)]);
    assert [PageRead(start, first)] + [PageRead(LAST_LEDGER, second)]
        == [PageTo(history, start, f), PageTo(history, LAST_LEDGER, f)];
  }

  lemma TwoPages(history: seq<Transaction>, first: PageRead, second: PageRead)
    requires Served(history, first) && Served(history, second)
    ensures AllServed(history, [first, second])
    ensures Places(history, [first, second])
            == PlacesIn(history, StartOf(history, first), |first.transactions|)
               + PlacesIn(history, StartOf(history, second), |second.transactions|)
  {
    var pages := [first, second];
    assert pages[..1] == [first] && [first][..0] == [];
    LastPlaces(history, pages);
    LastPlaces(history, [first]);
    assert Places(history, []) == [];
    hide Served, PlacesIn, StartOf, Places;
    var a := PlacesIn(history, StartOf(history, first), |first.transactions|);
    assert [] + a == a;
  }

  lemma {:induction false} FewPlaces(history: seq<Transaction>, p: nat, n: nat)
    requires p + n <= |history|
    ensures |PlacesIn(history, p, n)| <= n
  {
    if n > 0 {
      FewPlaces(history, p, n - 1);
    }
  }

  /** A place in both lists is there twice in as much of them as is wanted. */
  lemma InBoth(a: seq<nat>, b: seq<nat>, f: nat, want: nat)
    requires f in a && f in b && want >= |a| + |b|
    ensures !Distinct(Take(a + b, want))
  {
    var i :| 0 <= i < |a| && a[i] == f;
    var j :| 0 <= j < |b| && b[j] == f;
    var s := a + b;
    assert Take(s, want) == s;
    assert s[i] == s[|a| + j];
  }

  lemma IsReported(history: seq<Transaction>, page: PageRead, f: nat)
    requires Served(history, page) && FailedAt(history, f)
    requires StartOf(history, page) <= f < EndOf(history, page)
    ensures StartOf(history, page) + |page.transactions| <= |history|
    ensures var places := PlacesIn(history, StartOf(history, page), |page.transactions|);
            f in places && |places| <= |history|
  {
    PlacesInAre(history, StartOf(history, page), |page.transactions|);
    FewPlaces(history, StartOf(history, page), |page.transactions|);
  }

  /** A failure that is on both pages is reported twice, if as many are wanted. */
  lemma OnBothPages(history: seq<Transaction>, first: PageRead, second: PageRead, f: nat)
    requires Served(history, first) && Served(history, second) && FailedAt(history, f)
    requires StartOf(history, first) <= f < EndOf(history, first)
    requires StartOf(history, second) <= f < EndOf(history, second)
    ensures AllServed(history, [first, second])
    ensures !Distinct(Take(Places(history, [first, second]), 2 * |history| + 1))
  {
    hide *;
    TwoPages(history, first, second);
    IsReported(history, first, f);
    IsReported(history, second, f);
    InBoth(PlacesIn(history, StartOf(history, first), |first.transactions|),
           PlacesIn(history, StartOf(history, second), |second.transactions|), f, 2 * |history| + 1);
  }

  lemma PageToServed(history: seq<Transaction>, ledger: U32, f: nat)
    requires FirstOf(history, ledger) <= f < |history|
    ensures var page := PageTo(history, ledger, f);
            Served(history, page) && StartOf(history, page) <= f < EndOf(history, page)
  {
    hide FirstOf;
  }

  lemma TwiceIfFailedInLast(history: seq<Transaction>, start: U32, f: nat)
    requires LedgerOrdered(history) && FailedAt(history, f) && history[f].ledger == LAST_LEDGER && start < LAST_LEDGER
    ensures !ReportsOnce(history, EndsAt(history, f), 0, start, 2 * |history| + 1, 2)
  {
    EndsAtIsFaithful(history, f);
    ReadsTwice(history, f, start, 2 * |history| + 1);
    PageToServed(history, start, f);
    PageToServed(history, LAST_LEDGER, f);
    OnBothPages(history, PageTo(history, start, f), PageTo(history, LAST_LEDGER, f), f);
    hide PagesRead, Places, EndsAt, Faithful, Served, Distinct, AllServed, PageTo, FirstOf;
  }

  /**
   No faithful server can make the scan report a place twice exactly when it
   starts at the last ledger, or no failed Soroban transaction is in that ledger.
   */
  lemma ReportedOnceExactly(history: seq<Transaction>, start: U32)
    requires LedgerOrdered(history)
    ensures (forall respond: Respond, n: nat, want: nat, maxPages: nat ::
               ReportsOnce(history, respond, n, start, want, maxPages))
            <==> NeverBack(history, start)
  {
    hide ReportsOnce, LedgerOrdered;
    if NeverBack(history, start) {
      forall respond: Respond, n: nat, want: nat, maxPages: nat
        ensures ReportsOnce(history, respond, n, start, want, maxPages)
      {
        OnceIfNeverBack(history, respond, n, start, want, maxPages);
      }
    } else {
      var f: nat :| FailedAt(history, f) && history[f].ledger == LAST_LEDGER;
      TwiceIfFailedInLast(history, start, f);
    }
  }

  // ------------------------------------------------------------- nothing missed

  lemma LeastFirst(a: seq<nat>, b: seq<nat>)
    requires Ascending(a) && a != [] && b != [] && b[0] in a
    ensures a[0] <= b[0]
  {
    var i :| 0 <= i < |a| && a[i] == b[0];
    assert i > 0 ==> a[0] < a[i];
  }

  lemma RestAscends(a: seq<nat>, q: nat)
    requires Ascending(a) && a != []
    ensures Ascending(a[1..])
    ensures q in a[1..] <==> q in a && q != a[0]
  {
    if q in a[1..] {
      var i :| 0 <= i < |a| - 1 && a[1..][i] == q;
      assert a[0] < a[i + 1];
    }
  }

  lemma {:induction false} AscendingUnique(a: seq<nat>, b: seq<nat>)
    requires Ascending(a) && Ascending(b) && forall q: nat :: q in a <==> q in b
    ensures a == b
    decreases |a|
  {
    hide Ascending;
    if b != [] {
      assert b[0] in b;
    }
    if a != [] {
      assert a[0] in a;
      assert b != [];
      LeastFirst(a, b);
      LeastFirst(b, a);
      RestAscends(a, a[0]);
      RestAscends(b, b[0]);
      forall q: nat
        ensures q in a[1..] <==> q in b[1..]
      {
        RestAscends(a, q);
        RestAscends(b, q);
      }
      AscendingUnique(a[1..], b[1..]);
      assert a == [a[0]] + a[1..] && b == [b[0]] + b[1..];
    }
  }

  /** Where the pages lie between the start and the stopping point. */
  lemma PlacesBetween(history: seq<Transaction>, pages: seq<PageRead>, start: U32, q: nat)
    requires Sound(history, pages, start) && NeverBack(history, start)
    requires OnAPage(history, pages, q) && FailedAt(history, q)
    ensures FirstOf(history, start) <= q < StoppedAt(history, pages, start)
  {
    hide Sound, FirstOf, FailedAt, NeverBack;
    var n := |pages| - 1;
    var i :| 0 <= i < |pages| && StartOf(history, pages[i]) <= q < EndOf(history, pages[i]);
    StartsRise(history, pages, start, 0, i);
    FirstPage(history, pages, start);
    hide StartOf, EndOf;
    if i < n {
      AtTheEnd(history, pages, start, i, q);
      StartsRise(history, pages, start, i + 1, n);
      PageWide(history, pages[n]);
    }
  }

  lemma FirstPage(history: seq<Transaction>, pages: seq<PageRead>, start: U32)
    requires Sound(history, pages, start) && pages != []
    ensures StartOf(history, pages[0]) == FirstOf(history, start)
  {
  }

  lemma AtTheEnd(history: seq<Transaction>, pages: seq<PageRead>, start: U32, i: nat, q: nat)
    requires Sound(history, pages, start) && NeverBack(history, start) && i < |pages| - 1
    requires StartOf(history, pages[i]) <= q < EndOf(history, pages[i]) && FailedAt(history, q)
    ensures q < StartOf(history, pages[i + 1])
  {
    StepsOver(history, pages, start, i, q);
    PageLies(history, pages, start, i);
    StartsRise(history, pages, start, 0, i + 1);
    if LastLedgerOf(pages[i]) == LAST_LEDGER {
      assert pages[i + 1].ledger == LAST_LEDGER;
      Ordered(history, pages, start);
      Before(history, LAST_LEDGER, q);
    }
  }

  lemma StoppedWithin(history: seq<Transaction>, pages: seq<PageRead>, start: U32)
    requires Sound(history, pages, start)
    ensures FirstOf(history, start) <= StoppedAt(history, pages, start) <= |history|
  {
    if pages != [] {
      StartsRise(history, pages, start, 0, |pages| - 1);
      PageLies(history, pages, start, |pages| - 1);
    }
  }

  lemma SameReports(history: seq<Transaction>, places: seq<nat>, a: seq<FoundTransaction>, b: seq<FoundTransaction>)
    requires Reports(history, places, a) && Reports(history, places, b)
    ensures a == b
  {
  }

  /** Pages with the places of one stretch of the history report that stretch. */
  lemma PlacesDecide(history: seq<Transaction>, pages: seq<PageRead>, p: nat, e: nat)
    requires AllServed(history, pages) && p <= e <= |history|
    requires Places(history, pages) == PlacesIn(history, p, e - p)
    ensures Failures(All(pages)) == Failures(history[p..e])
  {
    hide *;
    PagesReport(history, pages);
    StretchReports(history, p, e - p);
    assert p + (e - p) == e;
    SameReports(history, Places(history, pages), Failures(All(pages)), Failures(history[p..e]));
  }

  /**
   If no page stepped past left a failure behind and the scan never goes back,
   it reports the first `want` failures between its start and its stopping point.
   */
  lemma ScanIsComplete(history: seq<Transaction>, pages: seq<PageRead>, start: U32)
    requires Sound(history, pages, start) && NeverBack(history, start)
    requires NoneLeftBehind(history, pages)
    ensures FirstOf(history, start) <= StoppedAt(history, pages, start) <= |history|
    ensures Failures(All(pages)) == Failures(history[FirstOf(history, start)..StoppedAt(history, pages, start)])
  {
    hide *;
    var p, e := FirstOf(history, start), StoppedAt(history, pages, start);
    StoppedWithin(history, pages, start);
    SoundServed(history, pages, start);
    NothingMissedExactly(history, pages, start);
    AllPlaces(history, pages, start);
    PlacesDecide(history, pages, p, e);
  }

  lemma SoundServed(history: seq<Transaction>, pages: seq<PageRead>, start: U32)
    requires Sound(history, pages, start)
    ensures AllServed(history, pages)
  {
  }

  lemma MetExactly(history: seq<Transaction>, pages: seq<PageRead>, start: U32, q: nat)
    requires Sound(history, pages, start) && NeverBack(history, start) && !Missed(history, pages, start, q)
    ensures OnAPage(history, pages, q) && FailedAt(history, q)
            <==> FirstOf(history, start) <= q < StoppedAt(history, pages, start) && FailedAt(history, q)
  {
    if OnAPage(history, pages, q) && FailedAt(history, q) {
      PlacesBetween(history, pages, start, q);
    }
    hide OnAPage, FirstOf, StoppedAt;
  }

  /** Every failure between the start and the stopping point is met once, in order. */
  lemma AllPlaces(history: seq<Transaction>, pages: seq<PageRead>, start: U32)
    requires Sound(history, pages, start) && NeverBack(history, start) && AllServed(history, pages)
    requires forall q: nat :: !Missed(history, pages, start, q)
    requires FirstOf(history, start) <= StoppedAt(history, pages, start) <= |history|
    ensures var p, e := FirstOf(history, start), StoppedAt(history, pages, start);
            Places(history, pages) == PlacesIn(history, p, e - p)
  {
    hide *;
    var p, e := FirstOf(history, start), StoppedAt(history, pages, start);
    var places, stretch := Places(history, pages), PlacesIn(history, p, e - p);
    PlacesAre(history, pages);
    PlacesInAre(history, p, e - p);
    PlacesAscend(history, pages, start);
    forall q: nat
      ensures q in places <==> q in stretch
    {
      MetExactly(history, pages, start, q);
    }
    AscendingUnique(places, stretch);
  }

  /** A server whose pages end at ledger boundaries leaves nothing behind. */
  ghost predicate EndsAtLedgers(history: seq<Transaction>, respond: Respond) {
    forall n: nat, ledger: U32 :: respond(n, StartLedger(ledger)).Some? ==>
      !LeftBehind(history, PageRead(ledger, respond(n, StartLedger(ledger)).value.transactions))
  }

  lemma {:induction false} NothingLeftBehind(history: seq<Transaction>, respond: Respond, n: nat, ledger: U32,
                                             room: nat, left: nat)
    requires EndsAtLedgers(history, respond) && PagesRead(respond, n, ledger, room, left).Some?
    ensures forall page :: page in PagesRead(respond, n, ledger, room, left).value ==> !LeftBehind(history, page)
    decreases left
  {
    hide LeftBehind, Failures;
    if left > 0 && room > 0 {
      var txs := respond(n, StartLedger(ledger)).value.transactions;
      var found := |Failures(txs)|;
      if !(txs == [] || found >= room || NextLedger(txs) <= ledger) {
        NothingLeftBehind(history, respond, n + 1, NextLedger(txs), room - found, left - 1);
      }
    }
  }

  /**
   From a faithful server whose pages end at ledger boundaries, the scan reports
   the first `want` failures from its start up to where it stopped.
   */
  lemma CompleteAtLedgerEnds(history: seq<Transaction>, respond: Respond, n: nat, start: U32, want: nat, maxPages: nat)
    requires Faithful(history, respond) && EndsAtLedgers(history, respond) && NeverBack(history, start)
    requires PagesRead(respond, n, start, want, maxPages).Some?
    ensures var pages := PagesRead(respond, n, start, want, maxPages).value;
            && FirstOf(history, start) <= StoppedAt(history, pages, start) <= |history|
            && Take(Failures(All(pages)), want)
               == Take(Failures(history[FirstOf(history, start)..StoppedAt(history, pages, start)]), want)
  {
    hide *;
    var pages := PagesRead(respond, n, start, want, maxPages).value;
    ReadsSoundly(history, respond, n, start, want, maxPages);
    NothingLeftBehind(history, respond, n, start, want, maxPages);
    NoneIsLeft(history, pages);
    ScanIsComplete(history, pages, start);
  }

  lemma NoneIsLeft(history: seq<Transaction>, pages: seq<PageRead>)
    requires forall page :: page in pages ==> !LeftBehind(history, page)
    ensures NoneLeftBehind(history, pages)
  {
    hide LeftBehind;
  }

  // ------------------------------------------------------------ the failing inputs

  const BEFORE_LAST: U32 := 0xffff_fffe

  const LAST_FAILED := FoundTransaction("b", LAST_LEDGER, "invokeContract")

  function FailedLast(): seq<Transaction> {
    [Transaction("a", BEFORE_LAST, None), Transaction("b", LAST_LEDGER, Some("invokeContract"))]
  }

  /** One failure in the last ledger, and a faithful server makes the scan report it twice. */
  lemma LastLedgerIsReportedTwice()
    ensures Faithful(FailedLast(), EndsAt(FailedLast(), 1))
    ensures var pages := PagesRead(EndsAt(FailedLast(), 1), 0, BEFORE_LAST, 3, 2);
            pages.Some? && Take(Failures(All(pages.value)), 3) == [LAST_FAILED, LAST_FAILED]
  {
    hide PagesRead, Faithful, EndsAt, All, Failures, FirstOf;
    var history := FailedLast();
    EndsAtIsFaithful(history, 1);
    ReadsTwice(history, 1, BEFORE_LAST, 3);
    var first, second := PageTo(history, BEFORE_LAST, 1), PageTo(history, LAST_LEDGER, 1);
    FirstAt(history, BEFORE_LAST, 0);
    FirstAt(history, LAST_LEDGER, 1);
    AllOfTwo(first, second);
    assert first.transactions == history && second.transactions == [history[1]];
    assert All([first, second]) == [history[0], history[1], history[1]];
    FailuresOfThree(history[0], history[1]);
  }

  lemma FirstAt(history: seq<Transaction>, ledger: U32, p: nat)
    requires LedgerOrdered(history) && p < |history| && history[p].ledger == ledger
    requires p == 0 || history[p - 1].ledger < ledger
    ensures FirstOf(history, ledger) == p
  {
    Before(history, ledger, p);
    if p > 0 {
      Before(history, ledger, p - 1);
    }
  }

  lemma AllOfTwo(first: PageRead, second: PageRead)
    ensures All([first, second]) == first.transactions + second.transactions
  {
    AllOne([], first);
    AllOne([first], second);
    assert [] + [first] == [first] && [first] + [second] == [first, second];
    assert [] + first.transactions == first.transactions;
  }

  lemma FailuresOfThree(sound: Transaction, failed: Transaction)
    requires sound.failed.None? && failed.failed.Some?
    ensures Failures([sound, failed, failed]) == [Found(failed), Found(failed)]
  {
    assert [sound, failed, failed][..2] == [sound, failed] && [sound, failed][..1] == [sound];
    assert Failures([sound]) == [];
    assert Failures([sound, failed]) == [Found(failed)];
  }

  /** A faithful server of one transaction a page. */
  function OneByOne(history: seq<Transaction>): Respond {
    (n: nat, request: Request) =>
      var p := PositionOf(history, request);
      Some(Page(if p < |history| then [history[p]] else [], None))
  }

  lemma OneByOneIsFaithful(history: seq<Transaction>)
    requires LedgerOrdered(history)
    ensures Faithful(history, OneByOne(history))
  {
    hide FirstOf, LedgerOrdered;
  }

  function TwoFailures(): seq<Transaction> {
    [Transaction("a", 5, Some("invokeContract")), Transaction("b", 5, Some("invokeContract"))]
  }

  const SECOND_PAGE := PageRead(6, [])

  function FirstPageOfTwo(): PageRead {
    PageRead(5, [TwoFailures()[0]])
  }

  lemma TwoFailuresStart()
    ensures LedgerOrdered(TwoFailures()) && FirstOf(TwoFailures(), 5) == 0 && FirstOf(TwoFailures(), 6) == 2
  {
    FirstAt(TwoFailures(), 5, 0);
  }

  lemma PagesOfTwo()
    ensures PagesRead(OneByOne(TwoFailures()), 0, 5, 2, 2) == Some([FirstPageOfTwo(), SECOND_PAGE])
  {
    TwoFailuresStart();
    hide FirstOf;
    var history := TwoFailures();
    assert PagesRead(OneByOne(history), 1, 6, 1, 1) == Some([SECOND_PAGE]);
    assert [FirstPageOfTwo()] + [SECOND_PAGE] == [FirstPageOfTwo(), SECOND_PAGE];
  }

  /** Two failures of one ledger on two pages: the scan goes on at the next ledger and misses the second. */
  lemma RestOfALedgerIsMissed()
    ensures Faithful(TwoFailures(), OneByOne(TwoFailures()))
    ensures var pages := PagesRead(OneByOne(TwoFailures()), 0, 5, 2, 2);
            && pages.Some? && Missed(TwoFailures(), pages.value, 5, 1)
            && Take(Failures(All(pages.value)), 2) == [FoundTransaction("a", 5, "invokeContract")]
  {
    hide PagesRead, Faithful, OneByOne, All, FirstOf;
    TwoFailuresStart();
    OneByOneIsFaithful(TwoFailures());
    PagesOfTwo();
    AllOfTwo(FirstPageOfTwo(), SECOND_PAGE);
    assert All([FirstPageOfTwo(), SECOND_PAGE]) == [TwoFailures()[0]];
  }

  // ----------------------------------------------------------- hashes reported once

  ghost predicate DistinctHashes(history: seq<Transaction>) {
    forall p, q :: 0 <= p < q < |history| ==> history[p].hash != history[q].hash
  }

  ghost predicate HashesDiffer(found: seq<FoundTransaction>) {
    forall i, j :: 0 <= i < j < |found| ==> found[i].hash != found[j].hash
  }

  lemma PlacesDiffer(history: seq<Transaction>, places: seq<nat>, found: seq<FoundTransaction>)
    requires DistinctHashes(history) && Reports(history, places, found) && Distinct(places)
    ensures HashesDiffer(found)
  {
    forall i, j | 0 <= i < j < |found|
      ensures found[i].hash != found[j].hash
    {
      assert FailedAt(history, places[i]) && FailedAt(history, places[j]);
      assert history[places[i]].hash != history[places[j]].hash;
    }
  }

  lemma TakenReports(history: seq<Transaction>, places: seq<nat>, found: seq<FoundTransaction>, want: nat)
    requires Reports(history, places, found)
    ensures Reports(history, Take(places, want), Take(found, want))
  {
  }

  /** No transaction is reported twice, if the scan never goes back. */
  lemma HashesReportedOnce(
    history: seq<Transaction>, respond: Respond, n: nat, start: U32, want: nat, maxPages: nat)
    requires Faithful(history, respond) && NeverBack(history, start) && DistinctHashes(history)
    requires PagesRead(respond, n, start, want, maxPages).Some?
    ensures HashesDiffer(Take(Failures(All(PagesRead(respond, n, start, want, maxPages).value)), want))
  {
    hide PagesRead, Places, Faithful, Failures, All, Take, HashesDiffer, DistinctHashes, Reports, Distinct, Served;
    var pages := PagesRead(respond, n, start, want, maxPages).value;
    OnceIfNeverBack(history, respond, n, start, want, maxPages);
    PagesReport(history, pages);
    TakenReports(history, Places(history, pages), Failures(All(pages)), want);
    PlacesDiffer(history, Take(Places(history, pages), want), Take(Failures(All(pages)), want));
  }
}
