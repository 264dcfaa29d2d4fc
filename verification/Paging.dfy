/**
 Reading a ledger page by page (`whole_ledger`,
 crates/soroban-failure-rpc/examples/survey_failures.rs:202-240;
 `ledger_transaction_hashes`,
 crates/soroban-failure-rpc/examples/verify_protocol_assumptions.rs:95-125). The
 RPC server is a history of transactions and an arbitrary way of cutting it into
 pages.
 */
module Paging {
  import opened Common
  import opened Soroban

  /** A transaction as `getTransactions` lists it; `failed` names the Soroban operation of a failed one. */
  datatype Transaction = Transaction(hash: string, ledger: U32, failed: Option<string>)

  /** A cursor stands for the place in the history it was handed out at. */
  datatype Request = StartLedger(ledger: U32) | Cursor(position: nat)

  datatype Page = Page(transactions: seq<Transaction>, cursor: Option<nat>)

  /** Answers the n-th call; an answer that never comes is `None`. */
  class Server {
    const history: seq<Transaction>
    const respond: (nat, Request) -> Option<Page>
    var calls: nat

    constructor (history: seq<Transaction>, respond: (nat, Request) -> Option<Page>)
      ensures this.history == history && this.respond == respond && calls == 0
    {
      this.history := history;
      this.respond := respond;
      calls := 0;
    }

    method Call(request: Request) returns (r: Option<Page>)
      modifies this
      ensures calls == old(calls) + 1 && r == respond(old(calls), request)
    {
      r := respond(calls, request);
      calls := calls + 1;
    }
  }

  ghost predicate LedgerOrdered(history: seq<Transaction>) {
    forall i, j :: 0 <= i < j < |history| ==> history[i].ledger <= history[j].ledger
  }

  /** The first position at or after the ledger. */
  function FirstOf(history: seq<Transaction>, ledger: U32): (p: nat)
    ensures p <= |history|
    ensures forall i :: 0 <= i < p ==> history[i].ledger < ledger
    ensures p < |history| ==> history[p].ledger >= ledger
  {
    if history == [] || history[0].ledger >= ledger then 0
    else
      var p := FirstOf(history[1..], ledger);
      assert forall i :: 0 < i < |history| ==> history[i] == history[1..][i - 1];
      p + 1
  }

  function PositionOf(history: seq<Transaction>, request: Request): nat {
    match request
    case StartLedger(ledger) => FirstOf(history, ledger)
    case Cursor(position) => Min(position, |history|)
  }

  /** The page is the next stretch of the history, empty only at its end. */
  ghost predicate Serves(history: seq<Transaction>, request: Request, page: Page) {
    var p, n := PositionOf(history, request), |page.transactions|;
    && p + n <= |history| && page.transactions == history[p..p + n]
    && (n == 0 ==> p == |history|)
    && (page.cursor.Some? ==> page.cursor.value == p + n)
  }

  /** Whatever the page size, and however it changes from call to call. */
  ghost predicate Faithful(history: seq<Transaction>, respond: (nat, Request) -> Option<Page>) {
    && LedgerOrdered(history)
    && forall n, request :: respond(n, request).Some? ==> Serves(history, request, respond(n, request).value)
  }

  /** Every call is answered, and every answer has a cursor. */
  ghost predicate AlwaysAnswers(respond: (nat, Request) -> Option<Page>) {
    forall n, request :: respond(n, request).Some? && respond(n, request).value.cursor.Some?
  }

  function OfLedger(history: seq<Transaction>, ledger: U32): seq<Transaction> {
    Filter(history, (t: Transaction) => t.ledger == ledger)
  }

  predicate Reaches(page: seq<Transaction>, ledger: U32) {
    exists t :: t in page && t.ledger > ledger
  }

  // ----------------------------------------------------------- one whole ledger

  lemma {:induction false} NoneOfLedger(s: seq<Transaction>, ledger: U32)
    requires forall t :: t in s ==> t.ledger != ledger
    ensures OfLedger(s, ledger) == []
  {
    if s != [] {
      NoneOfLedger(s[..|s| - 1], ledger);
    }
  }

  /** Up to position `p`, everything of the ledger has been read. */
  ghost predicate ReadUpTo(history: seq<Transaction>, ledger: U32, p: nat, out: seq<Transaction>) {
    p <= |history| && out == OfLedger(history[..p], ledger) && forall i :: 0 <= i < p ==> history[i].ledger <= ledger
  }

  lemma NothingRead(history: seq<Transaction>, ledger: U32)
    ensures ReadUpTo(history, ledger, FirstOf(history, ledger), [])
  {
    NoneOfLedger(history[..FirstOf(history, ledger)], ledger);
  }

  ghost predicate NextPage(history: seq<Transaction>, p: nat, page: seq<Transaction>) {
    p + |page| <= |history| && page == history[p..p + |page|] && (page == [] ==> p == |history|)
  }

  lemma PageAdds(history: seq<Transaction>, ledger: U32, p: nat, out: seq<Transaction>, page: seq<Transaction>)
    requires ReadUpTo(history, ledger, p, out) && NextPage(history, p, page)
    ensures out + OfLedger(page, ledger) == OfLedger(history[..p + |page|], ledger)
  {
    assert history[..p + |page|] == history[..p] + page;
    FilterConcat(history[..p], page, (t: Transaction) => t.ledger == ledger);
  }

  lemma LastPage(history: seq<Transaction>, ledger: U32, p: nat, page: seq<Transaction>)
    requires LedgerOrdered(history) && NextPage(history, p, page) && (Reaches(page, ledger) || page == [])
    ensures OfLedger(history[..p + |page|], ledger) == OfLedger(history, ledger)
  {
    var read, rest := history[..p + |page|], history[p + |page|..];
    assert history == read + rest;
    if page != [] {
      LaterLedgersFollow(history, ledger, p, page);
    }
    NoneOfLedger(rest, ledger);
    FilterConcat(read, rest, (t: Transaction) => t.ledger == ledger);
    assert OfLedger(read, ledger) + [] == OfLedger(read, ledger);
  }

  /** One more page. */
  lemma PageRead(history: seq<Transaction>, ledger: U32, p: nat, out: seq<Transaction>, page: seq<Transaction>)
    requires LedgerOrdered(history) && ReadUpTo(history, ledger, p, out) && NextPage(history, p, page)
    ensures !Reaches(page, ledger) ==> ReadUpTo(history, ledger, p + |page|, out + OfLedger(page, ledger))
    ensures Reaches(page, ledger) || page == [] ==> out + OfLedger(page, ledger) == OfLedger(history, ledger)
  {
    PageAdds(history, ledger, p, out, page);
    hide OfLedger;
    if Reaches(page, ledger) || page == [] {
      LastPage(history, ledger, p, page);
    }
    if !Reaches(page, ledger) {
      forall i | 0 <= i < p + |page|
        ensures history[i].ledger <= ledger
      {
        assert i >= p ==> history[i] == page[i - p] && page[i - p] in page;
      }
    }
  }

  lemma LaterLedgersFollow(history: seq<Transaction>, ledger: U32, p: nat, page: seq<Transaction>)
    requires LedgerOrdered(history) && Reaches(page, ledger)
    requires p + |page| <= |history| && page == history[p..p + |page|]
    ensures forall t :: t in history[p + |page|..] ==> t.ledger > ledger
  {
    var t :| t in page && t.ledger > ledger;
    var i :| 0 <= i < |page| && page[i] == t;
    assert history[p + i] == t;
  }

  datatype LedgerRead = LedgerRead(transactions: seq<Transaction>, finalCursor: Option<nat>)

  /**
   Reads every transaction of the ledger, in order, or returns nothing; and it
   does return them if every call is answered.
   */
  method WholeLedger(server: Server, ledger: U32) returns (r: Option<LedgerRead>)
    requires Faithful(server.history, server.respond)
    modifies server
    ensures r.Some? ==> r.value.transactions == OfLedger(server.history, ledger)
    ensures AlwaysAnswers(server.respond) ==> r.Some?
  {
    hide OfLedger, Reaches, ReadUpTo;
    var out: seq<Transaction> := [];
    var cursor: Option<nat> := None;
    ghost var at := FirstOf(server.history, ledger);
    NothingRead(server.history, ledger);
    while true
      invariant cursor.None? ==> at == FirstOf(server.history, ledger)
      invariant cursor.Some? ==> cursor.value == at
      invariant at <= |server.history| && ReadUpTo(server.history, ledger, at, out)
      decreases |server.history| - at
    {
      var request := if cursor.None? then StartLedger(ledger) else Cursor(cursor.value);
      var result := server.Call(request);
      if result.None? {
        return None;
      }
      var page := result.value.transactions;
      assert Serves(server.history, request, result.value);
      PageRead(server.history, ledger, at, out, page);
      out := out + OfLedger(page, ledger);
      if Reaches(page, ledger) || page == [] {
        return Some(LedgerRead(out, result.value.cursor));
      }
      cursor := result.value.cursor;
      if cursor.None? {
        return None;
      }
      at := at + |page|;
    }
  }

  function HashesOf(s: seq<Transaction>): set<string> {
    set t | t in s :: t.hash
  }

  lemma HashesOfBoth(a: seq<Transaction>, b: seq<Transaction>)
    ensures HashesOf(a + b) == HashesOf(a) + HashesOf(b)
  {
  }

  /** The same read for the set of hashes, with a limit the server may take or leave. */
  method LedgerTransactionHashes(server: Server, ledger: U32) returns (r: Option<set<string>>)
    requires Faithful(server.history, server.respond)
    modifies server
    ensures r.Some? ==> r.value == HashesOf(OfLedger(server.history, ledger))
    ensures AlwaysAnswers(server.respond) ==> r.Some?
  {
    hide OfLedger, Reaches, ReadUpTo, HashesOf;
    var hashes: set<string> := {};
    var cursor: Option<nat> := None;
    ghost var at := FirstOf(server.history, ledger);
    ghost var out: seq<Transaction> := [];
    NothingRead(server.history, ledger);
    assert hashes == HashesOf(out) by { NoHashes(); }
    while true
      invariant cursor.None? ==> at == FirstOf(server.history, ledger)
      invariant cursor.Some? ==> cursor.value == at
      invariant at <= |server.history| && ReadUpTo(server.history, ledger, at, out) && hashes == HashesOf(out)
      decreases |server.history| - at
    {
      var request := if cursor.None? then StartLedger(ledger) else Cursor(cursor.value);
      var result := server.Call(request);
      if result.None? {
        return None;
      }
      var page := result.value.transactions;
      assert Serves(server.history, request, result.value);
      PageRead(server.history, ledger, at, out, page);
      HashesOfBoth(out, OfLedger(page, ledger));
      hashes := hashes + HashesOf(OfLedger(page, ledger));
      out := out + OfLedger(page, ledger);
      if Reaches(page, ledger) || page == [] {
        return Some(hashes);
      }
      cursor := result.value.cursor;
      if cursor.None? {
        return None;
      }
      at := at + |page|;
    }
  }

  lemma NoHashes()
    ensures HashesOf([]) == {}
  {
  }
}
